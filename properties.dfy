/** What the readers and the decoder promise, stated over the Wire functions. */
module WireProperties {
  import opened Wrappers
  import opened Bytes
  import opened ByteCursor
  import opened Wire
  import Hex

  /** A short fixed-width read is worth the little-endian value of the bytes that were there. */
  lemma UIntAtAvailable(buf: seq<byte>, pos: nat, width: nat)
    requires pos <= |buf|
    ensures var k := Taken(buf, pos, width);
      UIntAt(buf, pos, width) == Step(FromLE(buf[pos..pos + k]), pos + k)
  {
    var k := Taken(buf, pos, width);
    var padded := buf[pos..pos + k] + Zeros(width - k);
    forall i | 0 <= i < width
      ensures ReadAt(buf, pos, width).value[i] == padded[i]
    {
      ReadAtByte(buf, pos, width, i);
    }
    assert ReadAt(buf, pos, width).value == padded;
    FromLEZeroPadded(buf[pos..pos + k], width - k);
  }

  /** A prefix byte 0-252 is the value itself and occupies one byte. */
  lemma CompactSizeSingleByte(buf: seq<byte>, pos: nat)
    requires pos < |buf| && buf[pos] <= 252
    ensures CompactSizeAt(buf, pos) == Step(buf[pos] as int, pos + 1)
  {
    ReadAtByte(buf, pos, 1, 0);
  }

  /**
   * A prefix byte 253, 254 or 255 is followed by a 2-, 4- or 8-byte
   * little-endian value; when the buffer ends early the value is that of
   * the bytes present.
   */
  lemma CompactSizeWide(buf: seq<byte>, pos: nat)
    requires pos < |buf| && buf[pos] >= 253
    ensures var width := if buf[pos] == 253 then 2 else if buf[pos] == 254 then 4 else 8;
      var k := Taken(buf, pos + 1, width);
      CompactSizeAt(buf, pos) == Step(FromLE(buf[pos + 1..pos + 1 + k]), pos + 1 + k)
  {
    var width := if buf[pos] == 253 then 2 else if buf[pos] == 254 then 4 else 8;
    ReadAtByte(buf, pos, 1, 0);
    UIntAtAvailable(buf, pos + 1, width);
  }

  /** On an exhausted cursor a CompactSize is 0 and nothing is consumed. */
  lemma CompactSizeAtEnd(buf: seq<byte>)
    ensures CompactSizeAt(buf, |buf|) == Step(0, |buf|)
  {
    ReadAtEnd(buf, 1);
  }

  /** The unit test of the one-byte form: [1] is 1. */
  lemma CompactSizeVectorOneByte()
    ensures CompactSizeAt([1], 0) == Step(1, 1)
  {
    CompactSizeSingleByte([1], 0);
  }

  /** The unit test of the three-byte form: [253, 0, 1] is 256. */
  lemma CompactSizeVectorTwoBytes()
    ensures CompactSizeAt([253, 0, 1], 0) == Step(256, 3)
  {
    CompactSizeWide([253, 0, 1], 0);
    assert [253, 0, 1][1..3] == [0, 1];
    LittleEndianVectors();
  }

  /** The unit test of the five-byte form: [254, 0, 0, 0, 1] is 256^3. */
  lemma CompactSizeVectorFourBytes()
    ensures CompactSizeAt([254, 0, 0, 0, 1], 0) == Step(256 * 256 * 256, 5)
  {
    CompactSizeWide([254, 0, 0, 0, 1], 0);
    assert [254, 0, 0, 0, 1][1..5] == [0, 0, 0, 1];
    LittleEndianVectors();
  }

  /** The unit test of the nine-byte form: [255, 0, 0, 0, 0, 0, 0, 0, 1] is 256^7. */
  lemma CompactSizeVectorEightBytes()
    ensures CompactSizeAt([255, 0, 0, 0, 0, 0, 0, 0, 1], 0)
         == Step(256 * 256 * 256 * 256 * 256 * 256 * 256, 9)
  {
    var payload: seq<byte> := [0, 0, 0, 0, 0, 0, 0, 1];
    var eight := [255 as byte] + payload;
    assert eight == [255, 0, 0, 0, 0, 0, 0, 0, 1];
    CompactSizeWide(eight, 0);
    assert eight[1..9] == payload;
    LittleEndianVectors();
  }

  /** The unit test that goes through hex: "fd204e" is 20000. */
  lemma CompactSizeVectorFromHex()
    ensures Hex.Decode("fd204e") == Ok([253, 32, 78])
    ensures CompactSizeAt([253, 32, 78], 0) == Step(20000, 3)
  {
    var hex := "fd204e";
    assert hex[2..] == "204e" && hex[2..][2..] == "4e" && hex[2..][2..][2..] == "";
    assert Hex.DecodeFrom("", 6) == Ok([]);
    assert Hex.DigitValue('4') == 4 && Hex.DigitValue('e') == 14;
    assert "4e"[2..] == "" && "204e"[2..] == "4e";
    assert [78 as byte] + [] == [78];
    assert Hex.DecodeFrom("4e", 4) == Ok([78]);
    assert Hex.DigitValue('2') == 2 && Hex.DigitValue('0') == 0;
    assert [32 as byte] + [78] == [32, 78];
    assert Hex.DecodeFrom("204e", 2) == Ok([32, 78]);
    assert Hex.DigitValue('f') == 15 && Hex.DigitValue('d') == 13;
    assert [253 as byte] + [32, 78] == [253, 32, 78];
    assert Hex.DecodeFrom(hex, 0) == Ok([253, 32, 78]);
    CompactSizeWide([253, 32, 78], 0);
    assert [253, 32, 78][1..3] == [0x20, 0x4e];
    LittleEndianVectors();
  }

  /** No minimal-encoding check: 1 written in the three-byte form is still 1. */
  lemma CompactSizeNonCanonical()
    ensures CompactSizeAt([253, 1, 0], 0).value == CompactSizeAt([1], 0).value == 1
  {
    CompactSizeWide([253, 1, 0], 0);
    assert [253, 1, 0][1..3] == [1, 0];
  }

  /** Past the end of the buffer a fixed-width integer reads as 0 and nothing is consumed. */
  lemma UIntAtEnd(buf: seq<byte>, width: nat)
    ensures UIntAt(buf, |buf|, width) == Step(0, |buf|)
  {
    ReadAtEnd(buf, width);
    FromLEZeroPadded([], width);
    assert [] + Zeros(width) == Zeros(width);
  }

  /** Past the end of the buffer an input reads as all zeros with an empty script. */
  lemma InputAtEnd(buf: seq<byte>)
    ensures InputAt(buf, |buf|) == Step(Input(Zeros(32), 0, "", 0), |buf|)
  {
    Pow256Widths();
    ReadAtEnd(buf, 32);
    UIntAtEnd(buf, 4);
    CompactSizeAtEnd(buf);
    ReadAtEnd(buf, 0);
  }

  /** Past the end of the buffer an output reads as amount 0 with an empty script. */
  lemma OutputAtEnd(buf: seq<byte>)
    ensures OutputAt(buf, |buf|) == Step(Output(0, ""), |buf|)
  {
    Pow256Widths();
    UIntAtEnd(buf, 8);
    CompactSizeAtEnd(buf);
    ReadAtEnd(buf, 0);
  }

  /** The hex text of any byte string decodes to the transaction read from those bytes. */
  lemma DecodeEncodedBytes(sha256: seq<byte> -> Txid, bytes: seq<byte>)
    ensures DecodeTransaction(sha256, Hex.Encode(bytes)) == Ok(TransactionAt(bytes, sha256(sha256(bytes))).value)
  {
    Hex.DecodeEncode(bytes);
  }

  /**
   * The smallest transaction, 01000000 00 00 00000000: version 1, no inputs,
   * no outputs, lock time 0, all ten bytes consumed.
   */
  lemma EmptyTransactionExample(bytes: seq<byte>, id: Txid)
    requires bytes == [1, 0, 0, 0, 0, 0, 0, 0, 0, 0]
    ensures TransactionAt(bytes, id) == Step(Transaction(id, 1, [], [], 0), 10)
  {
    Pow256Widths();
    assert U32At(bytes, 0) == Step(1, 4) by {
      UIntAtAvailable(bytes, 0, 4);
      assert Taken(bytes, 0, 4) == 4 && bytes[0..4] == [1, 0, 0, 0];
      assert FromLE([1, 0, 0, 0]) == 1;
    }
    CompactSizeSingleByte(bytes, 4);
    CompactSizeSingleByte(bytes, 5);
    assert U32At(bytes, 6) == Step(0, 10) by {
      UIntAtAvailable(bytes, 6, 4);
      assert Taken(bytes, 6, 4) == 4 && bytes[6..10] == [0, 0, 0, 0];
      assert FromLE([0, 0, 0, 0]) == 0;
    }
  }

  /**
   * The truncated bytes 01000000 01 declare one input and then end: they
   * still decode, to one input whose fields are all zero, no outputs and
   * lock time 0, with the cursor stopped at the end.
   */
  lemma TruncatedInputReadsAsZeros(bytes: seq<byte>, id: Txid)
    requires bytes == [1, 0, 0, 0, 1]
    ensures TransactionAt(bytes, id) == Step(Transaction(id, 1, [Input(Zeros(32), 0, "", 0)], [], 0), 5)
  {
    Pow256Widths();
    assert U32At(bytes, 0) == Step(1, 4) by {
      UIntAtAvailable(bytes, 0, 4);
      assert Taken(bytes, 0, 4) == 4 && bytes[0..4] == [1, 0, 0, 0];
      assert FromLE([1, 0, 0, 0]) == 1;
    }
    CompactSizeSingleByte(bytes, 4);
    var input := Input(Zeros(32), 0, "", 0);
    assert InputsFrom(bytes, 5, 1) == Step([input], 5) by {
      InputAtEnd(bytes);
      assert InputsFrom(bytes, 5, 1) == Step(InputsFrom(bytes, 5, 0).value + [InputAt(bytes, 5).value], 5);
      assert [] + [input] == [input];
    }
    CompactSizeAtEnd(bytes);
    UIntAtEnd(bytes, 4);
  }

  /** The 32 txid bytes are kept in the order they appear, zero past the end. */
  lemma TxidUnreversed(buf: seq<byte>, pos: nat)
    requires pos <= |buf|
    ensures forall i :: 0 <= i < 32 ==> TxidAt(buf, pos).value[i] == ByteAt(buf, pos + i)
    ensures pos + 32 <= |buf| ==> TxidAt(buf, pos).value == buf[pos..pos + 32] && TxidAt(buf, pos).next == pos + 32
  {
    if pos + 32 <= |buf| {
      ExactReadAgrees(buf, pos, 32);
    }
  }

  /**
   * A script is rendered as lower-case hex of exactly twice its declared
   * length, whatever the buffer holds; the text decodes back to the bytes read.
   */
  lemma ScriptRendering(buf: seq<byte>, pos: nat)
    requires pos <= |buf|
    ensures var size := CompactSizeAt(buf, pos);
      var script := ScriptAt(buf, pos).value;
      && |script| == 2 * size.value
      && (forall k :: 0 <= k < |script| ==> Hex.IsLowerHexDigit(script[k]))
      && Hex.Decode(script) == Ok(ReadAt(buf, size.next, size.value).value)
  {
    var size := CompactSizeAt(buf, pos);
    Hex.DecodeEncode(ReadAt(buf, size.next, size.value).value);
  }

  /**
   * A decoded transaction has as many inputs and outputs as its counts
   * declare, the counts being read after the version and after the inputs.
   */
  lemma DecodeCounts(sha256: seq<byte> -> Txid, transactionHex: string)
    requires DecodeTransaction(sha256, transactionHex).Ok?
    ensures var buf := Hex.Decode(transactionHex).value;
      var tx := DecodeTransaction(sha256, transactionHex).value;
      var inputCount := CompactSizeAt(buf, U32At(buf, 0).next);
      var inputsEnd := InputsFrom(buf, inputCount.next, inputCount.value).next;
      && tx.version == U32At(buf, 0).value
      && |tx.inputs| == inputCount.value
      && |tx.outputs| == CompactSizeAt(buf, inputsEnd).value
  {
  }
}
