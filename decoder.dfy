/**
 * The decoder's readers and `decode` as the program runs them: each reader
 * fills a zero-initialised buffer from the shared cursor and advances it in
 * place; `decode` pushes inputs and outputs in two counted loops. Each is
 * proved to produce what the matching Wire function describes.
 */
module Decoder {
  import opened Wrappers
  import opened Bytes
  import opened ByteCursor
  import opened Wire
  import Hex

  /**
   * The step every fixed-width reader shares: fill a zeroed buffer of the
   * given width from the cursor and read it as a little-endian integer.
   */
  method ReadLittleEndian(bytes: Cursor, width: nat) returns (v: nat)
    requires bytes.Valid()
    modifies bytes
    ensures bytes.Valid()
    ensures Step(v, bytes.pos) == UIntAt(bytes.buf, old(bytes.pos), width)
  {
    var buffer := new byte[width](_ => 0);
    var _ := bytes.Read(buffer);
    v := FromLE(buffer[..]);
  }

  method ReadCompactSize(bytes: Cursor) returns (size: u64)
    requires bytes.Valid()
    modifies bytes
    ensures bytes.Valid()
    ensures Step(size, bytes.pos) == CompactSizeAt(bytes.buf, old(bytes.pos))
  {
    var compactSize := new byte[1](_ => 0);
    var _ := bytes.Read(compactSize);
    if compactSize[0] <= 252 {
      size := compactSize[0] as int;
    } else if compactSize[0] == 253 {
      size := ReadLittleEndian(bytes, 2);
    } else if compactSize[0] == 254 {
      size := ReadLittleEndian(bytes, 4);
    } else {
      Pow256Widths();
      size := ReadLittleEndian(bytes, 8);
    }
  }

  method ReadU32(bytes: Cursor) returns (v: u32)
    requires bytes.Valid()
    modifies bytes
    ensures bytes.Valid()
    ensures Step(v, bytes.pos) == U32At(bytes.buf, old(bytes.pos))
  {
    Pow256Widths();
    v := ReadLittleEndian(bytes, 4);
  }

  method ReadAmount(bytes: Cursor) returns (amount: Amount)
    requires bytes.Valid()
    modifies bytes
    ensures bytes.Valid()
    ensures Step(amount, bytes.pos) == AmountAt(bytes.buf, old(bytes.pos))
  {
    Pow256Widths();
    amount := ReadLittleEndian(bytes, 8);
  }

  method ReadTxid(bytes: Cursor) returns (txid: Txid)
    requires bytes.Valid()
    modifies bytes
    ensures bytes.Valid()
    ensures Step(txid, bytes.pos) == TxidAt(bytes.buf, old(bytes.pos))
  {
    var buffer := new byte[32](_ => 0);
    var _ := bytes.Read(buffer);
    txid := buffer[..];
  }

  method ReadScript(bytes: Cursor) returns (script: string)
    requires bytes.Valid()
    modifies bytes
    ensures bytes.Valid()
    ensures Step(script, bytes.pos) == ScriptAt(bytes.buf, old(bytes.pos))
  {
    var scriptSize := ReadCompactSize(bytes);
    var buffer := new byte[scriptSize](_ => 0);
    var _ := bytes.Read(buffer);
    script := Hex.Encode(buffer[..]);
  }

  /** `decode`, up to the JSON rendering of the transaction. */
  method Decode(sha256: seq<byte> -> Txid, transactionHex: string) returns (r: Result<Transaction, DecodeError>)
    ensures r == DecodeTransaction(sha256, transactionHex)
  {
    var decoded := Hex.Decode(transactionHex);
    if decoded.Err? {
      return Err(HexDecodeError(decoded.error));
    }
    var transactionBytes := decoded.value;
    var bytesSlice := new Cursor(transactionBytes);

    var version := ReadU32(bytesSlice);

    var inputCount := ReadCompactSize(bytesSlice);
    var inputs: seq<Input> := [];
    ghost var inputsStart := bytesSlice.pos;
    for i := 0 to inputCount
      invariant bytesSlice.Valid() && bytesSlice.buf == transactionBytes
      invariant Step(inputs, bytesSlice.pos) == InputsFrom(transactionBytes, inputsStart, i)
    {
      var txid := ReadTxid(bytesSlice);
      var outputIndex := ReadU32(bytesSlice);
      var scriptSig := ReadScript(bytesSlice);
      var sequence := ReadU32(bytesSlice);
      inputs := inputs + [Input(txid, outputIndex, scriptSig, sequence)];
    }

    var outputCount := ReadCompactSize(bytesSlice);
    var outputs: seq<Output> := [];
    ghost var outputsStart := bytesSlice.pos;
    for i := 0 to outputCount
      invariant bytesSlice.Valid() && bytesSlice.buf == transactionBytes
      invariant Step(outputs, bytesSlice.pos) == OutputsFrom(transactionBytes, outputsStart, i)
    {
      var amount := ReadAmount(bytesSlice);
      var scriptPubkey := ReadScript(bytesSlice);
      outputs := outputs + [Output(amount, scriptPubkey)];
    }

    var lockTime := ReadU32(bytesSlice);
    var transactionId := HashRawTransaction(sha256, transactionBytes);
    r := Ok(Transaction(transactionId, version, inputs, outputs, lockTime));
  }
}
