/**
 * The legacy (non-witness) transaction wire format as the decoder reads it:
 * the result data model and, for each reader, the value it produces and the
 * cursor position it leaves when started at a given position of the buffer.
 */
module Wire {
  import opened Wrappers
  import opened Bytes
  import opened ByteCursor
  import Hex

  /** A 32-byte hash, stored in wire order (display reverses it). */
  type Txid = s: seq<byte> | |s| == 32 witness Zeros(32)

  /** A count of satoshis. */
  type Amount = u64

  datatype Input = Input(txid: Txid, outputIndex: u32, scriptSig: string, sequence: u32)
  datatype Output = Output(amount: Amount, scriptPubkey: string)
  datatype Transaction = Transaction(
    transactionId: Txid,
    version: u32,
    inputs: seq<Input>,
    outputs: seq<Output>,
    lockTime: u32)

  datatype DecodeError = HexDecodeError(cause: Hex.HexError)

  /** An unsigned little-endian integer of the given width. */
  function UIntAt(buf: seq<byte>, pos: nat, width: nat): (r: Step<nat>)
    requires pos <= |buf|
    ensures r.value < Pow256(width)
    ensures r.next == ReadAt(buf, pos, width).next
  {
    var bytes := ReadAt(buf, pos, width);
    Step(FromLE(bytes.value), bytes.next)
  }

  /** `read_compact_size`: a prefix byte, then 0, 2, 4 or 8 further bytes. */
  function CompactSizeAt(buf: seq<byte>, pos: nat): (r: Step<u64>)
    requires pos <= |buf|
    ensures pos <= r.next <= |buf|
  {
    Pow256Widths();
    var prefix := ReadAt(buf, pos, 1);
    var b := prefix.value[0];
    if b <= 252 then Step(b as int, prefix.next)
    else if b == 253 then UIntAt(buf, prefix.next, 2)
    else if b == 254 then UIntAt(buf, prefix.next, 4)
    else UIntAt(buf, prefix.next, 8)
  }

  function U32At(buf: seq<byte>, pos: nat): (r: Step<u32>)
    requires pos <= |buf|
    ensures pos <= r.next <= |buf|
  {
    Pow256Widths();
    UIntAt(buf, pos, 4)
  }

  function AmountAt(buf: seq<byte>, pos: nat): (r: Step<Amount>)
    requires pos <= |buf|
    ensures pos <= r.next <= |buf|
  {
    Pow256Widths();
    UIntAt(buf, pos, 8)
  }

  function TxidAt(buf: seq<byte>, pos: nat): (r: Step<Txid>)
    requires pos <= |buf|
    ensures pos <= r.next <= |buf|
  {
    ReadAt(buf, pos, 32)
  }

  /** `read_script`: a CompactSize length, then that many bytes rendered as hex. */
  function ScriptAt(buf: seq<byte>, pos: nat): (r: Step<string>)
    requires pos <= |buf|
    ensures pos <= r.next <= |buf|
  {
    var size := CompactSizeAt(buf, pos);
    var bytes := ReadAt(buf, size.next, size.value);
    Step(Hex.Encode(bytes.value), bytes.next)
  }

  /** One input: previous txid, output index, unlocking script, sequence. */
  function InputAt(buf: seq<byte>, pos: nat): (r: Step<Input>)
    requires pos <= |buf|
    ensures pos <= r.next <= |buf|
  {
    var txid := TxidAt(buf, pos);
    var outputIndex := U32At(buf, txid.next);
    var scriptSig := ScriptAt(buf, outputIndex.next);
    var sequence := U32At(buf, scriptSig.next);
    Step(Input(txid.value, outputIndex.value, scriptSig.value, sequence.value), sequence.next)
  }

  /** The first count inputs starting at pos, in wire order. */
  function InputsFrom(buf: seq<byte>, pos: nat, count: nat): (r: Step<seq<Input>>)
    requires pos <= |buf|
    ensures |r.value| == count
    ensures pos <= r.next <= |buf|
  {
    if count == 0 then Step([], pos)
    else
      var previous := InputsFrom(buf, pos, count - 1);
      var input := InputAt(buf, previous.next);
      Step(previous.value + [input.value], input.next)
  }

  /** One output: amount, then locking script. */
  function OutputAt(buf: seq<byte>, pos: nat): (r: Step<Output>)
    requires pos <= |buf|
    ensures pos <= r.next <= |buf|
  {
    var amount := AmountAt(buf, pos);
    var scriptPubkey := ScriptAt(buf, amount.next);
    Step(Output(amount.value, scriptPubkey.value), scriptPubkey.next)
  }

  function OutputsFrom(buf: seq<byte>, pos: nat, count: nat): (r: Step<seq<Output>>)
    requires pos <= |buf|
    ensures |r.value| == count
    ensures pos <= r.next <= |buf|
  {
    if count == 0 then Step([], pos)
    else
      var previous := OutputsFrom(buf, pos, count - 1);
      var output := OutputAt(buf, previous.next);
      Step(previous.value + [output.value], output.next)
  }

  /**
   * The fields of a transaction read from the start of buf, in wire order:
   * version, input count, inputs, output count, outputs, lock time; the
   * identifier is supplied, not read.
   */
  function TransactionAt(buf: seq<byte>, id: Txid): (r: Step<Transaction>)
    ensures r.next <= |buf|
  {
    var version := U32At(buf, 0);
    var inputCount := CompactSizeAt(buf, version.next);
    var inputs := InputsFrom(buf, inputCount.next, inputCount.value);
    var outputCount := CompactSizeAt(buf, inputs.next);
    var outputs := OutputsFrom(buf, outputCount.next, outputCount.value);
    var lockTime := U32At(buf, outputs.next);
    Step(Transaction(id, version.value, inputs.value, outputs.value, lockTime.value), lockTime.next)
  }

  /** `hash_raw_transaction`: the hash function applied twice. */
  function HashRawTransaction(sha256: seq<byte> -> Txid, raw: seq<byte>): Txid {
    sha256(sha256(raw))
  }

  /**
   * `decode`: hex-decode the text, read the fields, and identify the
   * transaction by the double hash of the whole decoded buffer.
   */
  function DecodeTransaction(sha256: seq<byte> -> Txid, transactionHex: string): (r: Result<Transaction, DecodeError>)
    ensures r.Err? <==> Hex.Decode(transactionHex).Err?
    ensures r.Err? ==> r.error == HexDecodeError(Hex.Decode(transactionHex).error)
    ensures r.Ok? ==> r.value.transactionId == sha256(sha256(Hex.Decode(transactionHex).value))
  {
    match Hex.Decode(transactionHex)
    case Err(e) => Err(HexDecodeError(e))
    case Ok(bytes) => Ok(TransactionAt(bytes, HashRawTransaction(sha256, bytes)).value)
  }
}
