/**
 * The legacy wire encoding of a transaction, as the inverse the decoder is
 * checked against: decoding a serialized transaction, followed by any
 * trailing bytes, gives back its fields and stops where the encoding ends.
 */
module Encoder {
  import opened Wrappers
  import opened Bytes
  import opened ByteCursor
  import opened Wire
  import Hex

  datatype RawInput = RawInput(txid: Txid, outputIndex: u32, scriptSig: seq<byte>, sequence: u32)
  datatype RawOutput = RawOutput(amount: Amount, scriptPubkey: seq<byte>)
  datatype RawTransaction = RawTransaction(
    version: u32,
    inputs: seq<RawInput>,
    outputs: seq<RawOutput>,
    lockTime: u32)

  /** Every length and count fits in a CompactSize. */
  ghost predicate WellFormed(raw: RawTransaction) {
    && |raw.inputs| < 0x1_0000_0000_0000_0000
    && |raw.outputs| < 0x1_0000_0000_0000_0000
    && InputScriptsFit(raw.inputs)
    && OutputScriptsFit(raw.outputs)
  }

  ghost predicate InputScriptsFit(inputs: seq<RawInput>) {
    forall i :: 0 <= i < |inputs| ==> |inputs[i].scriptSig| < 0x1_0000_0000_0000_0000
  }

  ghost predicate OutputScriptsFit(outputs: seq<RawOutput>) {
    forall i :: 0 <= i < |outputs| ==> |outputs[i].scriptPubkey| < 0x1_0000_0000_0000_0000
  }

  /** The shortest CompactSize form of v (v is taken modulo 2^64). */
  function EncodeCompactSize(v: nat): (bs: seq<byte>)
    ensures 1 <= |bs| <= 9
  {
    if v <= 252 then [v as byte]
    else if v < 0x1_0000 then [253] + ToLE(v, 2)
    else if v < 0x1_0000_0000 then [254] + ToLE(v, 4)
    else [255] + ToLE(v, 8)
  }

  function EncodeScript(script: seq<byte>): seq<byte> {
    EncodeCompactSize(|script|) + script
  }

  function EncodeInput(input: RawInput): seq<byte> {
    input.txid + ToLE(input.outputIndex, 4) + EncodeScript(input.scriptSig) + ToLE(input.sequence, 4)
  }

  function EncodeInputs(inputs: seq<RawInput>): seq<byte> {
    if inputs == [] then []
    else EncodeInputs(inputs[..|inputs| - 1]) + EncodeInput(inputs[|inputs| - 1])
  }

  function EncodeOutput(output: RawOutput): seq<byte> {
    ToLE(output.amount, 8) + EncodeScript(output.scriptPubkey)
  }

  function EncodeOutputs(outputs: seq<RawOutput>): seq<byte> {
    if outputs == [] then []
    else EncodeOutputs(outputs[..|outputs| - 1]) + EncodeOutput(outputs[|outputs| - 1])
  }

  function Serialize(raw: RawTransaction): seq<byte> {
    ToLE(raw.version, 4)
      + EncodeCompactSize(|raw.inputs|) + EncodeInputs(raw.inputs)
      + EncodeCompactSize(|raw.outputs|) + EncodeOutputs(raw.outputs)
      + ToLE(raw.lockTime, 4)
  }

  /** How the decoder presents an input or output: scripts as hex text. */
  function RenderInput(input: RawInput): Input {
    Input(input.txid, input.outputIndex, Hex.Encode(input.scriptSig), input.sequence)
  }

  function RenderInputs(inputs: seq<RawInput>): (r: seq<Input>)
    ensures |r| == |inputs|
  {
    if inputs == [] then [] else RenderInputs(inputs[..|inputs| - 1]) + [RenderInput(inputs[|inputs| - 1])]
  }

  function RenderOutput(output: RawOutput): Output {
    Output(output.amount, Hex.Encode(output.scriptPubkey))
  }

  function RenderOutputs(outputs: seq<RawOutput>): (r: seq<Output>)
    ensures |r| == |outputs|
  {
    if outputs == [] then [] else RenderOutputs(outputs[..|outputs| - 1]) + [RenderOutput(outputs[|outputs| - 1])]
  }

  function Render(raw: RawTransaction, id: Txid): Transaction {
    Transaction(id, raw.version, RenderInputs(raw.inputs), RenderOutputs(raw.outputs), raw.lockTime)
  }

  /** The bytes e stand in buf from pos on. */
  ghost predicate At(buf: seq<byte>, pos: nat, e: seq<byte>) {
    pos + |e| <= |buf| && buf[pos..pos + |e|] == e
  }

  lemma AtSplit(buf: seq<byte>, pos: nat, a: seq<byte>, b: seq<byte>, middle: nat)
    requires At(buf, pos, a + b) && middle == pos + |a|
    ensures At(buf, pos, a) && At(buf, middle, b)
  {
    assert buf[pos..pos + |a|] == buf[pos..pos + |a + b|][..|a|];
    assert buf[pos + |a|..pos + |a| + |b|] == buf[pos..pos + |a + b|][|a|..];
  }

  lemma ReadAtMatches(buf: seq<byte>, pos: nat, e: seq<byte>)
    requires At(buf, pos, e)
    ensures ReadAt(buf, pos, |e|) == Step(e, pos + |e|)
  {
    forall i | 0 <= i < |e|
      ensures ReadAt(buf, pos, |e|).value[i] == e[i]
    {
      ReadAtByte(buf, pos, |e|, i);
      assert e[i] == buf[pos..pos + |e|][i];
    }
    assert ReadAt(buf, pos, |e|).value == e;
  }

  lemma UIntAtMatches(buf: seq<byte>, pos: nat, v: nat, width: nat)
    requires v < Pow256(width) && At(buf, pos, ToLE(v, width))
    ensures UIntAt(buf, pos, width) == Step(v, pos + width)
  {
    ReadAtMatches(buf, pos, ToLE(v, width));
    FromLEToLE(v, width);
  }

  lemma CompactSizeAtMatches(buf: seq<byte>, pos: nat, v: u64)
    requires At(buf, pos, EncodeCompactSize(v))
    ensures CompactSizeAt(buf, pos) == Step(v, pos + |EncodeCompactSize(v)|)
  {
    Pow256Widths();
    var e := EncodeCompactSize(v);
    assert At(buf, pos, e[..1]) && At(buf, pos + 1, e[1..]) by {
      assert e[..1] + e[1..] == e;
      AtSplit(buf, pos, e[..1], e[1..], pos + 1);
    }
    assert ReadAt(buf, pos, 1) == Step(e[..1], pos + 1) by {
      ReadAtMatches(buf, pos, e[..1]);
    }
    if v <= 252 {
    } else if v < 0x1_0000 {
      UIntAtMatches(buf, pos + 1, v, 2);
    } else if v < 0x1_0000_0000 {
      UIntAtMatches(buf, pos + 1, v, 4);
    } else {
      UIntAtMatches(buf, pos + 1, v, 8);
    }
  }

  lemma ScriptAtMatches(buf: seq<byte>, pos: nat, script: seq<byte>)
    requires |script| < 0x1_0000_0000_0000_0000 && At(buf, pos, EncodeScript(script))
    ensures ScriptAt(buf, pos) == Step(Hex.Encode(script), pos + |EncodeScript(script)|)
  {
    Pow256Widths();
    var prefix := EncodeCompactSize(|script|);
    var middle := pos + |prefix|;
    assert At(buf, pos, prefix) && At(buf, middle, script) by {
      AtSplit(buf, pos, prefix, script, middle);
    }
    var size := CompactSizeAt(buf, pos);
    assert size == Step(|script|, middle) by {
      CompactSizeAtMatches(buf, pos, |script|);
    }
    var bytes := ReadAt(buf, size.next, size.value);
    assert bytes == Step(script, middle + |script|) by {
      ReadAtMatches(buf, middle, script);
    }
  }

  /** Where each field of an encoded input stands in the buffer. */
  lemma InputLayout(buf: seq<byte>, pos: nat, input: RawInput)
    requires At(buf, pos, EncodeInput(input))
    ensures At(buf, pos, input.txid)
    ensures At(buf, pos + 32, ToLE(input.outputIndex, 4))
    ensures At(buf, pos + 36, EncodeScript(input.scriptSig))
    ensures At(buf, pos + 36 + |EncodeScript(input.scriptSig)|, ToLE(input.sequence, 4))
  {
    var index := ToLE(input.outputIndex, 4);
    var script := EncodeScript(input.scriptSig);
    var sequence := ToLE(input.sequence, 4);
    var upToIndex := input.txid + index;
    var upToScript := upToIndex + script;
    assert EncodeInput(input) == upToScript + sequence;
    assert |upToIndex| == 36 && |upToScript| == 36 + |script|;
    AtSplit(buf, pos, upToScript, sequence, pos + 36 + |script|);
    AtSplit(buf, pos, upToIndex, script, pos + 36);
    AtSplit(buf, pos, input.txid, index, pos + 32);
  }

  lemma InputAtMatches(buf: seq<byte>, pos: nat, input: RawInput)
    requires |input.scriptSig| < 0x1_0000_0000_0000_0000 && At(buf, pos, EncodeInput(input))
    ensures InputAt(buf, pos) == Step(RenderInput(input), pos + |EncodeInput(input)|)
  {
    var end := pos + 36 + |EncodeScript(input.scriptSig)|;
    InputLayout(buf, pos, input);
    var txid := TxidAt(buf, pos);
    assert txid.value == input.txid && txid.next == pos + 32 by {
      ReadAtMatches(buf, pos, input.txid);
    }
    var outputIndex := U32At(buf, txid.next);
    assert outputIndex == Step(input.outputIndex, pos + 36) by {
      Pow256Widths();
      UIntAtMatches(buf, pos + 32, input.outputIndex, 4);
    }
    var scriptSig := ScriptAt(buf, outputIndex.next);
    assert scriptSig == Step(Hex.Encode(input.scriptSig), end) by {
      ScriptAtMatches(buf, pos + 36, input.scriptSig);
    }
    var sequence := U32At(buf, scriptSig.next);
    assert sequence == Step(input.sequence, end + 4) by {
      Pow256Widths();
      UIntAtMatches(buf, end, input.sequence, 4);
    }
  }

  /** Reading one more input appends it to those read so far. */
  lemma InputsFromStep(buf: seq<byte>, pos: nat, inputs: seq<RawInput>, init: seq<RawInput>, last: RawInput, middle: nat, end: nat)
    requires inputs != [] && init == inputs[..|inputs| - 1] && last == inputs[|inputs| - 1]
    requires pos <= |buf|
    requires InputsFrom(buf, pos, |init|) == Step(RenderInputs(init), middle)
    requires InputAt(buf, middle) == Step(RenderInput(last), end)
    ensures InputsFrom(buf, pos, |inputs|) == Step(RenderInputs(inputs), end)
  {
  }

  /** The encoding of all but the last input, then the encoding of the last. */
  lemma InputsSplit(buf: seq<byte>, pos: nat, inputs: seq<RawInput>) returns (middle: nat)
    requires inputs != [] && InputScriptsFit(inputs)
    requires At(buf, pos, EncodeInputs(inputs))
    ensures InputScriptsFit(inputs[..|inputs| - 1]) && |inputs[|inputs| - 1].scriptSig| < 0x1_0000_0000_0000_0000
    ensures At(buf, pos, EncodeInputs(inputs[..|inputs| - 1])) && middle == pos + |EncodeInputs(inputs[..|inputs| - 1])|
    ensures At(buf, middle, EncodeInput(inputs[|inputs| - 1]))
    ensures middle + |EncodeInput(inputs[|inputs| - 1])| == pos + |EncodeInputs(inputs)|
  {
    var init, last := inputs[..|inputs| - 1], inputs[|inputs| - 1];
    assert forall i :: 0 <= i < |init| ==> init[i] == inputs[i];
    middle := pos + |EncodeInputs(init)|;
    assert EncodeInputs(inputs) == EncodeInputs(init) + EncodeInput(last);
    AtSplit(buf, pos, EncodeInputs(init), EncodeInput(last), middle);
  }

  lemma {:induction false} InputsFromMatches(buf: seq<byte>, pos: nat, inputs: seq<RawInput>)
    requires InputScriptsFit(inputs)
    requires At(buf, pos, EncodeInputs(inputs))
    ensures InputsFrom(buf, pos, |inputs|) == Step(RenderInputs(inputs), pos + |EncodeInputs(inputs)|)
  {
    if inputs != [] {
      var init, last := inputs[..|inputs| - 1], inputs[|inputs| - 1];
      var middle := InputsSplit(buf, pos, inputs);
      InputsFromMatches(buf, pos, init);
      InputAtMatches(buf, middle, last);
      InputsFromStep(buf, pos, inputs, init, last, middle, middle + |EncodeInput(last)|);
    }
  }

  lemma OutputAtMatches(buf: seq<byte>, pos: nat, output: RawOutput)
    requires |output.scriptPubkey| < 0x1_0000_0000_0000_0000 && At(buf, pos, EncodeOutput(output))
    ensures OutputAt(buf, pos) == Step(RenderOutput(output), pos + |EncodeOutput(output)|)
  {
    Pow256Widths();
    var script := EncodeScript(output.scriptPubkey);
    assert At(buf, pos, ToLE(output.amount, 8)) && At(buf, pos + 8, script) by {
      AtSplit(buf, pos, ToLE(output.amount, 8), script, pos + 8);
    }
    var amount := AmountAt(buf, pos);
    assert amount == Step(output.amount, pos + 8) by {
      UIntAtMatches(buf, pos, output.amount, 8);
    }
    var scriptPubkey := ScriptAt(buf, amount.next);
    assert scriptPubkey == Step(Hex.Encode(output.scriptPubkey), pos + 8 + |script|) by {
      ScriptAtMatches(buf, pos + 8, output.scriptPubkey);
    }
  }

  /** Reading one more output appends it to those read so far. */
  lemma OutputsFromStep(buf: seq<byte>, pos: nat, outputs: seq<RawOutput>, init: seq<RawOutput>, last: RawOutput, middle: nat, end: nat)
    requires outputs != [] && init == outputs[..|outputs| - 1] && last == outputs[|outputs| - 1]
    requires pos <= |buf|
    requires OutputsFrom(buf, pos, |init|) == Step(RenderOutputs(init), middle)
    requires OutputAt(buf, middle) == Step(RenderOutput(last), end)
    ensures OutputsFrom(buf, pos, |outputs|) == Step(RenderOutputs(outputs), end)
  {
  }

  /** The encoding of all but the last output, then the encoding of the last. */
  lemma OutputsSplit(buf: seq<byte>, pos: nat, outputs: seq<RawOutput>) returns (middle: nat)
    requires outputs != [] && OutputScriptsFit(outputs)
    requires At(buf, pos, EncodeOutputs(outputs))
    ensures OutputScriptsFit(outputs[..|outputs| - 1]) && |outputs[|outputs| - 1].scriptPubkey| < 0x1_0000_0000_0000_0000
    ensures At(buf, pos, EncodeOutputs(outputs[..|outputs| - 1])) && middle == pos + |EncodeOutputs(outputs[..|outputs| - 1])|
    ensures At(buf, middle, EncodeOutput(outputs[|outputs| - 1]))
    ensures middle + |EncodeOutput(outputs[|outputs| - 1])| == pos + |EncodeOutputs(outputs)|
  {
    var init, last := outputs[..|outputs| - 1], outputs[|outputs| - 1];
    assert forall i :: 0 <= i < |init| ==> init[i] == outputs[i];
    middle := pos + |EncodeOutputs(init)|;
    assert EncodeOutputs(outputs) == EncodeOutputs(init) + EncodeOutput(last);
    AtSplit(buf, pos, EncodeOutputs(init), EncodeOutput(last), middle);
  }

  lemma {:induction false} OutputsFromMatches(buf: seq<byte>, pos: nat, outputs: seq<RawOutput>)
    requires OutputScriptsFit(outputs)
    requires At(buf, pos, EncodeOutputs(outputs))
    ensures OutputsFrom(buf, pos, |outputs|) == Step(RenderOutputs(outputs), pos + |EncodeOutputs(outputs)|)
  {
    if outputs != [] {
      var init, last := outputs[..|outputs| - 1], outputs[|outputs| - 1];
      var middle := OutputsSplit(buf, pos, outputs);
      OutputsFromMatches(buf, pos, init);
      OutputAtMatches(buf, middle, last);
      OutputsFromStep(buf, pos, outputs, init, last, middle, middle + |EncodeOutput(last)|);
    }
  }

  /** Where each field of a serialized transaction stands in the buffer. */
  lemma SerializeLayout(raw: RawTransaction, trailing: seq<byte>) returns (p1: nat, p2: nat, p3: nat, p4: nat, p5: nat)
    ensures At(Serialize(raw) + trailing, 0, ToLE(raw.version, 4)) && p1 == 4
    ensures At(Serialize(raw) + trailing, p1, EncodeCompactSize(|raw.inputs|)) && p2 == p1 + |EncodeCompactSize(|raw.inputs|)|
    ensures At(Serialize(raw) + trailing, p2, EncodeInputs(raw.inputs)) && p3 == p2 + |EncodeInputs(raw.inputs)|
    ensures At(Serialize(raw) + trailing, p3, EncodeCompactSize(|raw.outputs|)) && p4 == p3 + |EncodeCompactSize(|raw.outputs|)|
    ensures At(Serialize(raw) + trailing, p4, EncodeOutputs(raw.outputs)) && p5 == p4 + |EncodeOutputs(raw.outputs)|
    ensures At(Serialize(raw) + trailing, p5, ToLE(raw.lockTime, 4)) && p5 + 4 == |Serialize(raw)|
  {
    var buf := Serialize(raw) + trailing;
    var version := ToLE(raw.version, 4);
    var inputCount := EncodeCompactSize(|raw.inputs|);
    var inputs := EncodeInputs(raw.inputs);
    var outputCount := EncodeCompactSize(|raw.outputs|);
    var outputs := EncodeOutputs(raw.outputs);
    var lockTime := ToLE(raw.lockTime, 4);
    var upToInputCount := version + inputCount;
    var upToInputs := upToInputCount + inputs;
    var upToOutputCount := upToInputs + outputCount;
    var upToOutputs := upToOutputCount + outputs;
    assert Serialize(raw) == upToOutputs + lockTime;
    p1, p2, p3, p4, p5 := 4, |upToInputCount|, |upToInputs|, |upToOutputCount|, |upToOutputs|;
    assert At(buf, 0, upToOutputs + lockTime);
    AtSplit(buf, 0, upToOutputs, lockTime, p5);
    AtSplit(buf, 0, upToOutputCount, outputs, p4);
    AtSplit(buf, 0, upToInputs, outputCount, p3);
    AtSplit(buf, 0, upToInputCount, inputs, p2);
    AtSplit(buf, 0, version, inputCount, p1);
  }

  /** The version, the input count and the inputs of a laid-out buffer are read back. */
  lemma InputsPartMatches(buf: seq<byte>, raw: RawTransaction, p1: nat, p2: nat, p3: nat)
    requires |raw.inputs| < 0x1_0000_0000_0000_0000 && InputScriptsFit(raw.inputs)
    requires At(buf, 0, ToLE(raw.version, 4)) && p1 == 4
    requires At(buf, p1, EncodeCompactSize(|raw.inputs|)) && p2 == p1 + |EncodeCompactSize(|raw.inputs|)|
    requires At(buf, p2, EncodeInputs(raw.inputs)) && p3 == p2 + |EncodeInputs(raw.inputs)|
    ensures var version := U32At(buf, 0);
      var inputCount := CompactSizeAt(buf, version.next);
      && version == Step(raw.version, p1)
      && inputCount == Step(|raw.inputs|, p2)
      && InputsFrom(buf, inputCount.next, inputCount.value) == Step(RenderInputs(raw.inputs), p3)
  {
    var version := U32At(buf, 0);
    assert version == Step(raw.version, p1) by {
      Pow256Widths();
      UIntAtMatches(buf, 0, raw.version, 4);
    }
    var inputCount := CompactSizeAt(buf, version.next);
    assert inputCount == Step(|raw.inputs|, p2) by {
      CompactSizeAtMatches(buf, p1, |raw.inputs|);
    }
    InputsFromMatches(buf, p2, raw.inputs);
  }

  /** The output count, the outputs and the lock time of a laid-out buffer are read back. */
  lemma OutputsPartMatches(buf: seq<byte>, raw: RawTransaction, p3: nat, p4: nat, p5: nat)
    requires |raw.outputs| < 0x1_0000_0000_0000_0000 && OutputScriptsFit(raw.outputs)
    requires At(buf, p3, EncodeCompactSize(|raw.outputs|)) && p4 == p3 + |EncodeCompactSize(|raw.outputs|)|
    requires At(buf, p4, EncodeOutputs(raw.outputs)) && p5 == p4 + |EncodeOutputs(raw.outputs)|
    requires At(buf, p5, ToLE(raw.lockTime, 4))
    ensures var outputCount := CompactSizeAt(buf, p3);
      var outputs := OutputsFrom(buf, outputCount.next, outputCount.value);
      && outputCount == Step(|raw.outputs|, p4)
      && outputs == Step(RenderOutputs(raw.outputs), p5)
      && U32At(buf, outputs.next) == Step(raw.lockTime, p5 + 4)
  {
    var outputCount := CompactSizeAt(buf, p3);
    assert outputCount == Step(|raw.outputs|, p4) by {
      CompactSizeAtMatches(buf, p3, |raw.outputs|);
    }
    var outputs := OutputsFrom(buf, outputCount.next, outputCount.value);
    assert outputs == Step(RenderOutputs(raw.outputs), p5) by {
      OutputsFromMatches(buf, p4, raw.outputs);
    }
    Pow256Widths();
    UIntAtMatches(buf, p5, raw.lockTime, 4);
  }

  /** A buffer laid out as a serialized transaction is read back field by field. */
  lemma TransactionAtMatches(buf: seq<byte>, raw: RawTransaction, id: Txid, p1: nat, p2: nat, p3: nat, p4: nat, p5: nat)
    requires WellFormed(raw)
    requires At(buf, 0, ToLE(raw.version, 4)) && p1 == 4
    requires At(buf, p1, EncodeCompactSize(|raw.inputs|)) && p2 == p1 + |EncodeCompactSize(|raw.inputs|)|
    requires At(buf, p2, EncodeInputs(raw.inputs)) && p3 == p2 + |EncodeInputs(raw.inputs)|
    requires At(buf, p3, EncodeCompactSize(|raw.outputs|)) && p4 == p3 + |EncodeCompactSize(|raw.outputs|)|
    requires At(buf, p4, EncodeOutputs(raw.outputs)) && p5 == p4 + |EncodeOutputs(raw.outputs)|
    requires At(buf, p5, ToLE(raw.lockTime, 4))
    ensures TransactionAt(buf, id) == Step(Render(raw, id), p5 + 4)
  {
    InputsPartMatches(buf, raw, p1, p2, p3);
    OutputsPartMatches(buf, raw, p3, p4, p5);
  }

  /**
   * Round trip: the fields of a serialized transaction are read back exactly,
   * the read stops at the end of the encoding, and trailing bytes are ignored.
   */
  lemma DecodeSerialized(raw: RawTransaction, trailing: seq<byte>, id: Txid)
    requires WellFormed(raw)
    ensures TransactionAt(Serialize(raw) + trailing, id) == Step(Render(raw, id), |Serialize(raw)|)
  {
    var p1, p2, p3, p4, p5 := SerializeLayout(raw, trailing);
    TransactionAtMatches(Serialize(raw) + trailing, raw, id, p1, p2, p3, p4, p5);
  }

  /** Decoding the hex text of a serialized transaction gives its fields and the hash of all bytes. */
  lemma DecodeSerializedHex(sha256: seq<byte> -> Txid, raw: RawTransaction, trailing: seq<byte>)
    requires WellFormed(raw)
    ensures var bytes := Serialize(raw) + trailing;
      DecodeTransaction(sha256, Hex.Encode(bytes)) == Ok(Render(raw, sha256(sha256(bytes))))
  {
    var bytes := Serialize(raw) + trailing;
    Hex.DecodeEncode(bytes);
    DecodeSerialized(raw, trailing, HashRawTransaction(sha256, bytes));
  }
}
