/**
 * The behaviour of the `hex` crate's `decode` and `encode` as the decoder
 * uses them: pairs of hexadecimal digits map to bytes, digits of either case
 * are accepted, and encoding produces lower-case digits.
 */
module Hex {
  import opened Wrappers
  import opened Bytes

  datatype HexError = OddLength | InvalidHexCharacter(c: char, index: nat)

  predicate IsHexDigit(c: char) {
    '0' <= c <= '9' || 'a' <= c <= 'f' || 'A' <= c <= 'F'
  }

  predicate IsLowerHexDigit(c: char) {
    '0' <= c <= '9' || 'a' <= c <= 'f'
  }

  function DigitValue(c: char): (v: nat)
    requires IsHexDigit(c)
    ensures v < 16
  {
    if '0' <= c <= '9' then c as int - '0' as int
    else if 'a' <= c <= 'f' then c as int - 'a' as int + 10
    else c as int - 'A' as int + 10
  }

  function LowerDigit(v: nat): (c: char)
    requires v < 16
    ensures IsLowerHexDigit(c) && IsHexDigit(c) && DigitValue(c) == v
  {
    if v < 10 then ('0' as int + v) as char else ('a' as int + v - 10) as char
  }

  /** The byte that the two digits at positions 2i and 2i+1 of s stand for. */
  function PairValue(s: string, i: nat): nat
    requires 2 * i + 1 < |s| && AllHexDigits(s)
  {
    16 * DigitValue(s[2 * i]) + DigitValue(s[2 * i + 1])
  }

  /** Behind a leading pair of digits, pair i + 1 is pair i of the rest. */
  lemma PairValuesShift(pair: string, rest: string)
    requires |pair| == 2 && AllHexDigits(pair) && AllHexDigits(rest)
    ensures AllHexDigits(pair + rest)
    ensures forall i :: 1 <= i && 2 * i + 1 < |pair + rest| ==> PairValue(pair + rest, i) == PairValue(rest, i - 1)
  {
    forall i | 1 <= i && 2 * i + 1 < |pair + rest|
      ensures PairValue(pair + rest, i) == PairValue(rest, i - 1)
    {
      assert (pair + rest)[2 * i] == rest[2 * (i - 1)];
      assert (pair + rest)[2 * i + 1] == rest[2 * (i - 1) + 1];
    }
  }

  /** `hex::encode`: two lower-case digits per byte, high nibble first. */
  function Encode(bs: seq<byte>): (s: string)
    ensures |s| == 2 * |bs|
    ensures forall k :: 0 <= k < |s| ==> IsLowerHexDigit(s[k])
    ensures AllHexDigits(s)
    ensures forall i :: 0 <= i < |bs| ==> PairValue(s, i) == bs[i] as nat
  {
    if bs == [] then ""
    else
      var s := [LowerDigit(bs[0] as nat / 16), LowerDigit(bs[0] as nat % 16)] + Encode(bs[1..]);
      PairValuesShift([LowerDigit(bs[0] as nat / 16), LowerDigit(bs[0] as nat % 16)], Encode(bs[1..]));
      s
  }

  /** `hex::decode`: an odd length is refused before any digit is examined. */
  function Decode(s: string): (r: Result<seq<byte>, HexError>)
    ensures r.Err? <==> |s| % 2 == 1 || !AllHexDigits(s)
    ensures r.Ok? ==> 2 * |r.value| == |s| && forall i :: 0 <= i < |r.value| ==> PairValue(s, i) == r.value[i] as nat
  {
    if |s| % 2 != 0 then Err(OddLength)
    else
      DecodeFromOk(s, 0);
      DecodeFrom(s, 0)
  }

  /** Decodes the digit pairs of s, which start at index offset of the whole input. */
  function DecodeFrom(s: string, offset: nat): (r: Result<seq<byte>, HexError>)
    requires |s| % 2 == 0
    decreases |s|
  {
    if s == [] then Ok([])
    else if !IsHexDigit(s[0]) then Err(InvalidHexCharacter(s[0], offset))
    else if !IsHexDigit(s[1]) then Err(InvalidHexCharacter(s[1], offset + 1))
    else
      match DecodeFrom(s[2..], offset + 2)
      case Err(e) => Err(e)
      case Ok(rest) => Ok([(16 * DigitValue(s[0]) + DigitValue(s[1])) as byte] + rest)
  }

  predicate AllHexDigits(s: string) {
    forall k :: 0 <= k < |s| ==> IsHexDigit(s[k])
  }

  lemma {:induction false} DecodeFromOk(s: string, offset: nat)
    requires |s| % 2 == 0
    ensures DecodeFrom(s, offset).Ok? <==> AllHexDigits(s)
    ensures DecodeFrom(s, offset).Ok? ==>
      var bs := DecodeFrom(s, offset).value;
      2 * |bs| == |s| && AllHexDigits(s) && forall i :: 0 <= i < |bs| ==> PairValue(s, i) == bs[i] as nat
    decreases |s|
  {
    if s != [] && IsHexDigit(s[0]) && IsHexDigit(s[1]) {
      DecodeFromOk(s[2..], offset + 2);
      var t := s[2..];
      assert forall k :: 2 <= k < |s| ==> s[k] == t[k - 2];
      if DecodeFrom(t, offset + 2).Ok? {
        var bs := DecodeFrom(s, offset).value;
        assert forall i :: 1 <= i < |bs| ==> PairValue(s, i) == PairValue(t, i - 1);
      }
    }
  }

  lemma {:induction false} DecodeFromError(s: string, offset: nat)
    requires |s| % 2 == 0
    ensures DecodeFrom(s, offset).Err? ==>
      match DecodeFrom(s, offset).error
      case OddLength => false
      case InvalidHexCharacter(c, index) =>
        offset <= index < offset + |s| && s[index - offset] == c && !IsHexDigit(c)
        && AllHexDigits(s[..index - offset])
    decreases |s|
  {
    if s != [] && IsHexDigit(s[0]) && IsHexDigit(s[1]) {
      DecodeFromError(s[2..], offset + 2);
      if DecodeFrom(s, offset).Err? {
        var index := DecodeFrom(s, offset).error.index;
        assert s[2..][..index - offset - 2] == s[2..index - offset];
      }
    }
  }

  /**
   * Decoding fails exactly on an odd length or a non-hex character; the
   * error names the first offending character and its index.
   */
  lemma DecodeFailsIff(s: string)
    ensures Decode(s).Err? <==> |s| % 2 == 1 || !AllHexDigits(s)
    ensures Decode(s) == Err(OddLength) <==> |s| % 2 == 1
    ensures Decode(s).Err? && |s| % 2 == 0 ==>
      match Decode(s).error
      case OddLength => false
      case InvalidHexCharacter(c, index) =>
        index < |s| && s[index] == c && !IsHexDigit(c) && AllHexDigits(s[..index])
  {
    if |s| % 2 == 0 {
      DecodeFromOk(s, 0);
      DecodeFromError(s, 0);
    }
  }

  /** Rendering bytes as hex and decoding the text gives the bytes back. */
  lemma {:induction false} DecodeEncode(bs: seq<byte>)
    ensures Decode(Encode(bs)) == Ok(bs)
  {
    var s := Encode(bs);
    DecodeFromOk(s, 0);
    assert |s| % 2 == 0 && Decode(s) == DecodeFrom(s, 0);
    var r := DecodeFrom(s, 0).value;
    assert |r| == |bs|;
    assert forall i :: 0 <= i < |bs| ==> r[i] as nat == PairValue(s, i) == bs[i] as nat;
    assert r == bs;
  }
}
