/**
 * Bytes and the fixed-width unsigned integers of the wire format, and the
 * little-endian composition that `u16/u32/u64::from_le_bytes` perform.
 */
module Bytes {
  newtype byte = b: int | 0 <= b < 256

  type u32 = n: nat | n < 0x1_0000_0000
  type u64 = n: nat | n < 0x1_0000_0000_0000_0000

  function Pow256(n: nat): (p: nat)
    ensures p > 0
  {
    if n == 0 then 1 else 256 * Pow256(n - 1)
  }

  lemma Pow256Widths()
    ensures Pow256(1) == 0x100
    ensures Pow256(2) == 0x1_0000
    ensures Pow256(4) == 0x1_0000_0000
    ensures Pow256(8) == 0x1_0000_0000_0000_0000
  {
  }

  /** The zero-initialised buffer `[0; n]`. */
  function Zeros(n: nat): (z: seq<byte>)
    ensures |z| == n
    ensures forall i :: 0 <= i < n ==> z[i] == 0
  {
    seq(n, _ => 0)
  }

  /** Little-endian value of a byte string: the sum of bs[i] * 256^i. */
  function FromLE(bs: seq<byte>): (v: nat)
    ensures v < Pow256(|bs|)
  {
    if bs == [] then 0 else bs[0] as nat + 256 * FromLE(bs[1..])
  }

  /** The n least significant bytes of v, least significant first. */
  function ToLE(v: nat, n: nat): (bs: seq<byte>)
    ensures |bs| == n
  {
    if n == 0 then [] else [(v % 256) as byte] + ToLE(v / 256, n - 1)
  }

  /** The nonlinear rearrangement behind one step of `FromLEAppend`. */
  lemma ScaleSum(low: nat, high: nat, scale: nat)
    ensures 256 * (low + high * scale) == 256 * low + high * (256 * scale)
  {
  }

  /** Appending a byte adds it at the next, more significant, position. */
  lemma {:induction false} FromLEAppend(bs: seq<byte>, b: byte)
    ensures FromLE(bs + [b]) == FromLE(bs) + b as nat * Pow256(|bs|)
  {
    if bs != [] {
      var rest := bs[1..];
      assert (bs + [b])[1..] == rest + [b];
      FromLEAppend(rest, b);
      ScaleSum(FromLE(rest), b as nat, Pow256(|rest|));
    }
  }

  /** Trailing zero bytes do not change a little-endian value. */
  lemma {:induction false} FromLEZeroPadded(bs: seq<byte>, n: nat)
    ensures FromLE(bs + Zeros(n)) == FromLE(bs)
  {
    if n > 0 {
      assert Zeros(n) == Zeros(n - 1) + [0];
      assert bs + Zeros(n) == (bs + Zeros(n - 1)) + [0];
      FromLEAppend(bs + Zeros(n - 1), 0);
      FromLEZeroPadded(bs, n - 1);
    } else {
      assert bs + Zeros(n) == bs;
    }
  }

  lemma {:induction false} FromLEToLE(v: nat, n: nat)
    requires v < Pow256(n)
    ensures FromLE(ToLE(v, n)) == v
  {
    if n > 0 {
      FromLEToLE(v / 256, n - 1);
      assert ToLE(v, n)[1..] == ToLE(v / 256, n - 1);
    }
  }

  lemma {:induction false} ToLEFromLE(bs: seq<byte>)
    ensures ToLE(FromLE(bs), |bs|) == bs
  {
    if bs != [] {
      var v := FromLE(bs);
      assert v % 256 == bs[0] as nat && v / 256 == FromLE(bs[1..]);
      ToLEFromLE(bs[1..]);
    }
  }

  /** The byte strings of the unit tests in src/main.rs:160-177. */
  lemma LittleEndianVectors()
    ensures FromLE([0, 1]) == 256
    ensures FromLE([0, 0, 0, 1]) == 256 * 256 * 256
    ensures FromLE([0, 0, 0, 0, 0, 0, 0, 1]) == 256 * 256 * 256 * 256 * 256 * 256 * 256
    ensures FromLE([0x20, 0x4e]) == 20000
  {
  }
}
