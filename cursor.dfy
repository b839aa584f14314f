/**
 * The byte cursor: a slice `&mut &[u8]` that every reader advances in place.
 * `Read::read` on a slice copies min(n, remaining) bytes into the caller's
 * zero-initialised buffer and never fails, so a short read leaves zeros.
 */
module ByteCursor {
  import opened Wrappers
  import opened Bytes

  /** A value read and the cursor position just after it. */
  datatype Step<T> = Step(value: T, next: nat)

  /** The byte at index i, or 0 past the end of the buffer. */
  function ByteAt(buf: seq<byte>, i: int): byte {
    if 0 <= i < |buf| then buf[i] else 0
  }

  /** How many of n requested bytes a read at pos can copy. */
  function Taken(buf: seq<byte>, pos: nat, n: nat): (k: nat)
    requires pos <= |buf|
    ensures k <= n && pos + k <= |buf|
    ensures k == n || pos + k == |buf|
  {
    if n <= |buf| - pos then n else |buf| - pos
  }

  /**
   * A read of n bytes at pos into a zeroed buffer: the available bytes, then
   * zeros; the cursor moves past the bytes copied and never past the end.
   */
  function ReadAt(buf: seq<byte>, pos: nat, n: nat): (r: Step<seq<byte>>)
    requires pos <= |buf|
    ensures |r.value| == n
    ensures pos <= r.next <= |buf|
    ensures r.next == pos + n || (r.next == |buf| && |buf| < pos + n)
  {
    Step(seq(n, i => ByteAt(buf, pos + i)), pos + Taken(buf, pos, n))
  }

  /** Byte i of a read is the buffer's byte at pos + i, or 0 past its end. */
  lemma ReadAtByte(buf: seq<byte>, pos: nat, n: nat, i: nat)
    requires pos <= |buf| && i < n
    ensures ReadAt(buf, pos, n).value[i] == if pos + i < |buf| then buf[pos + i] else 0
  {
    assert ReadAt(buf, pos, n).value[i] == ByteAt(buf, pos + i);
  }

  /** A read at the end of the buffer yields zeros and consumes nothing. */
  lemma ReadAtEnd(buf: seq<byte>, n: nat)
    ensures ReadAt(buf, |buf|, n) == Step(Zeros(n), |buf|)
  {
    forall i | 0 <= i < n
      ensures ReadAt(buf, |buf|, n).value[i] == Zeros(n)[i]
    {
      ReadAtByte(buf, |buf|, n, i);
    }
    assert ReadAt(buf, |buf|, n).value == Zeros(n);
  }

  /** The strict alternative, `read_exact`: a short read is an error. */
  datatype ReadError = InsufficientData(offset: nat, needed: nat, available: nat)

  function ExactRead(buf: seq<byte>, pos: nat, n: nat): (r: Result<Step<seq<byte>>, ReadError>)
    requires pos <= |buf|
  {
    if n <= |buf| - pos then Ok(Step(buf[pos..pos + n], pos + n))
    else Err(InsufficientData(pos, n, |buf| - pos))
  }

  /**
   * The strict read fails exactly when the slice read would zero-pad, and
   * otherwise both reads agree.
   */
  lemma ExactReadAgrees(buf: seq<byte>, pos: nat, n: nat)
    requires pos <= |buf|
    ensures ExactRead(buf, pos, n).Err? <==> Taken(buf, pos, n) < n
    ensures ExactRead(buf, pos, n).Ok? ==> ExactRead(buf, pos, n).value == ReadAt(buf, pos, n)
  {
    if n <= |buf| - pos {
      forall i | 0 <= i < n
        ensures ReadAt(buf, pos, n).value[i] == buf[pos..pos + n][i]
      {
        ReadAtByte(buf, pos, n, i);
      }
      assert ReadAt(buf, pos, n).value == buf[pos..pos + n];
    }
  }

  /** The slice being read: the whole buffer and the index of its first unread byte. */
  class Cursor {
    const buf: seq<byte>
    var pos: nat

    ghost predicate Valid()
      reads this
    {
      pos <= |buf|
    }

    constructor (bytes: seq<byte>)
      ensures buf == bytes && pos == 0 && Valid()
    {
      buf := bytes;
      pos := 0;
    }

    /** `Read::read` for a slice: fills a prefix of dst and advances past it. */
    method Read(dst: array<byte>) returns (k: nat)
      requires Valid()
      modifies this, dst
      ensures Valid()
      ensures k == Taken(buf, old(pos), dst.Length) && pos == old(pos) + k
      ensures dst[..] == buf[old(pos)..pos] + old(dst[k..])
      ensures old(dst[..]) == Zeros(dst.Length) ==> Step(dst[..], pos) == ReadAt(buf, old(pos), dst.Length)
    {
      k := if dst.Length <= |buf| - pos then dst.Length else |buf| - pos;
      forall i | 0 <= i < k {
        dst[i] := buf[pos + i];
      }
      pos := pos + k;
      assert old(dst[k..]) == dst[k..];
      assert dst[..] == dst[..k] + dst[k..];
      if old(dst[..]) == Zeros(dst.Length) {
        forall i | 0 <= i < dst.Length
          ensures dst[i] == ReadAt(buf, old(pos), dst.Length).value[i]
        {
          ReadAtByte(buf, old(pos), dst.Length, i);
        }
        assert dst[..] == ReadAt(buf, old(pos), dst.Length).value;
      }
    }
  }
}
