/** Byte sequences: the staged copy of an object and the positional operations on it. */
module Bytes {

  newtype byte = x: int | 0 <= x < 0x100

  function Min(a: int, b: int): (m: int)
    ensures m <= a && m <= b && (m == a || m == b)
  {
    if a <= b then a else b
  }

  function Max(a: int, b: int): (m: int)
    ensures m >= a && m >= b && (m == a || m == b)
  {
    if a >= b then a else b
  }

  /** `n` zero bytes, as `make([]byte, n)` allocates them. */
  function Zeros(n: nat): (z: seq<byte>)
    ensures |z| == n
    ensures forall i :: 0 <= i < n ==> z[i] == 0
  {
    seq(n, _ => 0)
  }

  /** The bytes of an ASCII string literal, as `[]byte("...")` gives them. */
  function Ascii(s: string): (b: seq<byte>)
    requires forall i :: 0 <= i < |s| ==> s[i] as int < 0x80
    ensures |b| == |s|
    ensures forall i :: 0 <= i < |s| ==> b[i] as int == s[i] as int
  {
    seq(|s|, i requires 0 <= i < |s| && s[i] as int < 0x80 => s[i] as int as byte)
  }

  /**
   * The content of a staged copy `s` after the positional write of `p` at `off`:
   * the bytes at [off, off + |p|) are `p`, every other byte `s` already had is kept,
   * and the copy grows to cover the written range. Bytes of a gap between the old end
   * and `off` are filled by the staging filesystem (zeros here); no contract relies on them.
   */
  function Splice(s: seq<byte>, p: seq<byte>, off: nat): (r: seq<byte>)
    ensures |r| == Max(|s|, off + |p|)
    ensures r[off..off + |p|] == p
    ensures forall i :: 0 <= i < |s| && !(off <= i < off + |p|) ==> r[i] == s[i]
  {
    var base := if off <= |s| then s else s + Zeros(off - |s|);
    base[..off] + p + (if off + |p| <= |base| then base[off + |p|..] else [])
  }

  /**
   * The answer of a ranged read of `obj` for the half-open range [start, end): the bytes of
   * the object that lie inside the range, in order.
   */
  function Part(obj: seq<byte>, start: int, end: int): (r: seq<byte>)
    ensures |r| == Max(0, Min(end, |obj|) - Max(start, 0))
    ensures forall i :: 0 <= i < |r| ==> r[i] == obj[Max(start, 0) + i]
  {
    var lo := Min(Max(start, 0), |obj|);
    var hi := Max(Min(end, |obj|), lo);
    obj[lo..hi]
  }

  /** A write that starts at the end of the content appends to it (the append-mode write). */
  lemma SpliceAtEndAppends(s: seq<byte>, p: seq<byte>)
    ensures Splice(s, p, |s|) == s + p
  {
    var r := Splice(s, p, |s|);
    assert r[|s|..] == p;
    assert r[..|s|] == s;
    assert r == r[..|s|] + r[|s|..];
  }

  /** Reading back the written range of a staged copy returns exactly the bytes written. */
  lemma SpliceReadsBack(s: seq<byte>, p: seq<byte>, off: nat)
    ensures Part(Splice(s, p, off), off, off + |p|) == p
  {
    var r := Splice(s, p, off);
    assert Part(r, off, off + |p|) == r[off..off + |p|];
  }

  /** Writing the same bytes at the same place twice leaves what the first write left. */
  lemma SpliceIdempotent(s: seq<byte>, p: seq<byte>, off: nat)
    ensures Splice(Splice(s, p, off), p, off) == Splice(s, p, off)
  {
    var once := Splice(s, p, off);
    var twice := Splice(once, p, off);
    forall i | 0 <= i < |once|
      ensures twice[i] == once[i]
    {
      if off <= i < off + |p| {
        assert twice[i] == twice[off..off + |p|][i - off];
        assert once[i] == once[off..off + |p|][i - off];
      }
    }
  }

  /**
   * Two consecutive writes, the second starting where the first ended, leave the same
   * content as one write of both buffers (sequential Write calls compose), for writes
   * that start inside the content.
   */
  lemma SpliceComposes(s: seq<byte>, p: seq<byte>, q: seq<byte>, off: nat)
    requires off <= |s|
    ensures Splice(Splice(s, p, off), q, off + |p|) == Splice(s, p + q, off)
  {
    var first := Splice(s, p, off);
    var lhs := Splice(first, q, off + |p|);
    var rhs := Splice(s, p + q, off);
    assert |lhs| == |rhs|;
    forall i | 0 <= i < |lhs|
      ensures lhs[i] == rhs[i]
    {
      if off <= i < off + |p| {
        assert lhs[i] == first[i] == first[off..off + |p|][i - off] == p[i - off];
        assert rhs[i] == rhs[off..off + |p| + |q|][i - off] == (p + q)[i - off];
      } else if off + |p| <= i < off + |p| + |q| {
        assert lhs[i] == lhs[off + |p|..off + |p| + |q|][i - off - |p|] == q[i - off - |p|];
        assert rhs[i] == rhs[off..off + |p| + |q|][i - off] == (p + q)[i - off];
      } else {
        assert lhs[i] == first[i] == s[i];
      }
    }
  }

  /** Splicing "ABCD" into "abcdefg" at 2 gives "abABCDg". */
  lemma SpliceExampleAbcdefg()
    ensures Splice(Ascii("abcdefg"), Ascii("ABCD"), 2) == Ascii("abABCDg")
  {
    var r := Splice(Ascii("abcdefg"), Ascii("ABCD"), 2);
    var e := Ascii("abABCDg");
    assert r[2..6] == Ascii("ABCD");
    forall i | 0 <= i < 7 ensures r[i] == e[i] {
      if 2 <= i < 6 { assert r[i] == r[2..6][i - 2]; }
    }
  }

  /** Splicing "test" into "original content" at 8 gives "originaltesttent". */
  lemma SpliceExampleOriginalContent()
    ensures Splice(Ascii("original content"), Ascii("test"), 8) == Ascii("originaltesttent")
  {
    var r := Splice(Ascii("original content"), Ascii("test"), 8);
    var e := Ascii("originaltesttent");
    assert r[8..12] == Ascii("test");
    forall i | 0 <= i < 16 ensures r[i] == e[i] {
      if 8 <= i < 12 { assert r[i] == r[8..12][i - 8]; }
    }
  }
}
