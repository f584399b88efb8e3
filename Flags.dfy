/**
 * The open-flag classification of a file handle: which of read, write and append
 * a handle opened with a given flag may do.
 */
module Flags {

  // Go's os package flag values (Linux).
  const O_RDONLY := 0
  const O_WRONLY := 1
  const O_RDWR := 2
  const O_CREATE := 0x40
  const O_EXCL := 0x80
  const O_TRUNC := 0x200
  const O_APPEND := 0x400

  /**
   * The access mode of a flag as the handle computes it: the flag itself when it is at
   * most 2, otherwise `flag & 0x3`. For every non-negative flag this is its two low bits.
   */
  function AccessMode(flag: int): (m: int)
    ensures flag >= 0 ==> m == flag % 4
    ensures flag < 0 ==> m == flag
  {
    // `flag & 0x3` on the positive flags this branch sees
    if flag > 2 then flag % 4 else flag
  }

  /**
   * `flag & bit != 0` for a power of two `bit`, in two's complement: the bit is set
   * exactly when the flag's remainder modulo twice the bit is at least the bit.
   */
  predicate HasBit(flag: int, bit: nat): (b: bool)
    requires bit > 0
    ensures b <==> flag % (2 * bit) >= bit
  {
    var q, r := flag / (2 * bit), flag % (2 * bit);
    if r < bit then
      QuotientOf(flag, bit, 2 * q, r);
      RemainderOfTwo(flag / bit, q, 0);
      (flag / bit) % 2 == 1
    else
      QuotientOf(flag, bit, 2 * q + 1, r - bit);
      RemainderOfTwo(flag / bit, q, 1);
      (flag / bit) % 2 == 1
  }

  /**
   * isReadable: an open handle whose access mode is read-only or read-write. For a
   * non-negative flag that is an even pair of access bits; a negative flag never reads.
   */
  predicate Readable(flag: int, closed: bool): (r: bool)
    ensures flag >= 0 ==> (r <==> !closed && flag % 2 == 0)
    ensures flag < 0 ==> !r
  {
    if flag >= 0 then
      EvenAccessBits(flag);
      !closed && (AccessMode(flag) == O_RDONLY || AccessMode(flag) == O_RDWR)
    else
      !closed && (AccessMode(flag) == O_RDONLY || AccessMode(flag) == O_RDWR)
  }

  /**
   * isWriteable: an open handle whose access mode is write-only or read-write. For a
   * non-negative flag the access bits are 1 or 2, so 3 (O_WRONLY|O_RDWR) does not write;
   * a negative flag never writes.
   */
  predicate Writeable(flag: int, closed: bool): (w: bool)
    ensures flag >= 0 ==> (w <==> !closed && (flag % 4 == 1 || flag % 4 == 2))
    ensures flag < 0 ==> !w
  {
    !closed && (AccessMode(flag) == O_WRONLY || AccessMode(flag) == O_RDWR)
  }

  /** isAppendOnly: a writeable handle whose flag has the O_APPEND bit. */
  predicate AppendOnly(flag: int, closed: bool): (a: bool)
    ensures a ==> Writeable(flag, closed)
    ensures a <==> Writeable(flag, closed) && flag % 0x800 >= O_APPEND
  {
    Writeable(flag, closed) && HasBit(flag, O_APPEND)
  }

  /** The even flags are exactly those whose access bits are 0 or 2. */
  lemma EvenAccessBits(flag: int)
    requires flag >= 0
    ensures flag % 2 == 0 <==> flag % 4 == 0 || flag % 4 == 2
  {
    var q, m := flag / 4, flag % 4;
    assert flag == 4 * q + m;
    if m < 2 {
      RemainderOfTwo(flag, 2 * q, m);
    } else {
      RemainderOfTwo(flag, 2 * q + 1, m - 2);
    }
  }

  /** Division is unique: `x == d * k + m` with `0 <= m < d` makes `k` the quotient. */
  lemma QuotientOf(x: int, d: int, k: int, m: int)
    requires d > 0 && x == d * k + m && 0 <= m < d
    ensures x / d == k
  {
    var q, r := x / d, x % d;
    assert d * (k - q) == r - m;
    if k - q >= 1 {
      AtLeastOnce(d, k - q);
    } else if q - k >= 1 {
      AtLeastOnce(d, q - k);
    }
  }

  lemma {:induction false} AtLeastOnce(d: int, n: int)
    requires d > 0 && n >= 1
    ensures d * n >= d
    decreases n
  {
    if n > 1 {
      AtLeastOnce(d, n - 1);
      assert d * n == d * (n - 1) + d;
    }
  }

  lemma RemainderOfTwo(x: int, k: int, b: int)
    requires x == 2 * k + b && 0 <= b < 2
    ensures x % 2 == b
  {
  }

  lemma RemainderOfFour(x: int, k: int, b: int)
    requires x == 4 * k + b && 0 <= b < 4
    ensures x % 4 == b
  {
  }

  /**
   * Adding O_CREATE, O_EXCL, O_TRUNC, O_APPEND or any other bits above the access bits
   * to a flag changes neither readability nor writeability.
   */
  lemma {:induction false} HighBitsDoNotMatter(flag: int, extra: int, closed: bool)
    requires flag >= 0 && extra >= 0 && extra % 4 == 0
    ensures Readable(flag + extra, closed) == Readable(flag, closed)
    ensures Writeable(flag + extra, closed) == Writeable(flag, closed)
  {
    var k := extra / 4;
    assert extra == 4 * k;
    assert flag == 4 * (flag / 4) + flag % 4;
    RemainderOfFour(flag + extra, flag / 4 + k, flag % 4);
    EvenAccessBits(flag);
    EvenAccessBits(flag + extra);
  }

  /** A closed handle neither reads, writes nor appends, whatever its flag. */
  lemma ClosedHandleHasNoAccess(flag: int)
    ensures !Readable(flag, true) && !Writeable(flag, true) && !AppendOnly(flag, true)
  {
  }

  /** The flag combinations of the handle's readability and writeability tests. */
  lemma FlagTableCases()
    ensures !Readable(O_WRONLY, false) && !Readable(O_WRONLY + O_APPEND, false)
    ensures !Readable(O_WRONLY + O_CREATE, false) && !Readable(O_WRONLY + O_APPEND + O_EXCL, false)
    ensures Readable(O_RDONLY, false) && Readable(O_RDWR, false) && Readable(O_RDONLY + O_CREATE, false)
    ensures Readable(O_RDWR + O_CREATE + O_EXCL, false) && Readable(O_RDWR + O_APPEND, false)
    ensures Readable(O_APPEND, false) && Readable(O_EXCL + O_TRUNC, false)
    ensures Writeable(O_WRONLY, false) && Writeable(O_WRONLY + O_APPEND, false)
    ensures Writeable(O_WRONLY + O_CREATE, false) && Writeable(O_WRONLY + O_APPEND + O_EXCL, false)
    ensures Writeable(O_RDWR, false) && Writeable(O_RDWR + O_APPEND, false)
    ensures !Writeable(O_RDONLY, false) && !Writeable(O_RDONLY + O_CREATE, false)
    ensures !Writeable(O_RDONLY + O_CREATE + O_EXCL, false) && !Writeable(O_RDONLY + O_TRUNC, false)
    ensures AppendOnly(O_WRONLY + O_APPEND, false) && AppendOnly(O_RDWR + O_APPEND, false)
    ensures !AppendOnly(O_APPEND, false) && !AppendOnly(O_WRONLY, false)
  {
  }
}
