/** The whence-to-offset arithmetic of Seek. */
module Seeking {
  import opened Errors

  // io.SeekStart, io.SeekCurrent, io.SeekEnd
  const SeekStart := 0
  const SeekCurrent := 1
  const SeekEnd := 2

  /**
   * The cursor Seek commits for a handle whose cursor is `cur` and whose file is `size`
   * bytes long: `offset` taken relative to the start, the cursor or the end. An unknown
   * whence is an error, and so is a target outside [0, size].
   */
  function ResolveSeek(cur: int, size: int, offset: int, whence: int): (r: Result<int>)
    ensures r.Ok? ==> 0 <= r.value <= size
    ensures whence == SeekStart ==> (r.Ok? <==> 0 <= offset <= size)
    ensures whence == SeekStart && r.Ok? ==> r.value == offset
    ensures whence != SeekStart && whence != SeekCurrent && whence != SeekEnd ==>
              r == Err(InvalidWhence(whence))
    ensures (whence == SeekStart || whence == SeekCurrent || whence == SeekEnd) && r.Err? ==>
              r.error == OutOfRange
  {
    var target :=
      if whence == SeekCurrent then Ok(cur + offset)
      else if whence == SeekStart then Ok(offset)
      else if whence == SeekEnd then Ok(size + offset)
      else Err(InvalidWhence(whence));
    match target
    case Err(e) => Err(e)
    case Ok(t) => if t < 0 || t > size then Err(OutOfRange) else Ok(t)
  }

  /**
   * The three origins name the same positions: absolute target `t` is reached as `t`
   * from the start, `t - cur` from the cursor and `t - size` from the end, with the
   * same outcome in all three.
   */
  lemma OriginsAgree(cur: int, size: int, t: int)
    ensures ResolveSeek(cur, size, t - cur, SeekCurrent) == ResolveSeek(cur, size, t, SeekStart)
    ensures ResolveSeek(cur, size, t - size, SeekEnd) == ResolveSeek(cur, size, t, SeekStart)
  {
  }

  /** Seeking 0 from the cursor reports the cursor when it lies within the file. */
  lemma SeekCurrentZeroIsTell(cur: int, size: int)
    requires 0 <= cur <= size
    ensures ResolveSeek(cur, size, 0, SeekCurrent) == Ok(cur)
  {
  }

  /** The seek cases of the handle's tests, for a file of 100 bytes and for one of `n`. */
  lemma SeekCases(n: nat)
    ensures ResolveSeek(0, 100, 101, SeekStart) == Err(OutOfRange)
    ensures ResolveSeek(0, 100, -1, SeekStart) == Err(OutOfRange)
    ensures ResolveSeek(0, 100, 50, SeekStart) == Ok(50)
    ensures ResolveSeek(0, 0, 0, 3) == Err(InvalidWhence(3))
    ensures ResolveSeek(20, 100, 30, SeekCurrent) == Ok(50)
    ensures ResolveSeek(0, 100, -10, SeekEnd) == Ok(90)
    ensures ResolveSeek(0, n, n + 1, SeekStart) == Err(OutOfRange)
    ensures 5 <= n ==> ResolveSeek(0, n, 0, SeekStart) == Ok(0) && ResolveSeek(0, n, 5, SeekCurrent) == Ok(5)
  {
  }
}
