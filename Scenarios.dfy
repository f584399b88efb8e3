/**
 * Clients of the handle: sequences of calls whose outcome follows from the handle's
 * contracts alone, one per behaviour the handle promises across calls.
 */
module Scenarios {
  import opened Errors
  import opened Bytes
  import opened Flags
  import opened Names
  import opened OssFs

  /**
   * Writing bytes at offset 0 of an empty object through a clean writeable handle that
   * is not in append mode, then syncing, stores exactly those bytes under the handle's
   * key and nothing else.
   */
  method WriteAndSync(w: File, b: seq<byte>) returns (err: Option<Error>)
    requires w.Valid() && !w.isDir && !w.dirty
    requires Writeable(w.openFlag, w.closed) && !AppendOnly(w.openFlag, w.closed)
    requires w.name in w.fs.objects && w.fs.objects[w.name] == []
    modifies w, w.fs
    ensures w.Valid()
    ensures err.None?
    ensures w.fs.objects == old(w.fs.objects)[w.name := b]
  {
    assert w.PreloadError(NoFaults) == None;
    assert w.Content() == [];
    SpliceAtEndAppends([], b);
    var n, e := w.WriteAt(b, 0, NoFaults);
    assert e.None? && w.preloaded && w.staged == b;
    err := w.Sync(NoFaults);
  }

  /**
   * Writing bytes at offset 0 of an empty object through one handle, syncing, and reading
   * the range [0, |b|) through a second handle opened on the first one's name gives back
   * exactly those bytes.
   */
  method WriteSyncReadBack(w: File, b: seq<byte>) returns (got: seq<byte>, err: Option<Error>)
    requires w.Valid() && !w.isDir && !w.dirty
    requires Writeable(w.openFlag, w.closed) && !AppendOnly(w.openFlag, w.closed)
    requires w.name in w.fs.objects && w.fs.objects[w.name] == []
    modifies w, w.fs
    ensures w.Valid()
    ensures err.None? && got == b
    ensures w.fs.objects == old(w.fs.objects)[w.name := b]
  {
    var e := WriteAndSync(w, b);
    var r := new File(w.Name(), O_RDONLY, w.fs);
    assert r.name == w.name && r.fs == w.fs && !r.isDir && Readable(r.openFlag, r.closed);
    got, err := r.ReadAt(|b|, 0, NoFaults);
    assert Part(b, 0, |b|) == b;
  }

  /**
   * An append-mode handle writes after the object's last byte whatever its cursor, and
   * keeps its cursor: "this is original content" followed by "data".
   */
  method AppendWritesAtEnd(f: File, original: seq<byte>, data: seq<byte>) returns (n: int, err: Option<Error>)
    requires f.Valid() && !f.isDir && !f.dirty && AppendOnly(f.openFlag, f.closed)
    requires f.name in f.fs.objects && f.fs.objects[f.name] == original
    modifies f, f.fs
    ensures f.Valid()
    ensures err.None? && n == |data| && f.offset == old(f.offset)
    ensures f.fs.objects == old(f.fs.objects)[f.name := original + data]
  {
    n, err := f.Write(data, NoFaults);
    var e := f.Sync(NoFaults);
  }

  /** The original content of the append test, with its four appended bytes. */
  method AppendExample() returns (n: int, err: Option<Error>, stored: seq<byte>)
    ensures err.None? && n == 4
    ensures stored == Ascii("this is original content") + Ascii("data")
  {
    var original, data := Ascii("this is original content"), Ascii("data");
    var fs := new Fs(map["testfile" := original], {}, false);
    PlainNameCase();
    var f := new File("testfile", O_WRONLY + O_APPEND, fs);
    assert f.name == "testfile" && f.fs == fs && !f.isDir && !f.dirty;
    assert AppendOnly(f.openFlag, f.closed);
    n, err := AppendWritesAtEnd(f, original, data);
    stored := fs.objects["testfile"];
  }

  /**
   * A closed handle refuses Read, Write and Seek with EPERM, and closing it again
   * succeeds, leaves the store as it was and drops the name from the registry once more.
   */
  method ClosedHandleRefuses(f: File, count: nat, p: seq<byte>, off: int, whence: int)
    returns (readErr: Option<Error>, writeErr: Option<Error>, seekErr: Option<Error>, closeErr: Option<Error>)
    requires f.Valid() && f.closed
    modifies f, f.fs
    ensures f.Valid()
    ensures readErr == Some(EPERM) && writeErr == Some(EPERM) && seekErr == Some(EPERM)
    ensures closeErr.None? && f.closed
    ensures f.fs.objects == old(f.fs.objects)
    ensures f.fs.openedFiles == old(f.fs.openedFiles) - {f.name}
  {
    var data, n, pos;
    data, readErr := f.Read(count, NoFaults);
    n, writeErr := f.Write(p, NoFaults);
    pos, seekErr := f.Seek(off, whence, NoFaults);
    closeErr := f.Close(NoFaults);
  }

  /** A Close whose upload fails leaves the handle open, staged and registered. */
  method FailedSyncKeepsHandleOpen(f: File, code: nat) returns (err: Option<Error>)
    requires f.Valid() && f.dirty
    modifies f, f.fs
    ensures f.Valid()
    ensures err == Some(Io(code))
    ensures !f.closed && f.dirty && f.preloaded && f.staged == old(f.staged)
    ensures f.fs.openedFiles == old(f.fs.openedFiles) && f.fs.objects == old(f.fs.objects)
  {
    err := f.Close(Faults(None, None, Some(Io(code)), None));
  }

  /**
   * Two consecutive writes through a non-append handle stage the same bytes as one write
   * of both buffers, and leave the cursor after both. The first write stages the object
   * when the handle has no staged copy yet.
   */
  method ConsecutiveWrites(f: File, p: seq<byte>, q: seq<byte>) returns (err: Option<Error>)
    requires f.Valid() && Writeable(f.openFlag, f.closed) && !AppendOnly(f.openFlag, f.closed) && !f.isDir
    requires f.preloaded || f.name in f.fs.objects
    requires f.offset <= |f.Content()|
    modifies f, f.fs`objects
    ensures f.Valid()
    ensures err.None? && f.dirty && f.preloaded
    ensures f.staged == Splice(old(f.Content()), p + q, old(f.offset))
    ensures f.offset == old(f.offset) + |p| + |q|
  {
    var n1, e1 := f.Write(p, NoFaults);
    var n2, e2 := f.Write(q, NoFaults);
    SpliceComposes(old(f.Content()), p, q, old(f.offset));
    err := e2;
  }
}
