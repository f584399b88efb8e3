/**
 * The per-handle staging and write-back engine of the object-store filesystem.
 *
 * A `File` is an open handle on one object of an object store that can only fetch a
 * whole object, fetch a byte range, or replace a whole object. Reads go to the store;
 * the first write stages the whole object locally, later writes change the staged copy,
 * and Sync (or Close) uploads the staged copy as the new object.
 */
module OssFs {
  import opened Errors
  import opened Bytes
  import opened Flags
  import opened Seeking
  import opened Names

  /**
   * The failures the outside world injects into one call: of a metadata query to the
   * store, of a fetch from it (whole object or byte range), of an upload to it, and of
   * the local staging filesystem. `None` means that part of the call goes through.
   */
  datatype Faults = Faults(meta: Option<Error>, fetch: Option<Error>, upload: Option<Error>, staging: Option<Error>)

  const NoFaults := Faults(None, None, None, None)

  /** A directory entry as the store lists it. */
  datatype FileInfo = FileInfo(name: string, size: nat, isDir: bool)

  /**
   * The filesystem a handle belongs to: the objects of the bucket, the names of the
   * handles it has open, and whether every write is uploaded at once.
   */
  class Fs {
    var objects: map<string, seq<byte>>
    var openedFiles: set<string>
    const autoSync: bool

    constructor (objects: map<string, seq<byte>>, openedFiles: set<string>, autoSync: bool)
      ensures this.objects == objects && this.openedFiles == openedFiles && this.autoSync == autoSync
    {
      this.objects := objects;
      this.openedFiles := openedFiles;
      this.autoSync := autoSync;
    }
  }

  class File {
    const name: string
    const fs: Fs
    const openFlag: int
    const isDir: bool
    var offset: nat         // the cursor of Read and Write
    var dirty: bool         // the handle has written into its staged copy
    var closed: bool
    var preloaded: bool     // a staged copy exists
    var staged: seq<byte>   // the staged copy
    var stagedCursor: nat   // the staging file's own cursor

    /**
     * The handle invariant: staged exactly when dirty, never staged as a directory or
     * once closed, and a normalised name that ends in a separator exactly for a directory.
     */
    ghost predicate Valid()
      reads this
      ensures Valid() ==> (isDir || closed ==> !dirty)
    {
      && (dirty <==> preloaded)
      && (!preloaded ==> staged == [] && stagedCursor == 0)
      && (isDir ==> !preloaded)
      && (closed ==> !preloaded)
      && NoLeadingSeparator(name)
      && isDir == IsDirName(name)
    }

    /** NewOssFile: a fresh handle on the normalised name, at offset 0, clean, open and not staged. */
    constructor (rawName: string, flag: int, fs: Fs)
      ensures Valid()
      ensures name == NormFileName(rawName) && isDir == IsDirName(name)
      ensures name != [] ==> (isDir <==> IsDirName(rawName))
      ensures this.fs == fs && openFlag == flag
      ensures offset == 0 && !dirty && !closed && !preloaded && staged == []
    {
      name := NormFileName(rawName);
      this.fs := fs;
      openFlag := flag;
      isDir := IsDirName(NormFileName(rawName));
      if NormFileName(rawName) != [] {
        NormFileNameKeepsDirMarker(rawName);
      }
      offset := 0;
      dirty := false;
      closed := false;
      preloaded := false;
      staged := [];
      stagedCursor := 0;
    }

    /** The handle's name: an object key without leading separator, ending in one exactly for a directory. */
    function Name(): (r: string)
      requires Valid()
      reads this
      ensures NoLeadingSeparator(r)
      ensures IsDirName(r) == isDir
      ensures NormFileName(r) == r
    {
      name
    }

    /**
     * The bytes the handle's next write starts from: the staged copy once there is one,
     * otherwise the remote object (nothing when there is none).
     */
    ghost function Content(): (c: seq<byte>)
      reads this, fs
      ensures Valid() && !dirty ==> c == if name in fs.objects then fs.objects[name] else []
    {
      if preloaded then staged else if name in fs.objects then fs.objects[name] else []
    }

    /**
     * The size getFileInfo (and so Stat) reports: the staged copy's when dirty, otherwise
     * the remote object's metadata.
     */
    function Stat(faults: Faults): (r: Result<nat>)
      reads this, fs
      ensures Valid() && r.Ok? ==> r.value == |Content()|
      ensures r.Ok? <==> if dirty then preloaded else faults.meta.None? && name in fs.objects
      ensures r.Err? && dirty ==> r.error == EACCES
      ensures r.Err? && !dirty ==> r.error == if faults.meta.Some? then faults.meta.value else NotFound
    {
      if dirty then
        if !preloaded then Err(EACCES) else Ok(|staged|)
      else if faults.meta.Some? then Err(faults.meta.value)
      else if name !in fs.objects then Err(NotFound)
      else Ok(|fs.objects[name]|)
    }

    /** ReadAt: `count` is len(p); `data` is what lands in p, so n == |data|. */
    method ReadAt(count: nat, off: int, faults: Faults) returns (data: seq<byte>, err: Option<Error>)
      ensures |data| <= count
      ensures err.Some? ==> data == []
      ensures !Readable(openFlag, closed) || isDir ==> err == Some(EPERM)
      ensures Readable(openFlag, closed) && !isDir && faults.fetch.Some? ==> err == faults.fetch
      ensures Readable(openFlag, closed) && !isDir && faults.fetch.None? && name !in fs.objects ==>
                err == Some(NotFound)
      ensures Readable(openFlag, closed) && !isDir && faults.fetch.None? && name in fs.objects ==>
                data == Part(fs.objects[name], off, off + count)
                && (err.Some? <==> count > 0 && data == [])
                && (err.Some? ==> err == Some(EOF))
      ensures err.None? ==> name in fs.objects && data == Part(fs.objects[name], off, off + count)
    {
      if !Readable(openFlag, closed) || isDir {
        return [], Some(EPERM);
      }
      if faults.fetch.Some? {
        return [], faults.fetch;
      }
      if name !in fs.objects {
        return [], Some(NotFound);
      }
      // the store answers the range [off, off + count); one read of it fills p
      data := Part(fs.objects[name], off, off + count);
      if count > 0 && data == [] {
        return [], Some(EOF);
      }
      err := None;
    }

    /** Read: ReadAt at the cursor, then the cursor moves past the bytes read. */
    method Read(count: nat, faults: Faults) returns (data: seq<byte>, err: Option<Error>)
      requires Valid()
      modifies this`offset
      ensures Valid()
      ensures !Readable(openFlag, closed) || isDir ==> err == Some(EPERM)
      ensures Readable(openFlag, closed) && !isDir && faults.fetch.Some? ==> err == faults.fetch
      ensures Readable(openFlag, closed) && !isDir && faults.fetch.None? && name !in fs.objects ==>
                err == Some(NotFound)
      ensures err.Some? ==> data == [] && offset == old(offset)
      ensures err.None? ==>
                && name in fs.objects
                && data == Part(fs.objects[name], old(offset), old(offset) + count)
                && offset == old(offset) + |data|
      ensures Readable(openFlag, closed) && !isDir && faults.fetch.None? && name in fs.objects ==>
                && (err.None? <==> count == 0 || Part(fs.objects[name], old(offset), old(offset) + count) != [])
                && (err.Some? ==> err == Some(EOF))
    {
      if !Readable(openFlag, closed) || isDir {
        return [], Some(EPERM);
      }
      data, err := ReadAt(count, offset, faults);
      if err.Some? {
        return;
      }
      offset := offset + |data|;
    }

    /** Seek: resolve the target against the size Stat reports and commit it when it is in range. */
    method Seek(off: int, whence: int, faults: Faults) returns (pos: int, err: Option<Error>)
      requires Valid()
      modifies this`offset
      ensures Valid()
      ensures (!Readable(openFlag, closed) && !Writeable(openFlag, closed)) || isDir ==> err == Some(EPERM)
      ensures err.Some? ==> pos == 0 && offset == old(offset)
      ensures err.None? ==>
                && old(Stat(faults)).Ok?
                && ResolveSeek(old(offset), old(Stat(faults)).value, off, whence) == Ok(pos)
                && offset == pos
      ensures (Readable(openFlag, closed) || Writeable(openFlag, closed)) && !isDir ==>
                match old(Stat(faults))
                case Err(e) => err == Some(e)
                case Ok(size) =>
                  match ResolveSeek(old(offset), size, off, whence)
                  case Err(e) => err == Some(e)
                  case Ok(_) => err.None?
    {
      if (!Readable(openFlag, closed) && !Writeable(openFlag, closed)) || isDir {
        return 0, Some(EPERM);
      }
      var fi := Stat(faults);
      if fi.Err? {
        return 0, Some(fi.error);
      }
      var target := ResolveSeek(offset, fi.value, off, whence);
      if target.Err? {
        return 0, Some(target.error);
      }
      offset := target.value;
      return offset, None;
    }

    /** The calls that change nothing of the handle's staging state nor the store. */
    twostate predicate Untouched()
      reads this, fs
    {
      && dirty == old(dirty) && preloaded == old(preloaded)
      && staged == old(staged) && stagedCursor == old(stagedCursor)
      && closed == old(closed)
      && fs.objects == old(fs.objects)
    }

    /**
     * The error of staging the object: of the local staging filesystem, of fetching the
     * object, or the object being absent.
     */
    function PreloadError(faults: Faults): (e: Option<Error>)
      reads this, fs
      ensures e.None? <==> faults.staging.None? && faults.fetch.None? && name in fs.objects
      ensures e.Some? && faults.staging.None? && faults.fetch.None? ==> e == Some(NotFound)
    {
      if faults.staging.Some? then faults.staging
      else if faults.fetch.Some? then faults.fetch
      else if name !in fs.objects then Some(NotFound)
      else None
    }

    /** preload: stage a copy of the whole remote object, its cursor at the handle's offset. */
    method Preload(faults: Faults) returns (err: Option<Error>)
      requires Valid() && !preloaded && !isDir && !closed
      modifies this`preloaded, this`staged, this`stagedCursor
      ensures err == PreloadError(faults)
      ensures err.Some? ==> !preloaded && staged == old(staged) && stagedCursor == old(stagedCursor)
      ensures err.None? ==>
                && preloaded && name in fs.objects
                && staged == fs.objects[name] && stagedCursor == offset
    {
      err := PreloadError(faults);
      if err.Some? {
        return;
      }
      staged := fs.objects[name];
      stagedCursor := offset;
      preloaded := true;
    }

    /**
     * The effect of the staged write of `p` at `off` (doWriteAt): a directory is refused,
     * a failed staging leaves everything as it was, and otherwise the staged copy has `p`
     * spliced in at `off`, the handle is dirty, and with auto-sync the store holds the
     * staged copy unless its upload failed (that failure is not reported).
     */
    twostate predicate StagedWrite(p: seq<byte>, off: nat, faults: Faults, n: int, new err: Option<Error>)
      reads this, fs
    {
      && closed == old(closed)
      && err == (if isDir then Some(EPERM) else if old(preloaded) then None else old(PreloadError(faults)))
      && (err.Some? ==> n == 0 && Untouched())
      && (err.None? ==>
            && n == |p| && dirty && preloaded
            && staged == Splice(old(Content()), p, off)
            && fs.objects == (if fs.autoSync && faults.upload.None? then old(fs.objects)[name := staged]
                              else old(fs.objects))
            && stagedCursor == (if fs.autoSync && faults.upload.Some? then 0
                                else if old(preloaded) then old(stagedCursor) else old(offset)))
    }

    /** doWriteAt, which its callers reach only on an open handle, at a non-negative offset. */
    method DoWriteAt(p: seq<byte>, off: nat, faults: Faults) returns (n: int, err: Option<Error>)
      requires Valid() && !closed
      modifies this, fs`objects
      ensures Valid()
      ensures offset == old(offset)
      ensures StagedWrite(p, off, faults, n, err)
    {
      if isDir {
        return 0, Some(EPERM);
      }
      if !preloaded {
        err := Preload(faults);
        if err.Some? {
          return 0, err;
        }
      }
      staged := Splice(staged, p, off);
      n := |p|;
      dirty := true;
      if fs.autoSync {
        var ignored := Sync(faults);
      }
      err := None;
    }

    /**
     * The effect of Write: refused unless writeable; in append mode the bytes go at the
     * size Stat reports and the cursor stays; otherwise they go at the cursor, which
     * moves past them.
     */
    twostate predicate WriteOutcome(p: seq<byte>, faults: Faults, n: int, new err: Option<Error>)
      reads this, fs
    {
      if !Writeable(openFlag, old(closed)) then
        n == 0 && err == Some(EPERM) && Untouched() && offset == old(offset)
      else if AppendOnly(openFlag, old(closed)) then
        && offset == old(offset)
        && match old(Stat(faults))
           case Err(e) => n == 0 && err == Some(e) && Untouched()
           case Ok(size) => StagedWrite(p, size, faults, n, err)
      else
        StagedWrite(p, old(offset), faults, n, err) && offset == old(offset) + n
    }

    method Write(p: seq<byte>, faults: Faults) returns (n: int, err: Option<Error>)
      requires Valid()
      modifies this, fs`objects
      ensures Valid()
      ensures WriteOutcome(p, faults, n, err)
      ensures err.Some? ==> n == 0 && offset == old(offset)
      ensures err.None? ==> n == |p| && dirty && preloaded
      ensures err.None? && AppendOnly(openFlag, old(closed)) ==>
                staged == old(Content()) + p && offset == old(offset)
      ensures err.None? && !AppendOnly(openFlag, old(closed)) ==>
                staged == Splice(old(Content()), p, old(offset)) && offset == old(offset) + |p|
    {
      if !Writeable(openFlag, closed) {
        return 0, Some(EPERM);
      }
      if AppendOnly(openFlag, closed) {
        var fi := Stat(faults);
        if fi.Err? {
          return 0, Some(fi.error);
        }
        SpliceAtEndAppends(Content(), p);
        n, err := DoWriteAt(p, fi.value, faults);
        return;
      }
      n, err := DoWriteAt(p, offset, faults);
      if err.Some? {
        return 0, err;
      }
      offset := offset + n;
    }

    /** WriteAt: positional write, refused in append mode and at a negative offset. */
    method WriteAt(p: seq<byte>, off: int, faults: Faults) returns (n: int, err: Option<Error>)
      requires Valid()
      modifies this, fs`objects
      ensures Valid()
      ensures offset == old(offset)
      ensures !Writeable(openFlag, old(closed)) || AppendOnly(openFlag, old(closed)) ==>
                n == 0 && err == Some(EPERM) && Untouched()
      ensures Writeable(openFlag, old(closed)) && !AppendOnly(openFlag, old(closed)) && off < 0 ==>
                n == 0 && err == Some(ERANGE) && Untouched()
      ensures Writeable(openFlag, old(closed)) && !AppendOnly(openFlag, old(closed)) && off >= 0 ==>
                StagedWrite(p, off, faults, n, err)
    {
      if !Writeable(openFlag, closed) || AppendOnly(openFlag, closed) {
        return 0, Some(EPERM);
      }
      if off < 0 {
        return 0, Some(ERANGE);
      }
      n, err := DoWriteAt(p, off, faults);
    }

    /** WriteString: a Go string is a byte sequence, written as Write writes it. */
    method WriteString(s: seq<byte>, faults: Faults) returns (n: int, err: Option<Error>)
      requires Valid()
      modifies this, fs`objects
      ensures Valid()
      ensures WriteOutcome(s, faults, n, err)
    {
      n, err := Write(s, faults);
    }

    /**
     * Sync: with a staged copy, upload all of it as the object and put the staging cursor
     * back; without one, nothing. `dirty` is left as it is.
     */
    method Sync(faults: Faults) returns (err: Option<Error>)
      requires Valid()
      modifies this`stagedCursor, fs`objects
      ensures Valid()
      ensures !preloaded ==> err.None? && fs.objects == old(fs.objects) && stagedCursor == old(stagedCursor)
      ensures preloaded ==> err == faults.upload
      ensures preloaded && err.None? ==>
                fs.objects == old(fs.objects)[name := staged] && stagedCursor == old(stagedCursor)
      ensures preloaded && err.Some? ==> fs.objects == old(fs.objects) && stagedCursor == 0
    {
      if preloaded {
        var cursor := stagedCursor;
        stagedCursor := 0;
        if faults.upload.Some? {
          return faults.upload;
        }
        fs.objects := fs.objects[name := staged];
        stagedCursor := cursor;
      }
      return None;
    }

    /**
     * Close: Sync first and give up if it fails; then leave the open-files registry, drop
     * the staged copy and end the handle.
     */
    method Close(faults: Faults) returns (err: Option<Error>)
      requires Valid()
      modifies this, fs
      ensures Valid()
      ensures offset == old(offset)
      ensures err.None? <==> !old(preloaded) || (faults.upload.None? && faults.staging.None?)
      // a failed upload fails the Close before anything else changes
      ensures old(preloaded) && faults.upload.Some? ==>
                && err == faults.upload && !closed && dirty && preloaded && staged == old(staged)
                && stagedCursor == 0
                && fs.objects == old(fs.objects) && fs.openedFiles == old(fs.openedFiles)
      // otherwise the name leaves the registry and the store holds the staged copy
      ensures !(old(preloaded) && faults.upload.Some?) ==>
                && fs.openedFiles == old(fs.openedFiles) - {name}
                && fs.objects == if old(preloaded) then old(fs.objects)[name := old(staged)] else old(fs.objects)
      // dropping the staged copy can still fail, which leaves the handle open and staged
      ensures old(preloaded) && faults.upload.None? && faults.staging.Some? ==>
                && err == faults.staging && !closed && dirty && preloaded && staged == old(staged)
                && stagedCursor == old(stagedCursor)
      ensures err.None? ==> closed && !dirty && !preloaded && staged == [] && stagedCursor == 0
    {
      err := Sync(faults);
      if err.Some? {
        return;
      }
      fs.openedFiles := fs.openedFiles - {name};
      if preloaded {
        if faults.staging.Some? {
          return faults.staging;
        }
        staged := [];
        stagedCursor := 0;
        preloaded := false;
      }
      dirty := false;
      closed := true;
    }

    /**
     * Truncate: `size` zero bytes written through Write, at the cursor or, in append mode,
     * at the end; it never makes the content shorter.
     */
    method Truncate(size: nat, faults: Faults) returns (err: Option<Error>)
      requires Valid()
      modifies this, fs`objects
      ensures Valid()
      ensures !Writeable(openFlag, old(closed)) || isDir ==>
                err == Some(EPERM) && Untouched() && offset == old(offset)
      ensures Writeable(openFlag, old(closed)) && !isDir ==>
                WriteOutcome(Zeros(size), faults, if err.None? then size else 0, err)
      ensures err.None? ==> |staged| >= |old(Content())| && |staged| >= size
    {
      if !Writeable(openFlag, closed) || isDir {
        return Some(EPERM);
      }
      var n;
      n, err := Write(Zeros(size), faults);
    }

    /** Readdir: the store's listing of the directory (`listing`), for a readable directory handle. */
    method Readdir(count: int, listing: Result<seq<FileInfo>>) returns (entries: seq<FileInfo>, err: Option<Error>)
      ensures !Readable(openFlag, closed) || !isDir ==> entries == [] && err == Some(EPERM)
      ensures Readable(openFlag, closed) && isDir ==>
                match listing
                case Ok(fis) => entries == fis && err.None?
                case Err(e) => entries == [] && err == Some(e)
    {
      if !Readable(openFlag, closed) || !isDir {
        return [], Some(EPERM);
      }
      match listing
      case Ok(fis) => entries, err := fis, None;
      case Err(e) => entries, err := [], Some(e);
    }

    /** Readdirnames: the names of Readdir's entries, in listing order. */
    method Readdirnames(count: int, listing: Result<seq<FileInfo>>) returns (names: seq<string>, err: Option<Error>)
      ensures !Readable(openFlag, closed) || !isDir ==> names == [] && err == Some(EPERM)
      ensures Readable(openFlag, closed) && isDir ==> (err.None? <==> listing.Ok?)
      ensures Readable(openFlag, closed) && isDir && listing.Err? ==> err == Some(listing.error)
      ensures err.Some? ==> names == []
      ensures err.None? ==>
                && listing.Ok? && |names| == |listing.value|
                && forall i :: 0 <= i < |names| ==> names[i] == listing.value[i].name
    {
      if !Readable(openFlag, closed) || !isDir {
        return [], Some(EPERM);
      }
      var fis;
      fis, err := Readdir(count, listing);
      if err.Some? {
        return [], err;
      }
      names := [];
      for i := 0 to |fis|
        invariant |names| == i
        invariant forall k :: 0 <= k < i ==> names[k] == fis[k].name
      {
        names := names + [fis[i].name];
      }
    }
  }
}
