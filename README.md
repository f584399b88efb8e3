# Object-store file handle: staging and write-back

This project models the file handle of an afero filesystem backed by an object-storage
bucket (`file.go`). The bucket can only fetch a whole object, fetch a byte range of one,
or replace a whole object. The handle emulates random-access file semantics on top of that:

- reads go straight to the store as ranged fetches;
- the first write stages a local copy of the whole object, and every write is spliced into that copy;
- `Sync`, and `Close` through it, upload the staged copy as the new object.

The model follows the Go code. It is split into these modules:

- `Errors`: the handle's error values (`EPERM`, `EACCES`, `ERANGE`, `ErrOutOfRange`, the
  invalid-whence error, not-found, `io.EOF`, and opaque I/O failures), `Option` and `Result`.
- `Flags`: the open-flag constants and the `isReadable` / `isWriteable` / `isAppendOnly` predicates.
- `Seeking`: how Seek resolves start, current and end to an absolute cursor.
- `Bytes`: the staged copy as a byte sequence, the positional write (`Splice`) and the
  ranged read (`Part`).
- `Names`: name normalisation and the directory test. These two are called by the handle
  but defined in the filesystem facade, which is not part of this model.
- `OssFs`: the `File` class and the `Fs` object it belongs to.
  - `File` holds the open flag, cursor, `dirty`, `closed`, `preloaded`, and the staged
    copy with its own cursor. Its methods update these fields in place.
  - `Fs` holds the bucket as a `map` from object key to bytes, the keys of its open
    handles, and the auto-sync switch.
- `Scenarios`: client methods that chain calls, such as write, sync and read back;
  append; and operations after close.

The outside world enters each call as a `Faults` value. It says whether that call's
metadata query to the store, its fetch from the store, its upload, or its local staging
step fails, and with what error.
An object missing from the map is reported as not found.

The object invariant `File.Valid` is kept by every method. It says:

- a dirty handle is staged, and a staged handle is dirty;
- a directory handle and a closed handle are never staged;
- the name carries no leading separator, and the name ends in one exactly when the handle is a directory.

The first point is stronger than `dirty ⇒ preloaded`: the staged write sets `dirty` right
after a successful staging, and only `Close` clears either flag.

Quirks of the code are modelled as written:

- `Sync` never clears `dirty`.
- The outcome of the auto-sync after a write is discarded.
- An append-mode `Write` leaves the cursor where it was.
- `Read` and `ReadAt` read the remote object even when the handle holds unsynced writes,
  while `Stat` then reports the staged size.
- `Truncate` writes `size` zero bytes through `Write` and never makes the content shorter.
  Those bytes go at the cursor, or at the end in append mode, not at offset 0.
- `Sync` uploads whenever a staged copy exists, whether or not the handle is dirty.
  Under the invariant above the two are the same.
- A negative `WriteAt` offset is `ERANGE`.
- If removing the staged copy fails, `Close` returns that error after the name has already
  left the open-files registry, and the handle stays open and staged.
- A second `Close` succeeds, and it removes the name from the registry again.

## Model

| member | source | states |
|---|---|---|
| `Flags.AccessMode` | file.go:96-99 | the access mode is the flag itself up to 2 and `flag & 0x3` above, so for every non-negative flag it is the two low bits |
| `Flags.HasBit` | file.go:117 | `flag & bit != 0` holds exactly when the flag's remainder modulo twice the bit is at least the bit |
| `Flags.Readable` | file.go:92-101 | for a non-negative flag, readable iff the handle is open and the access bits are even (0 or 2); a negative flag never reads |
| `Flags.Writeable` | file.go:104-113 | for a non-negative flag, writeable iff the handle is open and the access bits are 1 or 2, so 3 does not write; a negative flag never writes |
| `Flags.AppendOnly` | file.go:116-118 | append-only implies writeable, and is exactly writeable with the `O_APPEND` bit (0x400) set |
| `Flags.HighBitsDoNotMatter` | file.go:92-113 | adding create, exclusive, truncate, append or any higher bits changes neither readability nor writeability |
| `Flags.ClosedHandleHasNoAccess` | file.go:92-118 | a closed handle is neither readable, writeable nor append-only, whatever its flag |
| `Flags.FlagTableCases` | file_test.go:85-170 | every flag combination of the readability and writeability tests is classified as the tests expect |
| `Seeking.ResolveSeek` | file.go:162-178 | the committed cursor lies in [0, size]; from the start it is the offset exactly when that is in range; an unknown whence is the invalid-whence error; otherwise the only error is out-of-range |
| `Seeking.OriginsAgree` | file.go:164-173 | target t is reached, with the same outcome, as t from the start, t - cur from the cursor and t - size from the end |
| `Seeking.SeekCurrentZeroIsTell` | file.go:165-166 | seeking 0 from the cursor returns the cursor when it is within the file |
| `Seeking.SeekCases` | file_test.go:306-396 | 101 and -1 from the start of a 100-byte file are out of range, 50 lands at 50, whence 3 is invalid, 30 from cursor 20 gives 50, -10 from the end gives 90 |
| `Names.NormFileName` | file.go:36 | the key has no leading separator, is a suffix of the name, and everything removed is separators |
| `Names.IsDirName` | file.go:42 | a name is a directory name exactly when it is some stem followed by the separator |
| `Names.NormFileNameKeepsDirMarker` | file.go:36-42 | normalisation keeps the trailing-separator directory marker of every name it does not empty, so the handle's directory flag agrees with the name it was opened with |
| `Names.NameCases` | file_test.go:63-82 | "/path/testfile" becomes "path/testfile"; "testdir/" is kept and is a directory; "testfile" is not |
| `Bytes.Zeros` | file.go:323 | `make([]byte, size)` is `size` zero bytes |
| `Bytes.Splice` | file.go:218 | after a positional write of p at off, bytes [off, off+\|p\|) are p, every other existing byte is unchanged, and the length is max(old length, off+\|p\|) |
| `Bytes.Part` | file.go:141-146 | a ranged read of [start, end) returns the object's bytes inside the range, in order, starting at max(start, 0) |
| `Bytes.SpliceAtEndAppends` | file.go:190-196 | a write at the current size appends: Splice(s, p, \|s\|) == s + p |
| `Bytes.SpliceReadsBack` | file.go:218 | reading back the written range returns exactly the bytes written |
| `Bytes.SpliceIdempotent` | file.go:218 | repeating the same write at the same offset changes nothing more |
| `Bytes.SpliceComposes` | file.go:198-203 | for a first write that starts inside the content, two consecutive writes, the second starting where the first ended, equal one write of both buffers |
| `Bytes.SpliceExampleAbcdefg` | file_test.go:470-496 | "ABCD" written at 2 into "abcdefg" gives "abABCDg" |
| `Bytes.SpliceExampleOriginalContent` | file_test.go:650-677 | "test" written at 8 into "original content" gives "originaltesttent" |
| `OssFs.Fs.constructor` | file.go:220-250 | the filesystem a handle belongs to holds the bucket's objects by key, the names of its open handles and the auto-sync switch, as given |
| `OssFs.File.Valid` | file.go:13-31 | on a valid handle a directory or a closed handle is never dirty (the invariant itself: staged exactly when dirty, never staged as a directory or once closed, a normalised name ending in a separator exactly for a directory) |
| `OssFs.File.Content` | file.go:81-89 | the content the next write starts from; on a valid clean handle it is the remote object, or nothing when there is none |
| `OssFs.File.PreloadError` | file.go:49-65 | staging succeeds exactly when the staging filesystem and the fetch do not fail and the object exists; with no failure, a missing object is not-found |
| `OssFs.File.constructor` | file.go:34-46 | a new handle has the normalised name, its directory flag from that name, the given flag, cursor 0, and is clean, open and unstaged; unless the name normalises to nothing, it is a directory handle exactly when the name it was opened with ends in a separator |
| `OssFs.File.Name` | file.go:268-270 | the name has no leading separator, ends in one exactly for a directory handle, and normalising it again gives the same key |
| `OssFs.File.Stat` | file.go:81-89 | a dirty handle reports the staged copy's size, or `EACCES` without a copy; a clean one reports the remote object's size, a failed metadata query or not-found; on a valid handle a reported size is that of the content the next write starts from |
| `OssFs.File.ReadAt` | file.go:137-147 | `EPERM` for an unreadable or directory handle; fetch failures and not-found propagate; otherwise the data is the remote object's bytes in [off, off+count), never the staged copy; an empty answer to a non-empty request is `EOF` |
| `OssFs.File.Read` | file.go:121-133 | `EPERM` for an unreadable or directory handle; a failed read returns nothing and leaves the cursor; a successful one returns the remote bytes at the cursor and advances the cursor by exactly their number; fetch failures and not-found propagate; an empty answer to a non-empty request is `EOF` |
| `OssFs.File.Seek` | file.go:150-179 | `EPERM` unless readable or writeable and not a directory; a Stat error propagates; otherwise the cursor becomes ResolveSeek(cursor, Stat size, offset, whence) and is returned; every error returns 0 and leaves the cursor |
| `OssFs.File.Preload` | file.go:49-78 | a staging or fetch failure, or a missing object, is returned and nothing is staged; otherwise the staged copy is the whole remote object and its cursor is the handle's cursor |
| `OssFs.File.DoWriteAt` | file.go:207-224 | a directory gets `EPERM`; a failed first staging is returned with the state unchanged; otherwise the staged copy is the old content with p spliced in at off, the handle is dirty, and with auto-sync the store holds the copy unless the upload failed, which is not reported |
| `OssFs.File.Write` | file.go:182-204 | `EPERM` unless writeable; in append mode the staged copy becomes old content + p and the cursor stays; otherwise p is spliced in at the cursor and the cursor advances by \|p\|; on error n is 0 and the cursor is unchanged |
| `OssFs.File.WriteAt` | file.go:228-238 | `EPERM` if not writeable or append-only, `ERANGE` for a negative offset, in both cases with nothing changed; otherwise the staged write at exactly off, cursor unchanged |
| `OssFs.File.WriteString` | file.go:328-330 | has the effect of Write on the string's bytes |
| `OssFs.File.Sync` | file.go:307-317 | without a staged copy nothing happens; otherwise the store's object becomes the whole staged copy and the staging cursor is restored, or the upload error is returned with the store unchanged; `dirty` is never touched |
| `OssFs.File.Close` | file.go:242-266 | a failed Sync is returned and the handle stays open, staged and registered, with its staging cursor rewound; otherwise the name leaves the open-files registry and the store holds the staged copy; a failed removal of the copy leaves the handle open with its staging cursor as it was; success means closed, clean and unstaged with the staging cursor at 0 |
| `OssFs.File.Truncate` | file.go:319-326 | `EPERM` for a non-writeable or directory handle; otherwise the effect of Write of `size` zero bytes, so the content never gets shorter |
| `OssFs.File.Readdir` | file.go:273-280 | `EPERM` unless a readable directory handle; otherwise the store's listing, in listing order, or its error |
| `OssFs.File.Readdirnames` | file.go:283-300 | `EPERM` unless a readable directory handle; a failed listing returns its own error; on success the names of the listed entries, one per entry, in listing order |
| `Scenarios.WriteAndSync` | file.go:207-224 | a positional write of b at 0 into an empty object through a clean, writeable, non-append handle, then Sync, succeeds, stores exactly b under the handle's key, leaves every other object alone and keeps the handle valid |
| `Scenarios.WriteSyncReadBack` | file.go:207-224 | bytes written at 0 into an empty object and synced, then read back as [0, \|b\|) through a new handle opened on the first handle's name, come back unchanged, the store holds them, and the first handle stays valid |
| `Scenarios.AppendWritesAtEnd` | file_test.go:564-600 | an append-mode write of data through a clean handle on an object holding original, then Sync, reports \|data\| bytes, keeps the cursor and the handle valid, and leaves original + data in the store |
| `Scenarios.AppendExample` | file_test.go:564-600 | appending "data" to "this is original content" stores their concatenation and reports 4 bytes |
| `Scenarios.ClosedHandleRefuses` | file.go:242-265 | on a closed handle Read, Write and Seek get `EPERM`; closing it again succeeds, leaves it closed and valid, the store unchanged, and removes its name from the registry again |
| `Scenarios.FailedSyncKeepsHandleOpen` | file.go:246-249 | a Close whose upload fails returns that error and leaves the handle valid, open, dirty, staged with the same copy and registered, and the store unchanged |
| `Scenarios.ConsecutiveWrites` | file.go:198-203 | two writes through a non-append handle, staged or on an existing object, with the cursor inside the content, leave the handle dirty and staged with the same bytes as one write of both buffers, leave the cursor after both and keep the handle valid |

## Left out

- Locking with `sync.Mutex`: each method is one atomic sequential step, so concurrent use of a handle is not modelled.
- The `ObjectManager` transport, the request context and the bucket name: the store is a map of keys to bytes.
  - Transport failures are the `meta`, `fetch` and `upload` parts of a per-call `Faults` value: the metadata query of `getFileInfo`, the whole-object and ranged fetches, and the upload.
  - A ranged fetch returns the bytes of the object inside the requested range. The store's handling of invalid ranges is not modelled.
- `OssFs.File.ReadAt`: one `Read` on the range's body is taken to deliver every byte of the range. A short read that returns fewer bytes is not modelled.
- The staging filesystem (afero's `MemMapFs` or another implementation): the staged copy is a byte sequence plus a cursor.
  - Its failures (stat, remove, create, copy, seek, close) are one `staging` fault. In `preload` that fault is taken to strike before the remote fetch.
  - The stale staging file left behind by a failed `preload` is not modelled.
  - The positional write into the staged copy never fails.
  - The positional write into the staged copy is taken not to move the staging cursor, as `pwrite` does. An in-memory staging file that seeks to the offset before writing would leave it after the bytes written. Nothing in the handle reads that cursor before `Sync` rewinds it.
  - Bytes of a gap beyond the old end are filled with zeros, but no contract relies on them.
- `OssFs.File.Sync`: after a failed upload the staging cursor is taken to stay at the start, where the rewind put it. How far the failed upload read is not modelled.
- `OssFs.File.Stat`: only the size of the `os.FileInfo` is modelled. A failing `Stat` of the staged file is not modelled.
- `OssFs.File.Truncate`: `size` is a natural number. A negative size makes the Go code panic in `make`, and that panic is not modelled.
- `OssFs.File.Readdir`: the store's listing for the directory prefix is a parameter. How `ensureAsDir` forms the prefix and how `count` limits the listing belong to the store.
- 64-bit limits: offsets, sizes and flags are unbounded integers, so `int64` overflow of the cursor is not modelled.
- The filesystem facade (`NewOssFs`, `OpenFile`, `Create`, `Remove`, `RemoveAll`, `Rename`, `Stat`, `MkdirAll`, `Chmod`, `Chown`, `Chtimes`, `ensureAsDir`): its source is not part of this model.
  - Only the removal of the handle's name from `openedFiles` in `Close` is modelled.
  - The constructor does not register the handle, just as `NewOssFile` does not.
  - `normFileName` and `isDir` are stand-ins that agree with the constructor tests (file_test.go:63-82): leading separators are stripped, and a trailing separator marks a directory.
- Concrete OS errno values: errors are constructors of one datatype.
