# go-restfuse adapter, modelled in Dafny

go-restfuse mounts a tree of files served by a *data provider* as a FUSE
filesystem. The adapter (`internal/filesystem/filesystem.go`) answers the
kernel's requests. It keeps no inode table of its own; it forwards inode
numbers to the provider unchanged. From the provider's `FileInfo` records it
builds inode attributes: size, link count, mode, timestamps and owner. It
serializes directory listings into the kernel's buffer one directory entry
(dirent) at a time. The kernel resumes a listing by index: each dirent carries
the listing position after it. `cmd/go-restfuse/main.go` holds a fixed
demonstration provider, the TestProvider.

The model has these modules:

- `Go`: Go's integer types, `copy`, and the `uint32(int)` conversion.
- `Errors`: provider errors, the `(value, error)` pairs, and a handler's `error` result.
- `Fuseops`: the FUSE request records the adapter fills in, and `os.FileMode`'s bits.
- `Fuseutil`: `Dirent`, `DirentType` and `WriteDirent`. `WriteDirent` is written over an abstract encoder.
- `Filesystem`: the adapter and its helper functions.
- `AdapterProperties`: properties that span several calls: ReadDir paging, agreement with lookups, and sequential file reads.
- `TestProvider`: the demonstration provider, and the proof that it meets every guarantee the adapter's properties assume.
- `EndToEnd`: whole requests against the TestProvider.

A few modelling choices:

- **Provider.** The provider interface `DataProvider` becomes the datatype `Filesystem.Provider`. It has one function field per interface method. A Dafny function gives the same answer every time it is called with the same arguments. A Go `DataProvider` may answer differently from one request to the next. So the properties that relate several requests (`AdapterProperties.PagingEqualsOneCall` over one listing, `AdapterProperties.ListedDirentsResolve` and `AdapterProperties.SequentialReadsReturnContent` over one provider value) hold only for a provider whose answers do not change between those requests.
- **Request records.** The records a handler writes into are classes with `var` fields. Each handler's `modifies` clause names only the fields it sets.
- **Buffers.** The kernel's buffers are `array<byte>`. ReadDir appends to its buffer in place.
- **Environment.** The clock and the process's uid and gid are not read. They are passed in as `Filesystem.Env`.

Two behaviours worth noting; the model follows the code:

- **OpenFile** succeeds for every inode. It does not check that the inode exists.
- **ReadFile past the end.** A read whose offset is past the end returns success without touching the request, so `BytesRead` keeps its value. `BytesRead` is zero only because a new request starts at zero, as `EndToEnd.ReadHello` shows.

## Model

| member | source | states |
|---|---|---|
| `Go.ToUint32` | internal/filesystem/filesystem.go:134-135 | Go's `uint32(x)` keeps `x` when it is in range and adds 2^32 to a small negative `x`; the result is always a uint32 |
| `Go.Copy` | internal/filesystem/filesystem.go:112 | `copy` moves `min(len(dst), len(src))` bytes to the front of `dst`; the rest of `dst` is unchanged |
| `Fuseutil.WriteDirent` | internal/filesystem/filesystem.go:85 | the whole encoded dirent is written at the given position, and its length returned, exactly when it fits; otherwise 0 is returned and nothing changes |
| `Filesystem.GetMode` | internal/filesystem/filesystem.go:139-145 | the mode is a directory mode exactly for directories and a regular mode exactly for the rest; permissions are 0755 or 0644; no other type bit is set |
| `Filesystem.GetDirEntryType` | internal/filesystem/filesystem.go:147-153 | `DT_Directory` exactly for directories, `DT_File` exactly for the rest |
| `Filesystem.GetDefaultAttributes` | internal/filesystem/filesystem.go:118-137 | size copied; 2 links for a directory and 1 otherwise; mode as `getMode`; all four times are the same instant; uid and gid are the 32-bit truncations of the process's ids |
| `Filesystem.DirentAt` | internal/filesystem/filesystem.go:76-82 | the dirent built for entry `i` carries offset `i + 1`, the entry's inode and name, and the directory type exactly when the entry is a directory; `AdapterProperties.RunDirents` states the same of every dirent ReadDir writes |
| `Filesystem.Dirents` | internal/filesystem/filesystem.go:75-82 | the run of dirents between two listing positions has one dirent per entry |
| `Filesystem.Accepted` | internal/filesystem/filesystem.go:75-90 | the position where ReadDir stops lies between its start and the end of the listing |
| `Filesystem.Written` | internal/filesystem/filesystem.go:75-90 | the bytes ReadDir appends never exceed the free room of the buffer |
| `Filesystem.FillStep` | internal/filesystem/filesystem.go:85-89 | writing one more fitting dirent after the run already written keeps the buffer equal to the original bytes with the longer run spliced in; it also keeps what is still to be written in step |
| `Filesystem.ReadSpan` | internal/filesystem/filesystem.go:107-113 | the bytes copied are `min(cap, len - offset)` bytes of the content from `offset` on; from the end on, nothing is copied |
| `Filesystem.FillDirents` | internal/filesystem/filesystem.go:75-90 | the loop writes exactly `Written` at the given position, returns its length, and leaves every byte before and after it unchanged |
| `Filesystem.WriteNext` | internal/filesystem/filesystem.go:85-89 | one loop iteration: either the dirent is written and the run grows by it, or 0 is returned, nothing changes and the run is complete |
| `Filesystem.FS.StatFS` | internal/filesystem/filesystem.go:32-34 | always succeeds |
| `Filesystem.FS.GetInodeAttributes` | internal/filesystem/filesystem.go:36-46 | a self-lookup error is returned unchanged and the attributes are left alone; on success the attributes are those synthesized from the provider's info |
| `Filesystem.FS.LookUpInode` | internal/filesystem/filesystem.go:48-60 | a lookup error is returned unchanged and the entry is untouched; on success only the child inode and the attributes of the entry change |
| `Filesystem.FS.OpenDir` | internal/filesystem/filesystem.go:62-66 | succeeds exactly when the provider can list the inode, and otherwise returns the provider's error |
| `Filesystem.FS.ReadDir` | internal/filesystem/filesystem.go:68-93 | a listing error is returned with buffer and count untouched; otherwise `BytesRead` grows by exactly the bytes written, the new bytes sit right after the old count, all other bytes are unchanged, and the count never exceeds the buffer |
| `Filesystem.FS.OpenFile` | internal/filesystem/filesystem.go:95-98 | always succeeds |
| `Filesystem.FS.ReadFile` | internal/filesystem/filesystem.go:100-116 | a content error is returned; past the end, success with nothing changed; otherwise `BytesRead` is `min(len(dst), len - offset)`, those bytes are the content from `offset` on, and the rest of `dst` is unchanged |
| `AdapterProperties.SerializeRunCons` | internal/filesystem/filesystem.go:75-90 | a serialized run is its first dirent followed by the rest of the run |
| `AdapterProperties.WrittenIsRun` | internal/filesystem/filesystem.go:75-90 | what one ReadDir writes is the serialization of a contiguous run of entries in listing order, from the start offset up to where it stops |
| `AdapterProperties.RunDirents` | internal/filesystem/filesystem.go:75-82 | the dirent of entry `j` carries offset `j + 1`, the entry's inode and name, and the directory/file type of the entry; the last dirent's offset is where the next call resumes |
| `AdapterProperties.StopsAtFirstMisfit` | internal/filesystem/filesystem.go:85-88 | ReadDir stops at the first entry whose dirent does not fit in the room left, and that room is what the run written leaves free; every dirent written has a positive size |
| `AdapterProperties.WrittenThenRest` | internal/filesystem/filesystem.go:75-90 | what one call writes, followed by the whole rest of the listing from where it stopped, is the whole rest from where it started |
| `AdapterProperties.LargeBufferTakesAll` | internal/filesystem/filesystem.go:75-90 | with room for the whole rest of the listing, one call writes all of it and stops at the end |
| `AdapterProperties.PagingEqualsOneCall` | internal/filesystem/filesystem.go:75-90 | repeated calls with a small buffer, each resuming where the last stopped, concatenate to the whole listing; that is what one call with a large enough buffer writes |
| `AdapterProperties.ListedDirentsResolve` | internal/filesystem/filesystem.go:48-60 | for a consistent provider, every dirent written names the inode that a lookup of its name resolves to; its type agrees with the mode LookUpInode reports for the name and with the mode GetInodeAttributes reports for the inode |
| `AdapterProperties.SequentialReadsReturnContent` | internal/filesystem/filesystem.go:107-113 | repeated file reads, each starting where the last ended, return the content from the first offset to the end |
| `TestProvider.AsciiBytes` | cmd/go-restfuse/main.go:22-26 | `[]byte` of an ASCII string has one byte per character, and byte `i` is the code of character `i` |
| `TestProvider.GetFileContent` | cmd/go-restfuse/main.go:18-30 | content exists exactly for inodes 100, 102 and 103; every other inode is ENOENT |
| `TestProvider.GetChildInfo` | cmd/go-restfuse/main.go:32-68 | resolves exactly the five self-lookups, the root's two children and subdir's two children; everything else is ENOENT; a self-lookup reports the inode asked about, and a named lookup reports that name |
| `TestProvider.ListDirectory` | cmd/go-restfuse/main.go:70-86 | exactly the root and subdir list, two entries each; everything else is ENOENT |
| `TestProvider.RootIsDirectory` | cmd/go-restfuse/main.go:37-38 | the root resolves to a directory with the root inode |
| `TestProvider.ListingMatchesLookUp` | cmd/go-restfuse/main.go:50-86 | every listed entry resolves by name to exactly the listed FileInfo |
| `TestProvider.ListedEntryResolvesItself` | cmd/go-restfuse/main.go:32-86 | every listed entry's inode, looked up by itself, reports exactly the listed FileInfo |
| `TestProvider.LookUpIsListed` | cmd/go-restfuse/main.go:50-86 | every name that resolves under a directory is in its listing |
| `TestProvider.SizesMatchContent` | cmd/go-restfuse/main.go:18-46 | each file's reported size is the length of the content it serves, including hello.txt, whose size is measured on a different string of equal length |
| `TestProvider.KindsAgree` | cmd/go-restfuse/main.go:18-86 | only directories list and only files have content |
| `TestProvider.TestProviderIsConsistent` | cmd/go-restfuse/main.go:32-86 | the TestProvider meets every guarantee the adapter's properties assume of a provider |
| `EndToEnd.RootDirents` | cmd/go-restfuse/main.go:73-77 | the root lists hello.txt and then subdir; their dirents carry offsets 1 and 2 and the types file and directory |
| `EndToEnd.RootWritten` | internal/filesystem/filesystem.go:75-90 | what ReadDir writes for the root at offsets 0 and 1: both dirents, the first alone, or nothing, by room |
| `EndToEnd.ReadRootDir` | internal/filesystem/filesystem.go:68-93 | a ReadDir of the root with a new buffer answers with both dirents, the first alone, or nothing, by buffer size and offset; from offset 2 on, nothing |
| `EndToEnd.ReadHello` | internal/filesystem/filesystem.go:100-116 | reading hello.txt returns its 13 bytes from the offset on, as many as fit; from the end on, nothing and no error |
| `EndToEnd.StatRoot` | internal/filesystem/filesystem.go:36-46 | the root's attributes: size 0, two links, the mode `getMode` gives a directory (directory mode 0755) |
| `EndToEnd.LookUpInRoot` | internal/filesystem/filesystem.go:48-60 | under the root, hello.txt resolves to a file of size 13 with one link, and subdir and the empty name (the root itself) resolve to directories of size 0 with two links; every other name is ENOENT and leaves the entry zero |
| `EndToEnd.OpenDirectory` | internal/filesystem/filesystem.go:62-66 | OpenDir succeeds on the root and subdir only; everything else is ENOENT |

## Left out

- `Start` (filesystem.go:155-180) and `main`: flag parsing, mounting and joining the server are I/O.
- Logging: `log.Printf` changes nothing the adapter returns.
- The byte layout of a dirent in `fuseutil.WriteDirent`: header, name and 8-byte padding. Every statement holds for any encoder. The real encoding never has size zero; the model's writer treats a zero-size encoding as not fitting.
- The `NotImplementedFileSystem` handlers (ENOSYS for every other request) belong to the FUSE library and are not part of this model.
- `rootInode` and `nextInode` (filesystem.go:27-30): they are declared but never read.
- Concurrency: the FUSE server may run handlers concurrently. The adapter has no shared mutable state, so each handler is modelled on its own.
- `time.Now`, `os.Getuid` and `os.Getgid` are parameters, not calls.
- GetChildInfo's error case: the zero `FileInfo` returned with ENOENT is not represented, since the adapter never reads the value of a failed call.
- Filesystem.FS.ReadFile: a negative `op.Offset` makes `content[op.Offset:]` panic once the content call has succeeded. The model requires a non-negative offset only when the content call succeeds, and does not model the panic; the kernel never sends a negative offset.
- Filesystem.FS.ReadDir: an `op.Offset` of 2^63 or more turns into a negative `int`. That index is below the length of every listing, an empty one included, so `entries[i]` panics whenever the listing succeeds. The model requires the offset to be at most 2^63 - 1 when the listing succeeds; it does not model the panic.
- Filesystem.FS.ReadDir: the model requires `0 <= BytesRead <= len(op.Dst)` for every input. The code evaluates `op.Dst[op.BytesRead:]` only inside the loop body, so it panics on an out-of-range `BytesRead` only when the listing succeeds and `op.Offset` is below its length. When the listing fails, or the offset is at or past its end, the code returns normally whatever `BytesRead` is, and the model excludes those inputs too. This loses nothing in practice: the FUSE server hands every ReadDir request to the adapter with `BytesRead` zero.
- The request fields the adapter neither reads nor writes (handles, expiration times, lock owners, the open flags) are left out. The conversion of `os.FileMode` to the kernel's mode bits happens in the FUSE library and is also left out.
- TestProvider.GetPathForInode: it is a constant function: its result is always "tst" and the adapter never calls it. It has no contract of its own.
- Go strings are byte strings while Dafny's are character sequences. The TestProvider's strings are ASCII, and `AsciiBytes` encodes them one byte per character.
