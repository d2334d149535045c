/** The FUSE adapter of internal/filesystem/filesystem.go: it answers kernel
    requests by calling a data provider and synthesizing attributes and
    directory entries from what the provider returns. */
module Filesystem {
  import opened Go
  import opened Errors
  import opened Fuseops
  import opened Fuseutil

  /** One node of the provider's tree. */
  datatype FileInfo = FileInfo(name: string, size: uint64, isDir: bool, inode: uint64)

  /** A Go slice of FileInfo. */
  type Listing = s: seq<FileInfo> | |s| <= MaxInt

  /** A Go byte slice. */
  type Content = s: seq<byte> | |s| <= MaxInt

  /** The DataProvider interface: what the adapter needs from a backing store.
      `getChildInfo(p, "")` resolves `p` itself. */
  datatype Provider = Provider(
    getPathForInode: uint64 -> string,
    getChildInfo: (uint64, string) -> Result<FileInfo>,
    getFileContent: uint64 -> Result<Content>,
    listDirectory: uint64 -> Result<Listing>)

  /** What a well-behaved provider guarantees: the root is a directory, a
      self-lookup names the inode asked about, listing, name lookup and the
      listed inode's self-lookup agree, only directories list, only files have content, and a file's size is
      the length of its content. */
  ghost predicate ConsistentProvider(p: Provider) {
    && p.getChildInfo(RootInodeID, "").Ok?
    && p.getChildInfo(RootInodeID, "").value.isDir
    && (forall i: uint64 :: p.getChildInfo(i, "").Ok? ==> p.getChildInfo(i, "").value.inode == i)
    && (forall d: uint64, j ::
          p.listDirectory(d).Ok? && 0 <= j < |p.listDirectory(d).value| ==>
            p.getChildInfo(d, p.listDirectory(d).value[j].name) == Ok(p.listDirectory(d).value[j]))
    && (forall d: uint64, j ::
          p.listDirectory(d).Ok? && 0 <= j < |p.listDirectory(d).value| ==>
            p.getChildInfo(p.listDirectory(d).value[j].inode, "") == Ok(p.listDirectory(d).value[j]))
    && (forall d: uint64, n: string ::
          n != "" && p.getChildInfo(d, n).Ok? ==>
            p.listDirectory(d).Ok? && p.getChildInfo(d, n).value in p.listDirectory(d).value)
    && (forall d: uint64 ::
          p.listDirectory(d).Ok? ==> p.getChildInfo(d, "").Ok? && p.getChildInfo(d, "").value.isDir)
    && (forall f: uint64 ::
          p.getFileContent(f).Ok? ==> p.getChildInfo(f, "").Ok? && !p.getChildInfo(f, "").value.isDir)
    && (forall f: uint64 ::
          p.getChildInfo(f, "").Ok? && !p.getChildInfo(f, "").value.isDir ==>
            p.getFileContent(f).Ok? && |p.getFileContent(f).value| == p.getChildInfo(f, "").value.size)
  }

  /** What the adapter reads from its environment: the clock and the
      credentials of the mounting process. */
  datatype Env = Env(now: Time, uid: int, gid: int)

  /** getMode: a directory is `ModeDir|0755`, anything else a regular `0644`. */
  function GetMode(isDir: bool): (m: FileMode)
    ensures IsDirMode(m) == isDir
    ensures IsRegularMode(m) == !isDir
    ensures Perm(m) == if isDir then 0x1ED else 0x1A4
    ensures m & !(ModeDir | ModePerm) == 0
  {
    if isDir then ModeDir | 0x1ED else 0x1A4
  }

  /** getDirEntryType */
  function GetDirEntryType(isDir: bool): (t: DirentType)
    ensures t == DT_Directory <==> isDir
    ensures t == DT_File <==> !isDir
  {
    if isDir then DT_Directory else DT_File
  }

  /** getDefaultAttributes: the attributes reported for a node, synthesized
      afresh from its FileInfo on every request. */
  function GetDefaultAttributes(info: FileInfo, env: Env): (a: InodeAttributes)
    ensures a.size == info.size
    ensures a.nlink == if info.isDir then 2 else 1
    ensures a.mode == GetMode(info.isDir)
    ensures IsDirMode(a.mode) == info.isDir && IsRegularMode(a.mode) == !info.isDir
    ensures Perm(a.mode) == if info.isDir then 0x1ED else 0x1A4
    ensures a.atime == env.now && a.mtime == env.now && a.ctime == env.now && a.crtime == env.now
    ensures a.rdev == 0
    ensures a.uid == ToUint32(env.uid) && a.gid == ToUint32(env.gid)
  {
    var hardlinks := if info.isDir then 2 else 1;
    InodeAttributes(
      size := info.size,
      nlink := hardlinks,
      mode := GetMode(info.isDir),
      rdev := 0,
      atime := env.now,
      mtime := env.now,
      ctime := env.now,
      crtime := env.now,
      uid := ToUint32(env.uid),
      gid := ToUint32(env.gid))
  }

  /** The dirent ReadDir builds for entry `i` of a listing. */
  function DirentAt(entries: Listing, i: nat): (d: Dirent)
    requires i < |entries|
    ensures d.offset == i + 1
    ensures d.inode == entries[i].inode && d.name == entries[i].name
    ensures d.dtype == DT_Directory <==> entries[i].isDir
  {
    Dirent(
      offset := i + 1,
      inode := entries[i].inode,
      name := entries[i].name,
      dtype := GetDirEntryType(entries[i].isDir))
  }

  /** The dirents of entries `i` up to (not including) `k`, in listing order. */
  function Dirents(entries: Listing, i: nat, k: nat): (ds: seq<Dirent>)
    requires i <= k <= |entries|
    ensures |ds| == k - i
  {
    seq(k - i, j requires 0 <= j < k - i => DirentAt(entries, i + j))
  }

  /** The bytes of a run of dirents written back to back. */
  function Serialize(encode: Encoder, ds: seq<Dirent>): seq<byte>
  {
    if ds == [] then [] else encode(ds[0]) + Serialize(encode, ds[1..])
  }

  /** The index at which ReadDir, starting at entry `i` with `room` bytes
      left, meets the first entry that it does not write: the end of the
      listing, or an entry whose dirent does not fit in what is left. */
  function Accepted(encode: Encoder, entries: Listing, i: nat, room: nat): (k: nat)
    ensures if i < |entries| then i <= k <= |entries| else k == i
    decreases |entries| - i
  {
    if i >= |entries| then i
    else
      var n := |encode(DirentAt(entries, i))|;
      if 0 < n <= room then Accepted(encode, entries, i + 1, room - n) else i
  }

  /** The bytes ReadDir appends, starting at entry `i` with `room` bytes
      left: each entry's dirent as long as it fits, up to the first one that
      does not. */
  function Written(encode: Encoder, entries: Listing, i: nat, room: nat): (r: seq<byte>)
    ensures |r| <= room
    decreases |entries| - i
  {
    if i >= |entries| then []
    else
      var e := encode(DirentAt(entries, i));
      if 0 < |e| <= room then e + Written(encode, entries, i + 1, room - |e|) else []
  }

  /** The loop step of ReadDir. Before it, the buffer `before` holds the
      original bytes `dst0` with the run `out` (of `n` bytes) written at
      `at`, and `out` followed by what the rest of the buffer takes from
      entry `i` on is `w`. Writing the `k` bytes of entry `i`'s dirent
      keeps both facts, with `out` extended by them. */
  lemma FillStep(encode: Encoder, entries: Listing, i: nat, dst0: seq<byte>, at: nat, n: nat, k: nat,
                 out: seq<byte>, out': seq<byte>, w: seq<byte>, before: seq<byte>, after: seq<byte>)
    requires i < |entries|
    requires k == |encode(DirentAt(entries, i))| && 0 < k
    requires n == |out| && at + n + k <= |dst0|
    requires out' == out + encode(DirentAt(entries, i))
    requires before == dst0[..at] + out + dst0[at + n..]
    requires out + Written(encode, entries, i, |dst0| - (at + n)) == w
    requires after == before[..at + n] + encode(DirentAt(entries, i)) + before[at + n + k..]
    ensures after == dst0[..at] + out' + dst0[at + (n + k)..]
    ensures out' + Written(encode, entries, i + 1, |dst0| - (at + (n + k))) == w
  {
    assert before[..at + n] == dst0[..at] + out;
    assert before[at + n + k..] == dst0[at + n + k..];
  }

  /** The bytes ReadFile copies from `content` at `offset` into a
      destination of `cap` bytes; nothing at or after the end. */
  function ReadSpan(content: Content, offset: nat, cap: nat): (r: seq<byte>)
    ensures offset <= |content| ==> |r| == Min(cap, |content| - offset)
    ensures offset <= |content| ==> r == content[offset..offset + |r|]
    ensures offset >= |content| ==> r == []
  {
    if offset > |content| then [] else content[offset..offset + Min(cap, |content| - offset)]
  }

  /** The loop of ReadDir: writes the dirents of `entries` from index
      `offset` on into `dst` from position `from`, one after the other,
      and stops at the first one that does not fit. */
  method FillDirents(dst: array<byte>, from: nat, entries: Listing, offset: nat, encode: Encoder) returns (n: nat)
    requires from <= dst.Length
    modifies dst
    ensures var w := Written(encode, entries, offset, dst.Length - from);
      && n == |w|
      && from + n <= dst.Length
      && dst[..] == old(dst[..])[..from] + w + old(dst[..])[from + n..]
  {
    ghost var dst0 := dst[..];
    ghost var w := Written(encode, entries, offset, dst.Length - from);
    ghost var out: seq<byte> := [];
    var i := offset;
    n := 0;
    while i < |entries|
      invariant n == |out| && from + n <= dst.Length
      invariant dst[..] == dst0[..from] + out + dst0[from + n..]
      invariant out + Written(encode, entries, i, |dst0| - (from + n)) == w
      decreases |entries| - i
    {
      var k := WriteNext(dst, from, n, entries, i, encode, dst0, out, w);
      if k == 0 {
        break;
      }
      out := out + encode(DirentAt(entries, i));
      n := n + k;
      i := i + 1;
    }
  }

  /** One step of FillDirents: writes the dirent of entry `i` right after
      the run `out` already written at `at`, if it fits. */
  method WriteNext(dst: array<byte>, at: nat, n: nat, entries: Listing, i: nat, encode: Encoder,
                   ghost dst0: seq<byte>, ghost out: seq<byte>, ghost w: seq<byte>) returns (k: nat)
    requires i < |entries|
    requires n == |out| && at + n <= dst.Length == |dst0|
    requires dst[..] == dst0[..at] + out + dst0[at + n..]
    requires out + Written(encode, entries, i, |dst0| - (at + n)) == w
    modifies dst
    ensures k == 0 ==> dst[..] == old(dst[..]) && out == w
    ensures k > 0 ==>
      var out' := out + encode(DirentAt(entries, i));
      && k == |encode(DirentAt(entries, i))|
      && at + n + k <= dst.Length
      && dst[..] == dst0[..at] + out' + dst0[at + (n + k)..]
      && out' + Written(encode, entries, i + 1, |dst0| - (at + (n + k))) == w
  {
    ghost var before := dst[..];
    k := WriteDirent(dst, at + n, DirentAt(entries, i), encode);
    if k > 0 {
      FillStep(encode, entries, i, dst0, at, n, k, out, out + encode(DirentAt(entries, i)), w, before, dst[..]);
    }
  }

  class FS {
    const source: Provider

    constructor (source: Provider)
      ensures this.source == source
    {
      this.source := source;
    }

    /** StatFS: always succeeds and reports nothing. */
    method StatFS() returns (st: Outcome)
      ensures st == Pass
    {
      st := Pass;
    }

    /** GetInodeAttributes: a self-lookup of the inode; on an error the error
        is returned and the request is left alone. */
    method GetInodeAttributes(op: GetInodeAttributesOp, env: Env) returns (st: Outcome)
      modifies op`attributes
      ensures var r := source.getChildInfo(op.inode, "");
        && (r.Err? ==> st == Fail(r.error) && op.attributes == old(op.attributes))
        && (r.Ok? ==> st == Pass && op.attributes == GetDefaultAttributes(r.value, env))
    {
      var r := source.getChildInfo(op.inode, "");
      if r.Err? {
        return Fail(r.error);
      }
      op.attributes := GetDefaultAttributes(r.value, env);
      st := Pass;
    }

    /** LookUpInode: resolves `name` under `parent`; on success the entry
        names the resolved inode and carries its attributes, and the entry's
        other fields keep their values. */
    method LookUpInode(op: LookUpInodeOp, env: Env) returns (st: Outcome)
      modifies op`entry
      ensures var r := source.getChildInfo(op.parent, op.name);
        && (r.Err? ==> st == Fail(r.error) && op.entry == old(op.entry))
        && (r.Ok? ==>
              && st == Pass
              && op.entry == old(op.entry).(child := r.value.inode,
                                            attributes := GetDefaultAttributes(r.value, env)))
    {
      var r := source.getChildInfo(op.parent, op.name);
      if r.Err? {
        return Fail(r.error);
      }
      var info := r.value;
      op.entry := op.entry.(child := info.inode);
      op.entry := op.entry.(attributes := GetDefaultAttributes(info, env));
      st := Pass;
    }

    /** OpenDir: succeeds exactly when the provider can list the inode. */
    method OpenDir(inode: uint64) returns (st: Outcome)
      ensures st.Pass? <==> source.listDirectory(inode).Ok?
      ensures st.Fail? ==> st.error == source.listDirectory(inode).error
    {
      var r := source.listDirectory(inode);
      st := if r.Err? then Fail(r.error) else Pass;
    }

    /** ReadDir: appends, from entry `op.offset` on, one serialized dirent per
        listing entry to `op.dst[op.bytesRead..]`, and stops at the end of the
        listing or at the first dirent that does not fit. An offset of 2^63
        or more becomes a negative `int`, which is below the length of every
        listing, even an empty one, so indexing the listing fails. The code
        slices `op.dst` at `op.bytesRead` only inside its loop; the bound on
        `op.bytesRead` is required for every input all the same, which every
        request meets, since each starts with `op.bytesRead` zero. */
    method ReadDir(op: ReadDirOp, encode: Encoder) returns (st: Outcome)
      requires source.listDirectory(op.inode).Ok? ==> op.offset <= MaxInt
      requires 0 <= op.bytesRead <= op.dst.Length
      modifies op`bytesRead, op.dst
      ensures var r := source.listDirectory(op.inode);
        r.Err? ==> st == Fail(r.error) && op.bytesRead == old(op.bytesRead) && op.dst[..] == old(op.dst[..])
      ensures var r := source.listDirectory(op.inode);
        r.Ok? ==>
          var w := Written(encode, r.value, op.offset, op.dst.Length - old(op.bytesRead));
          && st == Pass
          && op.bytesRead == old(op.bytesRead) + |w| <= op.dst.Length
          && op.dst[..] == old(op.dst[..])[..old(op.bytesRead)] + w + old(op.dst[..])[op.bytesRead..]
    {
      var r := source.listDirectory(op.inode);
      if r.Err? {
        return Fail(r.error);
      }
      var n := FillDirents(op.dst, op.bytesRead, r.value, op.offset, encode);
      op.bytesRead := op.bytesRead + n;
      st := Pass;
    }

    /** OpenFile: always succeeds; nothing is checked at open time. */
    method OpenFile(inode: uint64) returns (st: Outcome)
      ensures st == Pass
    {
      st := Pass;
    }

    /** ReadFile: copies the file's bytes from `op.offset` on into `op.dst`.
        A read that starts past the end returns no error and leaves the
        request alone. */
    method ReadFile(op: ReadFileOp) returns (st: Outcome)
      requires source.getFileContent(op.inode).Ok? ==> 0 <= op.offset
      modifies op`bytesRead, op.dst
      ensures var r := source.getFileContent(op.inode);
        (r.Err? || op.offset > |r.value|) ==>
          && st == (if r.Err? then Fail(r.error) else Pass)
          && op.bytesRead == old(op.bytesRead)
          && op.dst[..] == old(op.dst[..])
      ensures var r := source.getFileContent(op.inode);
        (r.Ok? && op.offset <= |r.value|) ==>
          && st == Pass
          && op.bytesRead == Min(op.dst.Length, |r.value| - op.offset)
          && op.dst[..op.bytesRead] == ReadSpan(r.value, op.offset, op.dst.Length)
          && op.dst[op.bytesRead..] == old(op.dst[..])[op.bytesRead..]
    {
      var r := source.getFileContent(op.inode);
      if r.Err? {
        return Fail(r.error);
      }
      var content := r.value;
      if op.offset > |content| {
        return Pass;
      }
      var available := content[op.offset..];
      var n := Copy(op.dst, available);
      op.bytesRead := n;
      st := Pass;
    }
  }
}
