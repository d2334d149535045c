/** The adapter serving the TestProvider's tree: whole requests, from a new
    request to its answer, as the FUSE server would issue them. */
module EndToEnd {
  import opened Go
  import opened Errors
  import opened Fuseops
  import opened Fuseutil
  import opened Filesystem
  import opened TestProvider

  const HelloDirent := Dirent(offset := 1, inode := HelloInode, name := "hello.txt", dtype := DT_File)
  const SubdirDirent := Dirent(offset := 2, inode := SubdirInode, name := "subdir", dtype := DT_Directory)

  /** The root lists `hello.txt` and then `subdir`, and their dirents carry
      the positions 1 and 2 and the kinds file and directory. */
  lemma RootDirents()
    ensures ListDirectory(RootInodeID) == Ok([HelloTxt, Subdir])
    ensures Dirents(ListDirectory(RootInodeID).value, 0, 2) == [HelloDirent, SubdirDirent]
  {
    var ds := Dirents(ListDirectory(RootInodeID).value, 0, 2);
    assert ds[0] == HelloDirent;
    assert ds[1] == SubdirDirent;
  }

  /** What ReadDir appends for the root from each offset, with `room` bytes
      free: the dirents in order, as many as fit. */
  lemma {:induction false} RootWritten(encode: Encoder, room: nat)
    requires 0 < |encode(HelloDirent)| && 0 < |encode(SubdirDirent)|
    ensures var h, s := encode(HelloDirent), encode(SubdirDirent);
      Written(encode, ListDirectory(RootInodeID).value, 0, room) ==
        if room < |h| then [] else if room < |h| + |s| then h else h + s
    ensures var s := encode(SubdirDirent);
      Written(encode, ListDirectory(RootInodeID).value, 1, room) == if room < |s| then [] else s
  {
    var root := ListDirectory(RootInodeID).value;
    assert DirentAt(root, 0) == HelloDirent;
    assert DirentAt(root, 1) == SubdirDirent;
    var h, s := encode(HelloDirent), encode(SubdirDirent);
    assert Written(encode, root, 2, room) == [];
    if |s| <= room {
      assert Written(encode, root, 2, room - |s|) == [];
    }
    if |h| <= room && |s| <= room - |h| {
      assert Written(encode, root, 2, room - |h| - |s|) == [];
    }
  }

  /** ReadDir on the root with a fresh `size`-byte buffer from `offset`:
      both dirents when they fit, the first one alone when only it fits, and
      nothing from offset 2 on. */
  method ReadRootDir(encode: Encoder, offset: uint64, size: nat) returns (st: Outcome, bytes: seq<byte>)
    requires 0 < |encode(HelloDirent)| && 0 < |encode(SubdirDirent)|
    requires offset <= MaxInt
    ensures st == Pass
    ensures |bytes| <= size
    ensures var h, s := encode(HelloDirent), encode(SubdirDirent);
      && (offset == 0 ==> bytes == if size < |h| then [] else if size < |h| + |s| then h else h + s)
      && (offset == 1 ==> bytes == if size < |s| then [] else s)
      && (offset >= 2 ==> bytes == [])
  {
    var fs := new FS(Source);
    var dst := new byte[size];
    var op := new ReadDirOp(RootInodeID, offset, dst);
    st := fs.ReadDir(op, encode);
    bytes := op.dst[..op.bytesRead];
    RootWritten(encode, size);
  }

  /** ReadFile on `hello.txt` with a fresh `size`-byte buffer: the content
      from `offset` on, as much as fits; past the end, nothing and no error. */
  method ReadHello(offset: int64, size: nat) returns (st: Outcome, bytes: seq<byte>)
    requires 0 <= offset
    ensures st == Pass
    ensures var c := GetFileContent(HelloInode).value;
      && |c| == 13
      && (offset <= |c| ==> bytes == c[offset..offset + Min(size, |c| - offset)])
      && (offset >= |c| ==> bytes == [])
  {
    var fs := new FS(Source);
    var dst := new byte[size];
    var op := new ReadFileOp(HelloInode, offset, dst);
    st := fs.ReadFile(op);
    bytes := op.dst[..op.bytesRead];
  }

  /** GetInodeAttributes on the root: a directory with two links, mode
      `ModeDir|0755`. */
  method StatRoot(env: Env) returns (st: Outcome, attrs: InodeAttributes)
    ensures st == Pass
    ensures attrs.size == 0 && attrs.nlink == 2
    ensures attrs.mode == GetMode(true)
    ensures IsDirMode(attrs.mode) && Perm(attrs.mode) == 0x1ED
  {
    var fs := new FS(Source);
    var op := new GetInodeAttributesOp(RootInodeID);
    st := fs.GetInodeAttributes(op, env);
    attrs := op.attributes;
  }

  /** LookUpInode under the root: `hello.txt` and `subdir` resolve, with
      their kinds and sizes, and so does the empty name, to the root itself;
      every other name is ENOENT. */
  method LookUpInRoot(name: string, env: Env) returns (st: Outcome, entry: ChildInodeEntry)
    ensures st == Pass <==> name in {"", "hello.txt", "subdir"}
    ensures st.Fail? ==> st.error == ENOENT && entry == ZeroEntry
    ensures name == "hello.txt" ==>
      && entry.child == HelloInode && entry.attributes.size == 13
      && entry.attributes.nlink == 1 && IsRegularMode(entry.attributes.mode)
    ensures name == "subdir" ==>
      && entry.child == SubdirInode && entry.attributes.size == 0
      && entry.attributes.nlink == 2 && IsDirMode(entry.attributes.mode)
    ensures name == "" ==>
      && entry.child == RootInodeID && entry.attributes.size == 0
      && entry.attributes.nlink == 2 && IsDirMode(entry.attributes.mode)
  {
    var fs := new FS(Source);
    var op := new LookUpInodeOp(RootInodeID, name);
    st := fs.LookUpInode(op, env);
    entry := op.entry;
  }

  /** OpenDir succeeds on the two directories and nowhere else. */
  method OpenDirectory(inode: uint64) returns (st: Outcome)
    ensures st == Pass <==> inode in {RootInodeID, SubdirInode}
    ensures st.Fail? ==> st.error == ENOENT
  {
    var fs := new FS(Source);
    st := fs.OpenDir(inode);
  }
}
