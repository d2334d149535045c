/** The demonstration provider of cmd/go-restfuse/main.go: a fixed tree with
    `hello.txt` and the directory `subdir` under the root, and `file1.txt` and
    `file2.txt` inside `subdir`. */
module TestProvider {
  import opened Go
  import opened Errors
  import opened Fuseops
  import opened Filesystem

  const HelloInode: uint64 := 100
  const SubdirInode: uint64 := 101
  const File1Inode: uint64 := 102
  const File2Inode: uint64 := 103

  /** Every character is in the ASCII range, so UTF-8 uses one byte for it. */
  predicate IsAscii(s: string) {
    forall i :: 0 <= i < |s| ==> s[i] as int < 0x80
  }

  /** Go's `[]byte(s)` for an ASCII string: one byte per character. */
  function AsciiBytes(s: string): (b: Content)
    requires IsAscii(s)
    requires |s| <= MaxInt
    ensures |b| == |s|
    ensures forall i :: 0 <= i < |s| ==> b[i] == s[i] as int
  {
    seq(|s|, i requires 0 <= i < |s| => s[i] as int)
  }

  /** The entries the provider knows. The sizes are Go's `len` of the
      string literals the source measures, which for ASCII text is the number
      of characters. */
  const RootInfo := FileInfo(name := "", size := 0, isDir := true, inode := RootInodeID)
  const HelloTxt := FileInfo(name := "hello.txt", size := |"Hello, World!"|, isDir := false, inode := HelloInode)
  const Subdir := FileInfo(name := "subdir", size := 0, isDir := true, inode := SubdirInode)
  const File1 := FileInfo(name := "file1.txt", size := |"Content of file1"|, isDir := false, inode := File1Inode)
  const File2 := FileInfo(name := "file2.txt", size := |"Content of file2"|, isDir := false, inode := File2Inode)

  /** GetPathForInode: the same path for every inode; the adapter never asks. */
  function GetPathForInode(inode: uint64): string {
    "tst"
  }

  /** GetFileContent: the bytes of the three files; anything else is ENOENT. */
  function GetFileContent(inode: uint64): (r: Result<Content>)
    ensures r.Ok? <==> inode in {HelloInode, File1Inode, File2Inode}
    ensures r.Err? ==> r.error == ENOENT
  {
    if inode == HelloInode then Ok(AsciiBytes("Hello__World!"))
    else if inode == File1Inode then Ok(AsciiBytes("Content of file1"))
    else if inode == File2Inode then Ok(AsciiBytes("Content of file2"))
    else Err(ENOENT)
  }

  /** GetChildInfo: an empty name asks about `parent` itself; otherwise the
      root holds `hello.txt` and `subdir`, and `subdir` holds the two files.
      Every other pair is ENOENT. */
  function GetChildInfo(parent: uint64, name: string): (r: Result<FileInfo>)
    ensures r.Ok? <==>
      || (name == "" && parent in {RootInodeID, HelloInode, SubdirInode, File1Inode, File2Inode})
      || (parent == RootInodeID && name in {"hello.txt", "subdir"})
      || (parent == SubdirInode && name in {"file1.txt", "file2.txt"})
    ensures r.Err? ==> r.error == ENOENT
    ensures r.Ok? && name == "" ==> r.value.inode == parent
    ensures r.Ok? && name != "" ==> r.value.name == name
  {
    if name == "" && parent == RootInodeID then Ok(RootInfo)
    else if name == "" && parent == HelloInode then Ok(HelloTxt)
    else if name == "" && parent == SubdirInode then Ok(Subdir)
    else if name == "" && parent == File1Inode then Ok(File1)
    else if name == "" && parent == File2Inode then Ok(File2)
    else if parent == RootInodeID && name == "hello.txt" then Ok(HelloTxt)
    else if parent == RootInodeID && name == "subdir" then Ok(Subdir)
    else if parent == SubdirInode && name == "file1.txt" then Ok(File1)
    else if parent == SubdirInode && name == "file2.txt" then Ok(File2)
    else Err(ENOENT)
  }

  /** ListDirectory: the root and `subdir` list their two children in a fixed
      order; anything else is ENOENT. */
  function ListDirectory(inode: uint64): (r: Result<Listing>)
    ensures r.Ok? <==> inode in {RootInodeID, SubdirInode}
    ensures r.Err? ==> r.error == ENOENT
    ensures r.Ok? ==> |r.value| == 2
  {
    if inode == RootInodeID then Ok([HelloTxt, Subdir])
    else if inode == SubdirInode then Ok([File1, File2])
    else Err(ENOENT)
  }

  /** The TestProvider as the adapter's data provider. */
  const Source := Provider(GetPathForInode, GetChildInfo, GetFileContent, ListDirectory)

  /** The root resolves to itself and is a directory. */
  lemma RootIsDirectory()
    ensures GetChildInfo(RootInodeID, "") == Ok(RootInfo)
    ensures RootInfo.isDir && RootInfo.inode == RootInodeID
  {
  }

  /** Every listed entry resolves, by its name under the listed directory,
      to exactly the FileInfo the listing reports. */
  lemma ListingMatchesLookUp(d: uint64, j: nat)
    requires ListDirectory(d).Ok? && j < |ListDirectory(d).value|
    ensures GetChildInfo(d, ListDirectory(d).value[j].name) == Ok(ListDirectory(d).value[j])
  {
  }

  /** Every listed entry's inode, asked about itself, reports the same
      FileInfo the listing does. */
  lemma ListedEntryResolvesItself(d: uint64, j: nat)
    requires ListDirectory(d).Ok? && j < |ListDirectory(d).value|
    ensures GetChildInfo(ListDirectory(d).value[j].inode, "") == Ok(ListDirectory(d).value[j])
  {
  }

  /** Conversely, every name that resolves under a directory is listed there. */
  lemma LookUpIsListed(d: uint64, name: string)
    requires name != "" && GetChildInfo(d, name).Ok?
    ensures ListDirectory(d).Ok? && GetChildInfo(d, name).value in ListDirectory(d).value
  {
  }

  /** A file's reported size is the length of the content it serves; in
      particular the size of `hello.txt`, measured on "Hello, World!", agrees
      with its content "Hello__World!". */
  lemma SizesMatchContent(f: uint64)
    requires GetChildInfo(f, "").Ok? && !GetChildInfo(f, "").value.isDir
    ensures GetFileContent(f).Ok?
    ensures |GetFileContent(f).value| == GetChildInfo(f, "").value.size
  {
  }

  /** Only directories list, and only files have content. */
  lemma KindsAgree(i: uint64)
    ensures ListDirectory(i).Ok? ==> GetChildInfo(i, "").Ok? && GetChildInfo(i, "").value.isDir
    ensures GetFileContent(i).Ok? ==> GetChildInfo(i, "").Ok? && !GetChildInfo(i, "").value.isDir
  {
  }

  /** The TestProvider meets every guarantee the adapter's properties assume. */
  lemma TestProviderIsConsistent()
    ensures ConsistentProvider(Source)
  {
    RootIsDirectory();
    forall d: uint64, j | ListDirectory(d).Ok? && 0 <= j < |ListDirectory(d).value|
      ensures GetChildInfo(d, ListDirectory(d).value[j].name) == Ok(ListDirectory(d).value[j])
    {
      ListingMatchesLookUp(d, j);
    }
    forall d: uint64, j | ListDirectory(d).Ok? && 0 <= j < |ListDirectory(d).value|
      ensures GetChildInfo(ListDirectory(d).value[j].inode, "") == Ok(ListDirectory(d).value[j])
    {
      ListedEntryResolvesItself(d, j);
    }
    forall d: uint64, n: string | n != "" && GetChildInfo(d, n).Ok?
      ensures ListDirectory(d).Ok? && GetChildInfo(d, n).value in ListDirectory(d).value
    {
      LookUpIsListed(d, n);
    }
    forall i: uint64
      ensures ListDirectory(i).Ok? ==> GetChildInfo(i, "").Ok? && GetChildInfo(i, "").value.isDir
      ensures GetFileContent(i).Ok? ==> GetChildInfo(i, "").Ok? && !GetChildInfo(i, "").value.isDir
    {
      KindsAgree(i);
    }
    forall f: uint64 | GetChildInfo(f, "").Ok? && !GetChildInfo(f, "").value.isDir
      ensures GetFileContent(f).Ok? && |GetFileContent(f).value| == GetChildInfo(f, "").value.size
    {
      SizesMatchContent(f);
    }
  }
}
