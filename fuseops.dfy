/** The parts of the FUSE library's request types (package fuseops) and of Go's
    `os.FileMode` that the adapter reads or writes. */
module Fuseops {
  import opened Go

  /** fuseops.RootInodeID, the inode the kernel asks for first. */
  const RootInodeID: uint64 := 1

  /** An instant in time, as returned by `time.Now()`. */
  type Time = int

  /** A Go `os.FileMode`: type bits at the top, permission bits at the bottom. */
  type FileMode = bv32

  const ModeDir: FileMode := 0x8000_0000        // 1 << 31
  const ModeSymlink: FileMode := 0x0800_0000    // 1 << 27
  const ModeDevice: FileMode := 0x0400_0000     // 1 << 26
  const ModeNamedPipe: FileMode := 0x0200_0000  // 1 << 25
  const ModeSocket: FileMode := 0x0100_0000     // 1 << 24
  const ModeCharDevice: FileMode := 0x0020_0000 // 1 << 21
  const ModeIrregular: FileMode := 0x0008_0000  // 1 << 19
  const ModeType: FileMode :=
    ModeDir | ModeSymlink | ModeNamedPipe | ModeSocket | ModeDevice | ModeCharDevice | ModeIrregular
  const ModePerm: FileMode := 0x1FF             // 0777

  /** `FileMode.IsDir()` */
  predicate IsDirMode(m: FileMode) { m & ModeDir != 0 }

  /** `FileMode.IsRegular()`: no type bit is set. */
  predicate IsRegularMode(m: FileMode) { m & ModeType == 0 }

  /** `FileMode.Perm()` */
  function Perm(m: FileMode): FileMode { m & ModePerm }

  /** fuseops.InodeAttributes */
  datatype InodeAttributes = InodeAttributes(
    size: uint64,
    nlink: uint32,
    mode: FileMode,
    rdev: uint32,
    atime: Time,
    mtime: Time,
    ctime: Time,
    crtime: Time,
    uid: uint32,
    gid: uint32)

  /** The zero value of InodeAttributes, which a fresh request holds. */
  const ZeroAttributes := InodeAttributes(0, 0, 0, 0, 0, 0, 0, 0, 0, 0)

  /** fuseops.ChildInodeEntry, the answer to a name lookup. */
  datatype ChildInodeEntry = ChildInodeEntry(
    child: uint64,
    generation: uint64,
    attributes: InodeAttributes,
    attributesExpiration: Time,
    entryExpiration: Time)

  const ZeroEntry := ChildInodeEntry(0, 0, ZeroAttributes, 0, 0)

  /** fuseops.GetInodeAttributesOp: asks for the attributes of one inode. */
  class GetInodeAttributesOp {
    const inode: uint64
    var attributes: InodeAttributes
    var attributesExpiration: Time

    constructor (inode: uint64)
      ensures this.inode == inode
      ensures attributes == ZeroAttributes && attributesExpiration == 0
    {
      this.inode := inode;
      attributes := ZeroAttributes;
      attributesExpiration := 0;
    }
  }

  /** fuseops.LookUpInodeOp: asks for the child called `name` of `parent`. */
  class LookUpInodeOp {
    const parent: uint64
    const name: string
    var entry: ChildInodeEntry

    constructor (parent: uint64, name: string)
      ensures this.parent == parent && this.name == name && entry == ZeroEntry
    {
      this.parent := parent;
      this.name := name;
      entry := ZeroEntry;
    }
  }

  /** fuseops.ReadDirOp: asks for directory entries, from the entry with index
      `offset` on, serialized into `dst[bytesRead..]`. */
  class ReadDirOp {
    const inode: uint64
    const offset: uint64
    const dst: array<byte>
    var bytesRead: int

    constructor (inode: uint64, offset: uint64, dst: array<byte>)
      ensures this.inode == inode && this.offset == offset && this.dst == dst
      ensures bytesRead == 0
    {
      this.inode := inode;
      this.offset := offset;
      this.dst := dst;
      bytesRead := 0;
    }
  }

  /** fuseops.ReadFileOp: asks for file bytes starting at byte `offset`,
      copied into `dst`. */
  class ReadFileOp {
    const inode: uint64
    const offset: int64
    const dst: array<byte>
    var bytesRead: int

    constructor (inode: uint64, offset: int64, dst: array<byte>)
      ensures this.inode == inode && this.offset == offset && this.dst == dst
      ensures bytesRead == 0
    {
      this.inode := inode;
      this.offset := offset;
      this.dst := dst;
      bytesRead := 0;
    }
  }
}
