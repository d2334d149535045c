/** The directory-entry type and writer of the FUSE library (package fuseutil),
    with the byte layout of an entry left abstract. */
module Fuseutil {
  import opened Go

  /** fuseutil.DirentType */
  datatype DirentType =
    | DT_Unknown | DT_Socket | DT_Link | DT_File | DT_Block | DT_Directory | DT_Char | DT_FIFO

  /** fuseutil.Dirent: one directory entry. `offset` is the index a later
      read resumes at to continue after this entry. */
  datatype Dirent = Dirent(offset: uint64, inode: uint64, name: string, dtype: DirentType)

  /** The serialized form of a dirent. The library's layout (header, name,
      padding to 8 bytes) is not modelled; every statement is over any encoder. */
  type Encoder = Dirent -> seq<byte>

  /** fuseutil.WriteDirent(buf[from:], d): writes the whole serialized entry
      at `buf[from..]` and returns its length when it fits, and otherwise
      writes nothing and returns 0. */
  method WriteDirent(buf: array<byte>, from: nat, d: Dirent, encode: Encoder) returns (n: nat)
    requires from <= buf.Length
    modifies buf
    ensures n == (if |encode(d)| <= buf.Length - from then |encode(d)| else 0)
    ensures n == 0 || 0 < n <= buf.Length - from
    ensures n == 0 ==> buf[..] == old(buf[..])
    ensures n > 0 ==> buf[..] == old(buf[..])[..from] + encode(d) + old(buf[..])[from + n..]
  {
    var e := encode(d);
    if |e| > buf.Length - from {
      return 0;
    }
    forall j | 0 <= j < |e| {
      buf[from + j] := e[j];
    }
    n := |e|;
  }
}
