/** What the adapter's directory and file reads promise across calls: the
    shape of one ReadDir answer, the paging protocol, agreement with name
    lookup, and sequential file reads. */
module AdapterProperties {
  import opened Go
  import opened Errors
  import opened Fuseops
  import opened Fuseutil
  import opened Filesystem

  /** The dirents of the whole listing from entry `i` on, serialized back to back. */
  function Rest(encode: Encoder, entries: Listing, i: nat): seq<byte>
    decreases |entries| - i
  {
    if i < |entries| then encode(DirentAt(entries, i)) + Rest(encode, entries, i + 1) else []
  }

  /** Every dirent from entry `i` on has a positive size of at most `cap`:
      each one fits into an empty buffer of `cap` bytes. */
  ghost predicate AllFit(encode: Encoder, entries: Listing, i: nat, cap: nat)
  {
    forall j :: i <= j < |entries| ==> 0 < |encode(DirentAt(entries, j))| <= cap
  }

  /** A run of dirents starting at `i` is the dirent of entry `i` followed by
      the run starting at `i + 1`. */
  lemma SerializeRunCons(encode: Encoder, entries: Listing, i: nat, k: nat)
    requires i < k <= |entries|
    ensures Serialize(encode, Dirents(entries, i, k))
      == encode(DirentAt(entries, i)) + Serialize(encode, Dirents(entries, i + 1, k))
  {
    var ds := Dirents(entries, i, k);
    assert ds[0] == DirentAt(entries, i);
    assert ds[1..] == Dirents(entries, i + 1, k);
  }

  /** The bytes ReadDir writes are exactly the dirents of the contiguous run
      of entries from `i` up to where it stops, in listing order. */
  lemma {:induction false} WrittenIsRun(encode: Encoder, entries: Listing, i: nat, room: nat)
    requires i <= |entries|
    ensures Written(encode, entries, i, room)
      == Serialize(encode, Dirents(entries, i, Accepted(encode, entries, i, room)))
    decreases |entries| - i
  {
    var k := Accepted(encode, entries, i, room);
    if i == |entries| {
      assert Dirents(entries, i, k) == [];
    } else {
      var e := encode(DirentAt(entries, i));
      if 0 < |e| <= room {
        SerializeRunCons(encode, entries, i, k);
        WrittenIsRun(encode, entries, i + 1, room - |e|);
      } else {
        assert Dirents(entries, i, k) == [];
      }
    }
  }

  /** The dirent for entry `j` of the run carries offset `j + 1`, the entry's
      inode and name and a type that says whether it is a directory; so the
      offset of the last dirent written is the index the next call starts at. */
  lemma RunDirents(entries: Listing, i: nat, k: nat)
    requires i <= k <= |entries|
    ensures var ds := Dirents(entries, i, k);
      && |ds| == k - i
      && (forall j :: i <= j < k ==>
            && ds[j - i].offset == j + 1
            && ds[j - i].inode == entries[j].inode
            && ds[j - i].name == entries[j].name
            && (ds[j - i].dtype == DT_Directory <==> entries[j].isDir)
            && (ds[j - i].dtype == DT_File <==> !entries[j].isDir))
      && (i < k ==> ds[|ds| - 1].offset == k)
  {
    var ds := Dirents(entries, i, k);
    forall j | i <= j < k
      ensures ds[j - i] == DirentAt(entries, j)
    {
    }
  }

  /** ReadDir stops at the first entry whose dirent does not fit in what is
      left of the room (or whose size is 0, which the writer reports as not
      fitting); every dirent it did write had a positive size. */
  lemma {:induction false} StopsAtFirstMisfit(encode: Encoder, entries: Listing, i: nat, room: nat)
    requires i <= |entries|
    ensures var k := Accepted(encode, entries, i, room);
      && (k < |entries| ==>
            !(0 < |encode(DirentAt(entries, k))| <= room - |Written(encode, entries, i, room)|))
      && (forall j :: i <= j < k ==> 0 < |encode(DirentAt(entries, j))|)
    decreases |entries| - i
  {
    if i < |entries| {
      var e := encode(DirentAt(entries, i));
      if 0 < |e| <= room {
        StopsAtFirstMisfit(encode, entries, i + 1, room - |e|);
      }
    }
  }

  /** What one ReadDir writes from entry `i` is a prefix of the rest of the
      listing, and what it leaves is the rest from the entry it stopped at. */
  lemma {:induction false} WrittenThenRest(encode: Encoder, entries: Listing, i: nat, room: nat)
    ensures Written(encode, entries, i, room) + Rest(encode, entries, Accepted(encode, entries, i, room))
      == Rest(encode, entries, i)
    decreases |entries| - i
  {
    if i < |entries| {
      var e := encode(DirentAt(entries, i));
      if 0 < |e| <= room {
        WrittenThenRest(encode, entries, i + 1, room - |e|);
      }
    }
  }

  /** With a buffer large enough for the whole rest of the listing (and no
      dirent of size 0), one ReadDir accepts every entry and writes all of it. */
  lemma {:induction false} LargeBufferTakesAll(encode: Encoder, entries: Listing, i: nat, room: nat)
    requires forall j :: i <= j < |entries| ==> 0 < |encode(DirentAt(entries, j))|
    requires room >= |Rest(encode, entries, i)|
    ensures Written(encode, entries, i, room) == Rest(encode, entries, i)
    ensures i < |entries| ==> Accepted(encode, entries, i, room) == |entries|
    decreases |entries| - i
  {
    if i < |entries| {
      var e := encode(DirentAt(entries, i));
      LargeBufferTakesAll(encode, entries, i + 1, room - |e|);
    }
  }

  /** The bytes a reader collects by calling ReadDir with a `cap`-byte buffer
      again and again, each call starting at the offset of the last dirent
      the previous call returned, until a call starts past the end. */
  function Paged(encode: Encoder, entries: Listing, start: nat, cap: nat): seq<byte>
    requires AllFit(encode, entries, start, cap)
    decreases |entries| - start
  {
    if start >= |entries| then []
    else
      var k := Accepted(encode, entries, start, cap);
      Written(encode, entries, start, cap) + Paged(encode, entries, k, cap)
  }

  /** Paging: over a stable listing in which every dirent fits an empty
      buffer, the pages concatenate to the whole listing from `start` on,
      which is also what one call with a large enough buffer returns. */
  lemma {:induction false} PagingEqualsOneCall(encode: Encoder, entries: Listing, start: nat, cap: nat, big: nat)
    requires AllFit(encode, entries, start, cap)
    requires big >= |Rest(encode, entries, start)|
    ensures Paged(encode, entries, start, cap) == Rest(encode, entries, start)
    ensures Written(encode, entries, start, big) == Paged(encode, entries, start, cap)
    decreases |entries| - start
  {
    LargeBufferTakesAll(encode, entries, start, big);
    if start < |entries| {
      var k := Accepted(encode, entries, start, cap);
      WrittenThenRest(encode, entries, start, cap);
      PagingEqualsOneCall(encode, entries, k, cap, |Rest(encode, entries, k)|);
    }
  }

  /** Every dirent ReadDir writes for a directory of a consistent provider
      names the inode that LookUpInode resolves its name to, and its type
      agrees with the mode LookUpInode reports for that name and with the
      mode GetInodeAttributes reports for that inode. */
  lemma ListedDirentsResolve(p: Provider, encode: Encoder, dir: uint64, offset: nat, room: nat, env: Env)
    requires ConsistentProvider(p)
    requires p.listDirectory(dir).Ok? && offset < |p.listDirectory(dir).value|
    ensures var entries := p.listDirectory(dir).value;
      forall d :: d in Dirents(entries, offset, Accepted(encode, entries, offset, room)) ==>
        && p.getChildInfo(dir, d.name).Ok?
        && p.getChildInfo(dir, d.name).value.inode == d.inode
        && (IsDirMode(GetDefaultAttributes(p.getChildInfo(dir, d.name).value, env).mode) <==>
            d.dtype == DT_Directory)
        && p.getChildInfo(d.inode, "").Ok?
        && (IsDirMode(GetDefaultAttributes(p.getChildInfo(d.inode, "").value, env).mode) <==>
            d.dtype == DT_Directory)
  {
    var entries := p.listDirectory(dir).value;
    var k := Accepted(encode, entries, offset, room);
    var ds := Dirents(entries, offset, k);
    forall d | d in ds
      ensures p.getChildInfo(dir, d.name).Ok?
      ensures p.getChildInfo(dir, d.name).value.inode == d.inode
      ensures IsDirMode(GetDefaultAttributes(p.getChildInfo(dir, d.name).value, env).mode) <==>
              d.dtype == DT_Directory
      ensures p.getChildInfo(d.inode, "").Ok?
      ensures IsDirMode(GetDefaultAttributes(p.getChildInfo(d.inode, "").value, env).mode) <==>
              d.dtype == DT_Directory
    {
      var j :| 0 <= j < |ds| && ds[j] == d;
      assert d == DirentAt(entries, offset + j);
      assert p.getChildInfo(dir, entries[offset + j].name) == Ok(entries[offset + j]);
      assert p.getChildInfo(entries[offset + j].inode, "") == Ok(entries[offset + j]);
    }
  }

  /** The bytes collected by reading a file from `offset` with a `cap`-byte
      buffer again and again, each read starting where the last one ended
      (`Min(cap, ...)` bytes further on), until the end is reached. */
  function ReadSequentially(content: Content, offset: nat, cap: nat): seq<byte>
    requires 0 < cap
    decreases |content| - offset
  {
    if offset >= |content| then []
    else ReadSpan(content, offset, cap) + ReadSequentially(content, offset + Min(cap, |content| - offset), cap)
  }

  /** Sequential reads return the file's content from `offset` to its end. */
  lemma {:induction false} SequentialReadsReturnContent(content: Content, offset: nat, cap: nat)
    requires 0 < cap && offset <= |content|
    ensures ReadSequentially(content, offset, cap) == content[offset..]
    decreases |content| - offset
  {
    if offset < |content| {
      var m := Min(cap, |content| - offset);
      SequentialReadsReturnContent(content, offset + m, cap);
      assert content[offset..] == content[offset..offset + m] + content[offset + m..];
    }
  }
}
