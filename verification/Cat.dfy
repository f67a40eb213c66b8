/** `cat`: what its read loop prints for a file, for the directory and for a device. */
module CatProgram {
  import opened CTypes
  import opened CStrings
  import opened FileImage
  import opened Directory
  import opened FileSystemModel

  const CHUNK := 1024

  /** The 32-byte name fields of the entries from `at` on. */
  function Listing(ds: seq<seq<byte>>, at: int): seq<byte>
    requires IsDirectory(ds) && 0 <= at <= |ds|
    decreases |ds| - at
  {
    if at == |ds| then [] else Padded(ds[at], NAME_LENGTH) + Listing(ds, at + 1)
  }

  /** What is left of a file from a position on. */
  function Tail(c: seq<byte>, position: int): seq<byte>
    requires 0 <= position
  {
    if position <= |c| then c[position..] else []
  }

  lemma SliceThenTail(c: seq<byte>, at: int, n: nat)
    requires 0 <= at && n > 0
    ensures Slice(c, at, n) + Tail(c, at + |Slice(c, at, n)|) == Tail(c, at)
    ensures Slice(c, at, n) == [] <==> Tail(c, at) == []
  {
  }

  lemma ListingStep(ds: seq<seq<byte>>, at: int, r: int, v: seq<byte>)
    requires IsDirectory(ds) && 0 <= at <= |ds| && DirRead(ds, at, CHUNK, r, v)
    ensures v[..r] == [] <==> Listing(ds, at) == []
    ensures r != 0 ==> v[..r] + Listing(ds, DirStep(ds, at, CHUNK).1) == Listing(ds, at)
  {
  }

  /** An open descriptor that `read` serves from the device, the directory or a file. */
  ghost predicate Open(fs: FileSystem, d: Fd, i: int, j: int)
    requires IsDirectory(fs.ds)
  {
    && d.used && d.position >= 0 && d.ops != NoOps && d.ops != TerminalOps
    && (d.ops != RtcOps ==> Reaches(fs.ds, d.inode, i, j))
  }

  /** What is still to come through a descriptor. */
  ghost function Rest(fs: FileSystem, d: Fd, i: int, j: int, cursor: int): seq<byte>
    requires Readable(fs.image, fs.g, fs.ds) && Open(fs, d, i, j) && 0 <= cursor <= |fs.ds|
  {
    if d.ops == RtcOps then []
    else if TypeOf(fs.ds[i]) == DIR_TYPE then Listing(fs.ds, cursor)
    else Tail(FileBytes(fs.image, fs.g, fs.ds, j), d.position)
  }

  lemma ReachesOne(ds: seq<seq<byte>>, inode: int, i: int, j: int, i': int, j': int)
    requires IsDirectory(ds) && Reaches(ds, inode, i, j) && Reaches(ds, inode, i', j')
    ensures i == i' && j == j'
  {
  }

  /** One served read takes its bytes off the front of what is still to come. */
  lemma ServedRest(fs: FileSystem, d: Fd, i: int, j: int, cursor: int, r: int, v: seq<byte>)
    requires Readable(fs.image, fs.g, fs.ds) && Open(fs, d, i, j) && d.ops != RtcOps && 0 <= cursor <= |fs.ds|
    requires Served(fs, i, j, d.position, cursor, CHUNK, r, v)
    ensures var d' := d.(position := d.position + r);
            && (v[..r] == [] <==> Rest(fs, d, i, j, cursor) == [])
            && (r != 0 ==> v[..r] + Rest(fs, d', i, j, Cursor(fs, i, cursor, CHUNK)) == Rest(fs, d, i, j, cursor))
  {
    hide FileBytes, TypeOf, Slice, Tail, Listing, DirStep, DirRead;
    if TypeOf(fs.ds[i]) == DIR_TYPE {
      ListingStep(fs.ds, cursor, r, v);
    } else {
      SliceThenTail(FileBytes(fs.image, fs.g, fs.ds, j), d.position, CHUNK);
    }
  }

  /** One read of `cat`: nothing exactly at the end, else the next part of what is to come. */
  method Next(fs: FileSystem, p: Process, fd: int, buf: array<byte>, ghost i: int, ghost j: int) returns (cnt: int)
    requires p.Valid() && fs.Valid() && 2 <= fd < FD_COUNT && buf.Length == CHUNK && Open(fs, p.fds[fd], i, j)
    modifies fs, buf, p.fds
    ensures p.Valid() && fs.Valid() && 0 <= cnt <= buf.Length && Open(fs, p.fds[fd], i, j)
    ensures p.fds[fd] == old(p.fds[fd]).(position := p.fds[fd].position)
    ensures cnt == 0 <==> old(Rest(fs, p.fds[fd], i, j, fs.dentriesRead)) == []
    ensures cnt != 0 ==>
              buf[..cnt] + Rest(fs, p.fds[fd], i, j, fs.dentriesRead) ==
              old(Rest(fs, p.fds[fd], i, j, fs.dentriesRead))
  {
    ghost var d, cursor := p.fds[fd], fs.dentriesRead;
    ghost var i', j';
    cnt, i', j' := p.Read(fs, fd, buf, CHUNK);
    hide FileBytes, Readable, TypeOf, Slice, DirStep, DirRead, Listing, Tail, Served, Cursor;
    if d.ops != RtcOps {
      Found(fs.ds, d.inode, i, j, i');
      ReachesOne(fs.ds, d.inode, i, j, i', j');
      hide Reaches;
      ServedRest(fs, d, i, j, cursor, cnt, buf[..]);
    }
  }

  lemma Found(ds: seq<seq<byte>>, inode: int, i: int, j: int, i': int)
    requires IsDirectory(ds) && Reaches(ds, inode, i, j) && FirstWithInode(ds, inode, i')
    ensures i' != -1
  {
  }

  /** The loop of `cat`: 1024 bytes at a time until nothing comes. */
  method Cat(fs: FileSystem, p: Process, fd: int, buf: array<byte>, ghost i: int, ghost j: int)
    returns (out: seq<byte>)
    requires p.Valid() && fs.Valid() && 2 <= fd < FD_COUNT && buf.Length == CHUNK && Open(fs, p.fds[fd], i, j)
    modifies fs, buf, p.fds
    ensures p.Valid() && fs.Valid() && out == old(Rest(fs, p.fds[fd], i, j, fs.dentriesRead))
  {
    assert IsDirectory(fs.ds);
    hide Rest, Readable, Open, IsDirectory;
    ghost var all := Rest(fs, p.fds[fd], i, j, fs.dentriesRead);
    ghost var rest := all;
    out := [];
    var cnt := 1;
    while cnt != 0
      invariant p.Valid() && fs.Valid() && fd < p.fds.Length && Open(fs, p.fds[fd], i, j)
      invariant cnt != 0 ==> rest == Rest(fs, p.fds[fd], i, j, fs.dentriesRead)
      invariant out + rest == all && (cnt == 0 ==> rest == [])
      decreases |rest|, cnt
    {
      hide Rest, Readable, Open, IsDirectory;
      ghost var was, before := out, rest;
      cnt := Next(fs, p, fd, buf, i, j);
      out := out + buf[..cnt];
      if cnt != 0 {
        rest := Rest(fs, p.fds[fd], i, j, fs.dentriesRead);
        Advance(was, buf[..cnt], rest, before);
      }
    }
  }

  lemma Advance(out: seq<byte>, chunk: seq<byte>, rest: seq<byte>, before: seq<byte>)
    requires before == chunk + rest
    ensures (out + chunk) + rest == out + before
  {
  }

  /** `cat` of a name, whatever it names. */
  method CatNamed(fs: FileSystem, p: Process, fname: seq<byte>, buf: array<byte>)
    returns (status: int, out: seq<byte>, ghost k: int, ghost i: int, ghost j: int)
    requires p.Valid() && fs.Valid() && NUL in fname && buf.Length == CHUNK
    modifies fs, buf, p.fds
    ensures FirstNamed(fs.ds, CString(fname), k)
    ensures status == 2 <==> k == -1 || forall n :: 0 <= n < FD_COUNT ==> old(p.fds[n].used)
    ensures status == 0 || status == 2
    ensures status == 0 ==> Reaches(fs.ds, InodeOf(fs.ds[k]), i, j)
    ensures status == 0 ==>
              out == if TypeOf(fs.ds[k]) == RTC_TYPE then []
                     else if TypeOf(fs.ds[i]) == DIR_TYPE then Listing(fs.ds, old(fs.dentriesRead))
                     else FileBytes(fs.image, fs.g, fs.ds, j)
    ensures status == 0 && TypeOf(fs.ds[k]) != RTC_TYPE && TypeOf(fs.ds[i]) != DIR_TYPE ==>
              out == if InodeOf(fs.ds[j]) < fs.g.inodes then Content(fs.image, fs.g, InodeOf(fs.ds[j])) else []
    ensures status == 0 && TypeOf(fs.ds[k]) != RTC_TYPE && TypeOf(fs.ds[i]) != DIR_TYPE && j == i ==>
              out == if InodeOf(fs.ds[k]) < fs.g.inodes then Content(fs.image, fs.g, InodeOf(fs.ds[k])) else []
  {
    var fd;
    i, j := -1, -1;
    fd, k := p.Open(fs, fname);
    if fd == -1 {
      return 2, [], k, i, j;
    }
    hide FileBytes, Readable, TypeOf, NameOf, InodeOf;
    i := FirstOfThatInode(fs.ds, k);
    j := FirstOfThatName(fs.ds, i);
    out := Cat(fs, p, fd, buf, i, j);
    OwnBytes(fs, k, i, j);
    status := 0;
  }

  lemma FirstOfThatInode(ds: seq<seq<byte>>, k: int) returns (i: int)
    requires IsDirectory(ds) && 0 <= k < |ds|
    ensures FirstWithInode(ds, InodeOf(ds[k]), i) && 0 <= i <= k
    decreases k
  {
    i := k;
    if m :| 0 <= m < k && InodeOf(ds[m]) == InodeOf(ds[k]) {
      i := FirstOfThatInode(ds, m);
    }
  }

  // ---- when it is the file that was named

  /** The entry that is read has the inode of the entry that was opened iff the first entry with
      that inode number is the first of its own name; then the bytes are the named file's. */
  lemma OwnBytes(fs: FileSystem, k: int, i: int, j: int)
    requires Readable(fs.image, fs.g, fs.ds) && 0 <= k < |fs.ds| && Reaches(fs.ds, InodeOf(fs.ds[k]), i, j)
    ensures InodeOf(fs.ds[j]) == InodeOf(fs.ds[k]) <==> j == i
    ensures j == i ==> FileBytes(fs.image, fs.g, fs.ds, j) == FileBytes(fs.image, fs.g, fs.ds, k)
  {
    ChaseReturns(fs.ds, InodeOf(fs.ds[k]), i, j);
  }

  /** Unique names alone are enough for that; inode numbers may be shared. */
  lemma UniqueNamesReturn(ds: seq<seq<byte>>, inode: int, i: int, j: int)
    requires IsDirectory(ds) && Reaches(ds, inode, i, j)
    requires forall a, b :: 0 <= a < b < |ds| ==> NameOf(ds[a]) != NameOf(ds[b])
    ensures j == i
  {
  }

  /** With unique inode numbers as well, the entry read is the entry opened. */
  lemma UniqueEntriesReturn(ds: seq<seq<byte>>, k: int, i: int, j: int)
    requires IsDirectory(ds) && UniqueEntries(ds) && 0 <= k < |ds| && Reaches(ds, InodeOf(ds[k]), i, j)
    ensures i == k && j == k
  {
    var j' := FirstOfThatName(ds, k);
    UniqueChase(ds, k, i, j');
  }
}
