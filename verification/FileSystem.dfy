/** The file system calls: opening by name, reading through a descriptor, listing the directory. */
module FileSystemModel {
  import opened CTypes
  import opened CStrings
  import opened FileImage
  import opened FileReader
  import opened Directory

  const FD_COUNT := 8

  /** Every file a directory entry leads to can be read to its end. */
  ghost predicate Readable(image: seq<byte>, g: Geometry, ds: seq<seq<byte>>) {
    && Fits(image, g) && IsDirectory(ds) && |ds| == g.dentries
    && (forall i :: 0 <= i < |ds| ==> TypeOf(ds[i]) <= FILE_TYPE)
    && (forall i :: 0 <= i < |ds| && InodeOf(ds[i]) < g.inodes ==> WellFormed(image, g, InodeOf(ds[i])))
  }

  /** The bytes of a file, none if its inode number is out of range. */
  ghost function FileBytes(image: seq<byte>, g: Geometry, ds: seq<seq<byte>>, k: int): (c: seq<byte>)
    requires Readable(image, g, ds) && 0 <= k < |ds|
    ensures InodeOf(ds[k]) < g.inodes ==> c == Content(image, g, InodeOf(ds[k]))
    ensures InodeOf(ds[k]) >= g.inodes ==> c == []
  {
    if InodeOf(ds[k]) < g.inodes then Content(image, g, InodeOf(ds[k])) else []
  }

  /** A signed byte count passed on as unsigned. */
  function Unsigned(n: int): (r: nat)
    requires -0x8000_0000 <= n < 0x8000_0000
    ensures r < 0x1_0000_0000 && (r - n) % 0x1_0000_0000 == 0
  {
    if n >= 0 then n else n + 0x1_0000_0000
  }

  /** What one `read_directory` leaves: the next name cut to the request, or, for a request of more
      than 32 bytes, all 32 bytes of the name field. */
  ghost predicate DirRead(ds: seq<seq<byte>>, at: int, n: nat, r: int, v: seq<byte>)
    requires IsDirectory(ds) && 0 <= at <= |ds|
  {
    0 <= r <= |v| && v[..r] ==
      if at == |ds| || n <= NAME_LENGTH then DirStep(ds, at, n).0 else Padded(ds[at], NAME_LENGTH)
  }

  /** The caller's buffer holds what can be asked for. */
  predicate RoomFor(size: int, n: int) {
    0 <= n <= size || size >= BLOCK * (BLOCK / 4)
  }

  lemma SmallType(d: seq<byte>)
    requires IsDentry(d) && TypeOf(d) < 256
    ensures d[NAME_LENGTH + 1] == NUL
  {
  }

  lemma FieldLength(d: seq<byte>, n: nat)
    requires IsDentry(d) && NUL in d && n <= NAME_LENGTH
    ensures (if n > |CString(d)| then |CString(d)| else n) == (if n < |NameOf(d)| then n else |NameOf(d)|)
    ensures |CString(d)| < NAME_LENGTH ==> NameOf(d) == CString(d)
    ensures n <= |CString(d)| ==> d[..n] == NameOf(d)[..n]
  {
    hide CString;
    var c := CString(d);
    if |c| < NAME_LENGTH {
      assert d[..NAME_LENGTH][..|c|] == c;
      CStringUnique(d[..NAME_LENGTH], |c|);
    } else {
      assert NUL !in d[..NAME_LENGTH] by {
        assert d[..NAME_LENGTH] == c[..NAME_LENGTH];
      }
      assert d[..NAME_LENGTH][..NAME_LENGTH] == d[..NAME_LENGTH];
      CStringUnique(d[..NAME_LENGTH], NAME_LENGTH);
    }
    assert n <= |CString(d)| ==> d[..NAME_LENGTH][..n] == d[..n];
  }

  class FileSystem {
    const image: seq<byte>
    const g: Geometry
    const ds: seq<seq<byte>>
    /** Where the next directory read starts; one cursor for the whole system. */
    var dentriesRead: int

    ghost predicate Valid()
      reads this
    {
      Readable(image, g, ds) && 0 <= dentriesRead <= |ds|
    }

    /** `init_fs` on a module whose boot block describes it. */
    constructor (module_: seq<byte>)
      requires |module_| >= BLOCK
      requires var h := Geometry(Word(module_, 0), Word(module_, 4), Word(module_, 8));
               Fits(module_, h) && Readable(module_, h, Entries(module_, h.dentries))
      ensures Valid() && image == module_ && dentriesRead == 0
      ensures g == Geometry(Word(module_, 0), Word(module_, 4), Word(module_, 8))
      ensures ds == Entries(module_, g.dentries) && |ds| == g.dentries
      ensures forall i :: 0 <= i < |ds| ==> ds[i] == module_[64 * (i + 1)..64 * (i + 2)]
    {
      image := module_;
      g := Geometry(Word(module_, 0), Word(module_, 4), Word(module_, 8));
      ds := Entries(module_, Word(module_, 0));
      dentriesRead := 0;
    }

    /** The directory entries follow the boot block's first 64 bytes. */
    static function Entries(m: seq<byte>, n: int): (r: seq<seq<byte>>)
      requires |m| >= BLOCK && 0 <= n <= MAX_DENTRIES
      ensures |r| == n && forall i :: 0 <= i < n ==> IsDentry(r[i])
    {
      seq(n, i requires 0 <= i < n => m[DENTRY_SIZE * (i + 1)..DENTRY_SIZE * (i + 2)])
    }

    /** `read_file` */
    method ReadFile(fname: seq<byte>, offset: int, buf: array<byte>, nbytes: int) returns (r: int, ghost k: int)
      requires Valid() && NUL in fname && 0 <= offset && -0x8000_0000 <= nbytes < 0x8000_0000
      requires RoomFor(buf.Length, nbytes)
      modifies buf
      ensures FirstNamed(ds, CString(fname), k) && (k == -1 ==> r == -1 && buf[..] == old(buf[..]))
      ensures k != -1 ==>
                var s := Slice(FileBytes(image, g, ds, k), offset, Unsigned(nbytes));
                0 <= r <= buf.Length && r == |s| && buf[..r] == s && buf[r..] == old(buf[r..])
      ensures k != -1 && InodeOf(ds[k]) >= g.inodes ==> r == 0
      ensures k != -1 && InodeOf(ds[k]) < g.inodes ==>
                0 <= r <= buf.Length && buf[..r] == Slice(Content(image, g, InodeOf(ds[k])), offset, Unsigned(nbytes))
    {
      var found := ReadDentryByName(ds, fname);
      k := found;
      if found == -1 {
        return -1, -1;
      }
      r := ReadData(image, g, InodeOf(ds[found]), offset, buf, Unsigned(nbytes));
    }

    /** `read_directory` */
    method ReadDirectory(buf: array<byte>, nbytes: nat) returns (r: int)
      requires Valid() && (nbytes <= buf.Length || NAME_LENGTH <= buf.Length)
      modifies this, buf
      ensures Valid() && 0 <= r <= buf.Length && buf[r..] == old(buf[r..])
      ensures dentriesRead == DirStep(ds, old(dentriesRead), nbytes).1
      ensures DirRead(ds, old(dentriesRead), nbytes, r, buf[..])
    {
      if dentriesRead == |ds| {
        dentriesRead := 0;
        return 0;
      }
      var d := ds[dentriesRead];
      SmallType(d);
      var length := StrLen(d);
      r := if nbytes > NAME_LENGTH then NAME_LENGTH else if nbytes > length then length else nbytes;
      if nbytes <= NAME_LENGTH {
        FieldLength(d, nbytes);
      }
      StrNCpy(buf, d, r);
      if nbytes <= NAME_LENGTH {
        CutIsName(d, nbytes, r);
      }
      dentriesRead := dentriesRead + 1;
    }

    /** The part of `fs_read` that looks the entry's name up again and reads by its type. */
    method ReadEntry(at: int, offset: int, buf: array<byte>, nbytes: int) returns (r: int, ghost j: int)
      requires Valid() && 0 <= at < |ds| && 0 <= offset && -0x8000_0000 <= nbytes < 0x8000_0000
      requires RoomFor(buf.Length, nbytes)
      modifies this, buf
      ensures Valid() && FirstNamed(ds, NameOf(ds[at]), j) && j != -1
      ensures 0 <= r <= buf.Length && buf[r..] == old(buf[r..])
      ensures TypeOf(ds[at]) != DIR_TYPE ==>
                var s := Slice(FileBytes(image, g, ds, j), offset, Unsigned(nbytes));
                buf[..r] == s && r == |s| && dentriesRead == old(dentriesRead)
      ensures TypeOf(ds[at]) == DIR_TYPE ==>
                dentriesRead == DirStep(ds, old(dentriesRead), Unsigned(nbytes)).1
      ensures TypeOf(ds[at]) == DIR_TYPE ==> DirRead(ds, old(dentriesRead), Unsigned(nbytes), r, buf[..])
    {
      var fileType := TypeOf(ds[at]);
      assert fileType == RTC_TYPE || fileType == DIR_TYPE || fileType == FILE_TYPE;
      hide NameOf, FileBytes, Slice, DirStep, TypeOf, FirstNamed, Padded;
      j := FirstOfThatName(ds, at);
      if fileType == FILE_TYPE || fileType == RTC_TYPE {
        var filename := NameBuffer(ds[at]);
        r, j := ReadFile(filename, offset, buf, nbytes);
        ghost var k := FirstOfThatName(ds, at);
        FirstNamedOne(ds, NameOf(ds[at]), j, k);
      } else {
        r := ReadDirectory(buf, Unsigned(nbytes));
      }
    }
  }

  lemma CutIsName(d: seq<byte>, n: nat, r: nat)
    requires IsDentry(d) && NUL in d && n <= NAME_LENGTH && r == if n < |NameOf(d)| then n else |NameOf(d)|
    ensures Padded(d, r) == NameOf(d)[..r]
  {
    FieldLength(d, r);
    assert d[..r] == NameOf(d)[..r];
    assert NUL !in d[..r];
    assert d[..r][..r] == d[..r];
    CStringUnique(d[..r], r);
  }

  datatype Ops = NoOps | TerminalOps | RtcOps | DirectoryOps | FileOps
  datatype Fd = Fd(ops: Ops, inode: int, position: int, used: bool)

  function OpsFor(fileType: int): (r: Ops)
    ensures r.RtcOps? <==> fileType == 0
    ensures r.DirectoryOps? <==> fileType == 1
    ensures fileType !in {0, 1} <==> r.FileOps?
  {
    if fileType == RTC_TYPE then RtcOps else if fileType == DIR_TYPE then DirectoryOps else FileOps
  }

  /** The entry whose bytes a descriptor for this inode number delivers: the first entry with the
      number, then the first entry with that entry's name. */
  ghost predicate Reaches(ds: seq<seq<byte>>, inode: int, i: int, j: int)
    requires IsDirectory(ds)
  {
    FirstWithInode(ds, inode, i) && i != -1 && FirstNamed(ds, NameOf(ds[i]), j) && j != -1
  }

  /** A file found at entry `i` and read at entry `j`, from `position`, or the directory read from
      its entry `at`: what a request for `n` bytes returns and leaves in the buffer. */
  ghost predicate Served(fs: FileSystem, i: int, j: int, position: int, at: int, n: nat, r: int, v: seq<byte>)
    requires Readable(fs.image, fs.g, fs.ds) && 0 <= i < |fs.ds| && 0 <= j < |fs.ds|
    requires 0 <= position && 0 <= at <= |fs.ds|
  {
    && 0 <= r <= |v|
    && (TypeOf(fs.ds[i]) == DIR_TYPE ==> DirRead(fs.ds, at, n, r, v))
    && (TypeOf(fs.ds[i]) != DIR_TYPE ==> v[..r] == Slice(FileBytes(fs.image, fs.g, fs.ds, j), position, n))
  }

  /** Where the directory cursor is after a read that found entry `i`. */
  ghost function Cursor(fs: FileSystem, i: int, at: int, n: nat): int
    requires IsDirectory(fs.ds) && 0 <= i < |fs.ds| && 0 <= at <= |fs.ds|
  {
    if TypeOf(fs.ds[i]) == DIR_TYPE then DirStep(fs.ds, at, n).1 else at
  }

  class Process {
    const fds: array<Fd>

    /** Descriptors 0 and 1 are the terminal, whatever is opened and closed. */
    ghost predicate Valid()
      reads fds
    {
      && fds.Length == FD_COUNT
      && (forall i :: 0 <= i < 2 ==> fds[i].used && fds[i].ops == TerminalOps)
      && (forall i :: 2 <= i < FD_COUNT && fds[i].used ==> fds[i].ops != NoOps && fds[i].ops != TerminalOps)
      && (forall i :: 0 <= i < FD_COUNT ==> fds[i].position >= 0)
    }

    /** The descriptor part of `execute_create_pcb`. */
    constructor ()
      ensures Valid() && fresh(fds) && forall i :: 2 <= i < FD_COUNT ==> !fds[i].used
    {
      fds := new Fd[FD_COUNT](i => Fd(if i < 2 then TerminalOps else NoOps, 0xFFFF_FFFF, 0, i < 2));
    }

    /** `open`: the lowest free descriptor, or no change at all. */
    method Open(fs: FileSystem, fname: seq<byte>) returns (r: int, ghost k: int)
      requires Valid() && fs.Valid() && NUL in fname
      modifies fds
      ensures Valid() && FirstNamed(fs.ds, CString(fname), k)
      ensures r == -1 <==> k == -1 || forall i :: 0 <= i < FD_COUNT ==> old(fds[i].used)
      ensures r == -1 ==> fds[..] == old(fds[..])
      ensures r != -1 ==> 2 <= r < FD_COUNT && !old(fds[r].used) && forall i :: 0 <= i < r ==> old(fds[i].used)
      ensures r != -1 ==>
                fds[..] == old(fds[..])[r := Fd(OpsFor(TypeOf(fs.ds[k])), InodeOf(fs.ds[k]), 0, true)]
    {
      var found := ReadDentryByName(fs.ds, fname);
      k := found;
      if found == -1 {
        return -1, -1;
      }
      r := 0;
      while r < FD_COUNT && fds[r].used
        invariant 0 <= r <= FD_COUNT && forall i :: 0 <= i < r ==> fds[i].used
      {
        r := r + 1;
      }
      if r == FD_COUNT {
        return -1, k;
      }
      var fileType := TypeOf(fs.ds[found]);
      fds[r] := fds[r].(ops := OpsFor(fileType));
      fds[r] := fds[r].(inode := InodeOf(fs.ds[found]));
      fds[r] := fds[r].(position := 0);
      fds[r] := fds[r].(used := true);
      if fileType != RTC_TYPE {
        var again := ReadDentryByName(fs.ds, fname);
        if again == -1 {
          r := -1;
        }
      }
    }

    /** `close` of any descriptor number. */
    method Close(fd: int) returns (r: int)
      requires Valid()
      modifies fds
      ensures Valid() && (r == 0 || r == -1)
      ensures r == 0 <==> 2 <= fd < FD_COUNT && old(fds[fd].used)
      ensures r == -1 ==> fds[..] == old(fds[..])
      ensures r == 0 ==> fds[..] == old(fds[..])[fd := old(fds[fd]).(used := false)]
    {
      if fd < 0 || fd >= FD_COUNT {
        return -1;
      }
      if fd == 0 || fd == 1 {
        return -1;
      }
      if !fds[fd].used {
        return -1;
      }
      fds[fd] := fds[fd].(used := false);
      return 0;
    }

    /** The loop of `halt` that closes every descriptor. */
    method CloseAll()
      requires Valid()
      modifies fds
      ensures Valid() && forall i :: 0 <= i < FD_COUNT ==> fds[i] == old(fds[i]).(used := i < 2)
    {
      for fd := 0 to FD_COUNT
        invariant Valid()
        invariant forall i :: 0 <= i < FD_COUNT ==>
                    fds[i] == if 2 <= i < fd then old(fds[i]).(used := false) else old(fds[i])
      {
        var _ := Close(fd);
      }
    }

    /** `fs_read`: from the inode number to an entry, to its name, to the file of that name. */
    method FsRead(fs: FileSystem, fd: int, buf: array<byte>, nbytes: int) returns (r: int, ghost i: int, ghost j: int)
      requires Valid() && fs.Valid() && 0 <= fd < FD_COUNT && -0x8000_0000 <= nbytes < 0x8000_0000
      requires RoomFor(buf.Length, nbytes)
      modifies fs, buf, fds
      ensures Valid() && fs.Valid() && FirstWithInode(fs.ds, old(fds[fd].inode), i)
      ensures i == -1 ==> r == -1 && fds[..] == old(fds[..]) && buf[..] == old(buf[..])
      ensures i == -1 ==> fs.dentriesRead == old(fs.dentriesRead)
      ensures i != -1 ==> Reaches(fs.ds, old(fds[fd].inode), i, j)
      ensures i != -1 ==>
                Served(fs, i, j, old(fds[fd].position), old(fs.dentriesRead), Unsigned(nbytes), r, buf[..])
      ensures i != -1 ==> fs.dentriesRead == Cursor(fs, i, old(fs.dentriesRead), Unsigned(nbytes))
      ensures i != -1 ==> buf[r..] == old(buf[r..])
      ensures i != -1 ==>
                fds[..] == old(fds[..])[fd := old(fds[fd]).(position := old(fds[fd].position) + r)]
    {
      var offset := fds[fd].position;
      var at := FindInode(fs.ds, fds[fd].inode);
      i, j := at, -1;
      if at == -1 {
        return -1, -1, -1;
      }
      r, j := fs.ReadEntry(at, offset, buf, nbytes);
      if r > 0 {
        fds[fd] := fds[fd].(position := fds[fd].position + r);
      }
    }

    /** `read`: dispatched by the operations the descriptor was opened with. */
    method Read(fs: FileSystem, fd: int, buf: array<byte>, nbytes: int) returns (r: int, ghost i: int, ghost j: int)
      requires Valid() && fs.Valid() && fd != 0 && -0x8000_0000 <= nbytes < 0x8000_0000
      requires RoomFor(buf.Length, nbytes)
      modifies fs, buf, fds
      ensures Valid() && fs.Valid()
      ensures var readable := 2 <= fd < FD_COUNT && old(fds[fd].used);
              && (!readable ==> r == -1)
              && (readable && old(fds[fd].ops) == RtcOps ==> r == 0)
              && (!readable || old(fds[fd].ops) == RtcOps ==>
                    fds[..] == old(fds[..]) && buf[..] == old(buf[..]) && fs.dentriesRead == old(fs.dentriesRead))
      ensures 2 <= fd < FD_COUNT && old(fds[fd].used && fds[fd].ops != RtcOps) ==>
                && FirstWithInode(fs.ds, old(fds[fd].inode), i)
                && (i == -1 ==> r == -1 && fds[..] == old(fds[..]) && buf[..] == old(buf[..]))
                && (i == -1 ==> fs.dentriesRead == old(fs.dentriesRead))
                && (i != -1 ==>
                      && Reaches(fs.ds, old(fds[fd].inode), i, j)
                      && Served(fs, i, j, old(fds[fd].position), old(fs.dentriesRead), Unsigned(nbytes), r, buf[..])
                      && fs.dentriesRead == Cursor(fs, i, old(fs.dentriesRead), Unsigned(nbytes))
                      && buf[r..] == old(buf[r..])
                      && fds[..] == old(fds[..])[fd := old(fds[fd]).(position := old(fds[fd].position) + r)])
    {
      hide Served, Cursor, Reaches, FirstWithInode, Readable;
      i, j := -1, -1;
      if fd < 0 || fd >= FD_COUNT {
        return -1, i, j;
      }
      if fd == 1 {
        return -1, i, j;
      }
      if !fds[fd].used {
        return -1, i, j;
      }
      match fds[fd].ops
      case RtcOps => r := 0;
      case DirectoryOps => r, i, j := FsRead(fs, fd, buf, nbytes);
      case FileOps => r, i, j := FsRead(fs, fd, buf, nbytes);
    }
  }

  /** The 33-byte buffer that closes a name of up to 32 characters with a NUL. */
  method NameBuffer(d: seq<byte>) returns (name: seq<byte>)
    requires IsDentry(d)
    ensures NUL in name && CString(name) == NameOf(d)
  {
    var buffer := new byte[NAME_LENGTH + 1](n => NUL);
    StrNCpy(buffer, d, NAME_LENGTH);
    assert buffer[NAME_LENGTH] == buffer[NAME_LENGTH..][0];
    name := buffer[..];
    assert name == Padded(d, NAME_LENGTH) + [NUL];
    PaddedName(d);
  }

  lemma FirstNamedOne(ds: seq<seq<byte>>, name: seq<byte>, j: int, k: int)
    requires IsDirectory(ds) && FirstNamed(ds, name, j) && FirstNamed(ds, name, k)
    ensures j == k
  {
  }

  lemma FirstOfThatName(ds: seq<seq<byte>>, i: int) returns (k: int)
    requires IsDirectory(ds) && 0 <= i < |ds|
    ensures FirstNamed(ds, NameOf(ds[i]), k) && k != -1
    decreases i
  {
    k := i;
    if exists m :: 0 <= m < i && NameOf(ds[m]) == NameOf(ds[i]) {
      var m :| 0 <= m < i && NameOf(ds[m]) == NameOf(ds[i]);
      k := FirstOfThatName(ds, m);
    }
  }

  // ---- reading a file from end to end

  /** The results of successive reads of the sizes `ns`, from position `at`. */
  ghost function Reads(c: seq<byte>, at: int, ns: seq<nat>): seq<byte>
    requires 0 <= at
    decreases |ns|
  {
    if ns == [] then [] else Slice(c, at, ns[0]) + Reads(c, at + |Slice(c, at, ns[0])|, ns[1..])
  }

  function Sum(ns: seq<nat>): nat {
    if ns == [] then 0 else ns[0] + Sum(ns[1..])
  }

  lemma SlicesJoin(c: seq<byte>, at: int, m: nat, n: nat)
    requires 0 <= at <= |c|
    ensures at + |Slice(c, at, m)| <= |c|
    ensures Slice(c, at, m) + Slice(c, at + |Slice(c, at, m)|, n) == Slice(c, at, m + n)
  {
  }

  lemma SliceNone(c: seq<byte>, at: int)
    requires 0 <= at
    ensures Slice(c, at, 0) == []
  {
  }

  lemma ReadsUnfold(c: seq<byte>, at: int, ns: seq<nat>)
    requires 0 <= at
    ensures ns == [] ==> Reads(c, at, ns) == [] && Sum(ns) == 0
    ensures ns != [] ==> Sum(ns) == ns[0] + Sum(ns[1..])
    ensures ns != [] ==>
              Reads(c, at, ns) == Slice(c, at, ns[0]) + Reads(c, at + |Slice(c, at, ns[0])|, ns[1..])
  {
    hide Slice;
  }

  /** However a file is cut into reads, they join up to one read of their total size. */
  lemma {:induction false} ReadsJoin(c: seq<byte>, at: int, ns: seq<nat>)
    requires 0 <= at <= |c|
    ensures Reads(c, at, ns) == Slice(c, at, Sum(ns))
    decreases |ns|
  {
    hide Slice, Reads, Sum;
    ReadsUnfold(c, at, ns);
    if ns == [] {
      SliceNone(c, at);
    } else {
      SlicesJoin(c, at, ns[0], Sum(ns[1..]));
      ReadsJoin(c, at + |Slice(c, at, ns[0])|, ns[1..]);
    }
  }

  /** A read of at least one byte delivers nothing exactly when everything has been delivered. */
  lemma EmptyReadIsEnd(c: seq<byte>, at: int, n: nat)
    requires 0 <= at <= |c| && n > 0
    ensures Slice(c, at, n) == [] <==> at == |c|
  {
  }

  /** The documented end of file is one byte earlier; the two agree on a read iff it stops short of
      that byte. */
  lemma OneBytePastTheEnd(c: seq<byte>, at: int, n: nat)
    requires 0 <= at && c != []
    ensures Slice(c, at, n) == Slice(c[..|c| - 1], at, n) <==> at >= |c| || at + n < |c|
  {
    var d := c[..|c| - 1];
    if at + n < |c| {
      assert at < |d| ==> d[at..at + n] == c[at..at + n];
    }
  }
}
