/** The kernel's C string routines, over buffers in place. */
module CStrings {
  import opened CTypes

  /** `strlen` */
  method StrLen(s: seq<byte>) returns (len: int)
    requires NUL in s
    ensures len == |CString(s)| && len < |s| && s[..len] == CString(s)
  {
    len := 0;
    while s[len] != NUL
      invariant 0 <= len < |s| && NUL !in s[..len]
      decreases |s| - len
    {
      assert s[..len + 1] == s[..len] + [s[len]];
      assert NUL in s[len + 1..];
      len := len + 1;
    }
    CStringUnique(s, len);
  }

  /** What `strncpy` leaves in `n` bytes: the string cut to n, then NULs. */
  function Padded(s: seq<byte>, n: nat): (r: seq<byte>)
    requires n <= |s|
    ensures |r| == n
  {
    CString(s[..n]) + seq(n - |CString(s[..n])|, _ => NUL)
  }

  /** Byte for byte: the string up to its first NUL, and NULs from there on. */
  lemma PaddedAt(s: seq<byte>, n: nat, i: nat)
    requires i < n <= |s|
    ensures Padded(s, n)[i] == if NUL in s[..i + 1] then NUL else s[i]
  {
    hide CString;
    var name := CString(s[..n]);
    assert i < |name| ==> s[i] == name[i] && s[..i + 1] == name[..i + 1];
    assert |name| <= i ==> s[..i + 1][|name|] == s[..n][|name|] == NUL;
  }

  /** The second loop of `strncpy`. */
  method NulFill(dest: array<byte>, from: int, n: int)
    requires 0 <= from <= n <= dest.Length
    modifies dest
    ensures dest[..n] == old(dest[..from]) + seq(n - from, _ => NUL) && dest[n..] == old(dest[n..])
  {
    for i := from to n
      invariant forall j :: 0 <= j < dest.Length ==> dest[j] == if from <= j < i then NUL else old(dest[j])
    {
      dest[i] := NUL;
    }
  }

  /** `strncpy` */
  method StrNCpy(dest: array<byte>, src: seq<byte>, n: int)
    requires 0 <= n <= dest.Length && n < |src|
    modifies dest
    ensures dest[..n] == Padded(src, n) && dest[n..] == old(dest[n..])
  {
    ghost var was := dest[..];
    var i := 0;
    while src[i] != NUL && i < n
      invariant 0 <= i <= n && NUL !in src[..i]
      invariant forall j :: 0 <= j < dest.Length ==> dest[j] == if j < i then src[j] else was[j]
      decreases n - i
    {
      dest[i] := src[i];
      assert src[..i + 1] == src[..i] + [src[i]];
      i := i + 1;
    }
    assert src[..n][..i] == src[..i];
    CStringUnique(src[..n], i);
    assert dest[..i] == src[..i];
    assert dest[n..] == was[n..];
    hide CString;
    NulFill(dest, i, n);
  }

  /** The string at the front of `s`, as far as a limit of `n` characters lets one see. */
  function Cut(s: seq<byte>, n: nat): seq<byte> {
    CString(if n < |s| then s[..n] else s)
  }

  lemma CutAt(s: seq<byte>, n: nat, i: nat)
    requires i <= n && i <= |s| && NUL !in s[..i]
    ensures i == n || (i < |s| && s[i] == NUL) ==> Cut(s, n) == s[..i]
    ensures i < n && i < |s| && s[i] != NUL ==> i < |Cut(s, n)| && Cut(s, n)[i] == s[i]
    ensures i <= |Cut(s, n)|
  {
    var t, c := if n < |s| then s[..n] else s, Cut(s, n);
    assert forall k :: 0 <= k < i ==> s[k] == s[..i][k] && s[k] != NUL;
    assert i <= |c|;
  }

  lemma NotYetEnded(s: seq<byte>, n: nat, i: nat)
    requires (n <= |s| || NUL in s) && i < n && i <= |s| && NUL !in s[..i]
    ensures i < |s|
  {
    assert s == s[..i] + s[i..];
  }

  /** `strncmp`: zero iff the strings agree as far as the limit. */
  method StrNCmp(s1: seq<byte>, s2: seq<byte>, n: nat) returns (r: int)
    requires (n <= |s1| || NUL in s1) && (n <= |s2| || NUL in s2)
    ensures r == 0 <==> Cut(s1, n) == Cut(s2, n)
  {
    hide CString;
    assert s1[..0] == s2[..0] == [];
    for i := 0 to n
      invariant i <= |s1| && i <= |s2| && s1[..i] == s2[..i] && NUL !in s1[..i]
    {
      NotYetEnded(s1, n, i);
      NotYetEnded(s2, n, i);
      CutAt(s1, n, i);
      CutAt(s2, n, i);
      if s1[i] != s2[i] || s1[i] == NUL {
        var c: int := s1[i];
        return c - s2[i];
      }
      assert s1[..i + 1] == s1[..i] + [s1[i]] && s2[..i + 1] == s2[..i] + [s2[i]];
    }
    CutAt(s1, n, n);
    CutAt(s2, n, n);
    return 0;
  }
}

/** Directory entries, looked up by name and by inode number. */
module Directory {
  import opened CTypes
  import opened CStrings
  import opened FileImage

  /** A 64-byte directory record: name, type, inode number, reserved. */
  predicate IsDentry(d: seq<byte>) { |d| == DENTRY_SIZE }

  function NameOf(d: seq<byte>): seq<byte>
    requires IsDentry(d)
  {
    CString(d[..NAME_LENGTH])
  }

  function TypeOf(d: seq<byte>): int
    requires IsDentry(d)
  {
    Word(d, NAME_LENGTH)
  }

  function InodeOf(d: seq<byte>): int
    requires IsDentry(d)
  {
    Word(d, NAME_LENGTH + 4)
  }

  predicate IsDirectory(ds: seq<seq<byte>>) {
    |ds| <= MAX_DENTRIES && forall i :: 0 <= i < |ds| ==> IsDentry(ds[i])
  }

  /** The first entry with this name, or -1. */
  ghost predicate FirstNamed(ds: seq<seq<byte>>, name: seq<byte>, k: int)
    requires IsDirectory(ds)
  {
    if k == -1 then forall i :: 0 <= i < |ds| ==> NameOf(ds[i]) != name
    else 0 <= k < |ds| && NameOf(ds[k]) == name && forall i :: 0 <= i < k ==> NameOf(ds[i]) != name
  }

  /** The first entry with this inode number, or -1. */
  ghost predicate FirstWithInode(ds: seq<seq<byte>>, inode: int, k: int)
    requires IsDirectory(ds)
  {
    if k == -1 then forall i :: 0 <= i < |ds| ==> InodeOf(ds[i]) != inode
    else 0 <= k < |ds| && InodeOf(ds[k]) == inode && forall i :: 0 <= i < k ==> InodeOf(ds[i]) != inode
  }

  lemma PaddedName(d: seq<byte>)
    requires IsDentry(d)
    ensures NUL in Padded(d, NAME_LENGTH) + [NUL] && CString(Padded(d, NAME_LENGTH) + [NUL]) == NameOf(d)
  {
    var name, whole := NameOf(d), Padded(d, NAME_LENGTH) + [NUL];
    assert whole[..|name|] == name;
    CStringUnique(whole, |name|);
    assert whole[NAME_LENGTH] == NUL;
  }

  /** The name comparison of `read_dentry_by_name`: equal lengths, then `strncmp`. */
  method SameName(d: seq<byte>, fname: seq<byte>, temp: array<byte>) returns (same: bool)
    requires IsDentry(d) && NUL in fname && temp.Length == NAME_LENGTH + 1 && temp[NAME_LENGTH] == NUL
    modifies temp
    ensures temp[NAME_LENGTH] == NUL && same == (NameOf(d) == CString(fname))
  {
    StrNCpy(temp, d, NAME_LENGTH);
    assert temp[..] == temp[..NAME_LENGTH] + [temp[NAME_LENGTH]] by {
      assert temp[NAME_LENGTH..][0] == NUL;
    }
    PaddedName(d);
    var wanted := StrLen(fname);
    var len := StrLen(temp[..]);
    if wanted != len {
      return false;
    }
    assert NUL !in temp[..][..len];
    CutAt(temp[..], len, len);
    CutAt(fname, len, len);
    var r := StrNCmp(temp[..], fname, len);
    same := r == 0;
  }

  /** `read_dentry_by_name` */
  method ReadDentryByName(ds: seq<seq<byte>>, fname: seq<byte>) returns (k: int)
    requires IsDirectory(ds) && NUL in fname
    ensures FirstNamed(ds, CString(fname), k)
  {
    var temp := new byte[NAME_LENGTH + 1](i => NUL);
    for i := 0 to |ds|
      invariant temp[NAME_LENGTH] == NUL
      invariant forall j :: 0 <= j < i ==> NameOf(ds[j]) != CString(fname)
    {
      var same := SameName(ds[i], fname, temp);
      if same {
        return i;
      }
    }
    return -1;
  }

  /** The inode search at the start of `fs_read`. */
  method FindInode(ds: seq<seq<byte>>, inode: int) returns (k: int)
    requires IsDirectory(ds)
    ensures FirstWithInode(ds, inode, k)
  {
    for i := 0 to |ds|
      invariant forall j :: 0 <= j < i ==> InodeOf(ds[j]) != inode
    {
      if inode == InodeOf(ds[i]) {
        return i;
      }
    }
    return -1;
  }

  // ---- the chase from inode number to entry to name to entry

  ghost predicate UniqueEntries(ds: seq<seq<byte>>)
    requires IsDirectory(ds)
  {
    forall i, j :: 0 <= i < j < |ds| ==> NameOf(ds[i]) != NameOf(ds[j]) && InodeOf(ds[i]) != InodeOf(ds[j])
  }

  /** A reader that goes from an inode number to its first entry, and from that entry's name to
      the first entry so named, ends at the inode it began with iff no earlier entry has the name. */
  lemma ChaseReturns(ds: seq<seq<byte>>, inode: int, i: int, j: int)
    requires IsDirectory(ds) && FirstWithInode(ds, inode, i) && i != -1
    requires FirstNamed(ds, NameOf(ds[i]), j)
    ensures 0 <= j <= i
    ensures InodeOf(ds[j]) == inode <==> j == i
  {
  }

  lemma UniqueChase(ds: seq<seq<byte>>, k: int, i: int, j: int)
    requires IsDirectory(ds) && UniqueEntries(ds) && 0 <= k < |ds|
    requires FirstWithInode(ds, InodeOf(ds[k]), i) && FirstNamed(ds, NameOf(ds[k]), j)
    ensures i == k && j == k
  {
  }

  // ---- directory sweeps

  /** One `read_directory` of at most `n` bytes: what it delivers and where the next one starts. */
  function DirStep(ds: seq<seq<byte>>, at: int, n: nat): (seq<byte>, int)
    requires IsDirectory(ds) && 0 <= at <= |ds|
  {
    if at == |ds| then ([], 0) else
    var name := NameOf(ds[at]);
    (name[..if n < |name| then n else |name|], at + 1)
  }

  /** The deliveries of `k` successive reads. */
  function Sweep(ds: seq<seq<byte>>, at: int, n: nat, k: nat): seq<seq<byte>>
    requires IsDirectory(ds) && 0 <= at <= |ds|
    decreases k
  {
    if k == 0 then [] else [DirStep(ds, at, n).0] + Sweep(ds, DirStep(ds, at, n).1, n, k - 1)
  }

  function CutNames(ds: seq<seq<byte>>, n: nat): (r: seq<seq<byte>>)
    requires IsDirectory(ds)
    ensures |r| == |ds|
    ensures forall i :: 0 <= i < |ds| ==> r[i] == NameOf(ds[i])[..if n < |NameOf(ds[i])| then n else |NameOf(ds[i])|]
  {
    seq(|ds|, i requires 0 <= i < |ds| => NameOf(ds[i])[..if n < |NameOf(ds[i])| then n else |NameOf(ds[i])|])
  }

  lemma SweepUnfold(ds: seq<seq<byte>>, at: int, n: nat, k: nat)
    requires IsDirectory(ds) && 0 <= at <= |ds| && k > 0
    ensures at < |ds| ==> Sweep(ds, at, n, k) == [CutNames(ds, n)[at]] + Sweep(ds, at + 1, n, k - 1)
    ensures at == |ds| ==> Sweep(ds, at, n, k) == [[]] + Sweep(ds, 0, n, k - 1)
  {
  }

  /** Every name once, in order, then nothing, then the same again for as long as one reads. */
  lemma {:induction false} SweepRepeats(ds: seq<seq<byte>>, at: int, n: nat, k: nat)
    requires IsDirectory(ds) && 0 <= at <= |ds|
    ensures Sweep(ds, at, n, |ds| - at + 1 + k) == CutNames(ds, n)[at..] + [[]] + Sweep(ds, 0, n, k)
    decreases |ds| - at
  {
    hide CutNames, DirStep, NameOf, Sweep;
    SweepUnfold(ds, at, n, |ds| - at + 1 + k);
    var names := CutNames(ds, n);
    if at < |ds| {
      SweepRepeats(ds, at + 1, n, k);
      Regroup(names, at, [[]], Sweep(ds, 0, n, k));
    } else {
      assert names[at..] == [];
    }
  }

  lemma Regroup(names: seq<seq<byte>>, at: int, b: seq<seq<byte>>, c: seq<seq<byte>>)
    requires 0 <= at < |names|
    ensures [names[at]] + (names[at + 1..] + b + c) == names[at..] + b + c
  {
  }

  /** A reader takes an empty delivery for the end of the directory; it is one iff no name is empty. */
  lemma EmptyMeansEnd(ds: seq<seq<byte>>, n: nat)
    requires IsDirectory(ds) && n > 0
    ensures (forall at :: 0 <= at <= |ds| ==> (DirStep(ds, at, n).0 == [] <==> at == |ds|)) <==>
            (forall i :: 0 <= i < |ds| ==> NameOf(ds[i]) != [])
  {
    if forall at :: 0 <= at <= |ds| ==> (DirStep(ds, at, n).0 == [] <==> at == |ds|) {
      forall i | 0 <= i < |ds|
        ensures NameOf(ds[i]) != []
      {
        assert DirStep(ds, i, n).0 != [];
      }
    }
  }
}
