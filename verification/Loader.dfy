/** From a command line to the program it names: the part of `execute` that decides whether there
    is something to run. */
module Loader {
  import opened CTypes
  import opened CStrings
  import opened FileImage
  import opened Directory
  import opened FileSystemModel
  import opened CommandLine
  import opened ProcessSpec
  import opened KernelModel

  const ELF_OFFSET := 1
  const ELF: seq<byte> := [69, 76, 70]

  /** The executable's mark follows its first byte. */
  ghost predicate IsExecutable(fs: FileSystem, k: int)
    requires Readable(fs.image, fs.g, fs.ds) && 0 <= k < |fs.ds|
  {
    Slice(FileBytes(fs.image, fs.g, fs.ds, k), ELF_OFFSET, |ELF|) == ELF
  }

  /** That is: bytes 1, 2 and 3 are E, L and F. */
  lemma ExecutableBytes(fs: FileSystem, k: int)
    requires Readable(fs.image, fs.g, fs.ds) && 0 <= k < |fs.ds|
    ensures var c := FileBytes(fs.image, fs.g, fs.ds, k);
            IsExecutable(fs, k) <==> |c| >= 4 && c[1] == 69 && c[2] == 76 && c[3] == 70
  {
    hide Readable, FileBytes;
    var c := FileBytes(fs.image, fs.g, fs.ds, k);
    var s := Slice(c, ELF_OFFSET, 3);
    if |c| >= 4 {
      assert s == c[1..4] == [c[1], c[2], c[3]];
      assert s[0] == c[1] && s[1] == c[2] && s[2] == c[3];
    }
  }

  lemma CutWhole(s: seq<byte>, rest: seq<byte>)
    ensures NUL !in s ==> Cut(s + rest, |s|) == s
    ensures Cut(s + rest, |s|) == s ==> NUL !in s
  {
    hide CString;
    assert (s + rest)[..|s|] == s;
    if NUL !in s {
      CutAt(s + rest, |s|, |s|);
    }
  }

  /** `execute_executable_check` */
  method ExecutableCheck(fs: FileSystem, filename: seq<byte>, ghost k: int) returns (r: int)
    requires fs.Valid() && NUL in filename && FirstNamed(fs.ds, CString(filename), k) && k != -1
    ensures r == 0 || r == -1
    ensures r == 0 <==> IsExecutable(fs, k)
  {
    assert IsDirectory(fs.ds);
    hide Readable, FileBytes, NameOf, CString, Slice, FirstNamed;
    var buf := new byte[|ELF|](i => NUL);
    var n;
    ghost var j;
    n, j := fs.ReadFile(filename, ELF_OFFSET, buf, |ELF|);
    FirstNamedOne(fs.ds, CString(filename), j, k);
    if Unsigned(n) < |ELF| {
      return -1;
    }
    assert buf[..n] == buf[..];
    var c := StrNCmp(buf[..], ELF + [NUL], |ELF|);
    CutWhole(ELF, [NUL]);
    CutWhole(buf[..], []);
    assert buf[..] + [] == buf[..];
    assert Cut(buf[..], |ELF|) == ELF <==> buf[..] == ELF;
    r := if c != 0 then -1 else 0;
  }

  /** What a lookup reads from the name buffer: the memory behind it belongs to it when the name fills it. */
  lemma NameInBuffer(filename: seq<byte>, name: seq<byte>, beyond: seq<byte>)
    requires |filename| == NAME_SIZE && Filled(filename, name) && NUL !in name && NUL in beyond
    ensures NUL in filename + beyond
    ensures CString(filename + beyond) == if |name| < NAME_SIZE then name else name + CString(beyond)
  {
    var whole := filename + beyond;
    assert whole[..|name|] == name;
    hide CString;
    if |name| < NAME_SIZE {
      assert whole[|name|] == NUL;
      CStringUnique(whole, |name|);
    } else {
      var c := CString(beyond);
      assert whole[..|name| + |c|] == name + c;
      CStringUnique(whole, |name| + |c|);
    }
    assert whole[NAME_SIZE..] == beyond;
  }

  /** Parsing, lookup and check, with the stack memory `beyond` that follows the name buffer. */
  method Classify(
    fs: FileSystem, command: seq<byte>, filename: array<byte>, args: array<byte>, beyond: seq<byte>)
    returns (c: Command, ghost k: int)
    requires fs.Valid() && NUL in command && NUL in beyond
    requires filename != args && filename.Length == NAME_SIZE && args.Length == ARGS_SIZE
    modifies filename, args
    ensures var name := Split(Effective(CString(command))).name;
            FirstNamed(fs.ds, if |name| < NAME_SIZE then name else name + CString(beyond), k)
    ensures c == if k != -1 && IsExecutable(fs, k) then Program else Unloadable
  {
    ParseArgs(filename, args, command);
    ghost var name := Split(Effective(CString(command))).name;
    NameNulFree(command);
    NameInBuffer(filename[..], name, beyond);
    hide Split, Effective, CString, Filled, NameOf, IsExecutable;
    var found := ReadDentryByName(fs.ds, filename[..] + beyond);
    k := found;
    if found == -1 {
      return Unloadable, k;
    }
    var r := ExecutableCheck(fs, filename[..] + beyond, k);
    c := if r != 0 then Unloadable else Program;
  }

  lemma NameNulFree(command: seq<byte>)
    ensures var name := Split(Effective(CString(command))).name; NUL !in name && |name| <= NAME_SIZE
  {
    var c := Effective(CString(command));
    hide CString, Spaces, WordLength;
    assert forall b <- Split(c).name :: b in c;
  }

  /** A 32-character name fills the buffer: no entry can be found unless the next byte in memory is NUL. */
  lemma FullName(ds: seq<seq<byte>>, name: seq<byte>, beyond: seq<byte>, k: int)
    requires IsDirectory(ds) && |name| == NAME_SIZE && NUL in beyond && FirstNamed(ds, name + CString(beyond), k)
    ensures beyond[0] == NUL ==> FirstNamed(ds, name, k)
    ensures beyond[0] != NUL ==> k == -1
  {
    if beyond[0] == NUL {
      assert name + [] == name;
    } else {
      assert |CString(beyond)| > 0;
    }
  }

  /** `execute` of a command line. */
  method ExecuteLine(
    kernel: Kernel, fs: FileSystem, command: seq<byte>, here: Ctx,
    filename: array<byte>, args: array<byte>, beyond: seq<byte>)
    returns (o: Outcome, ghost k: int)
    requires kernel.Valid() && fs.Valid() && NUL in command && NUL in beyond
    requires filename != args && filename.Length == NAME_SIZE && args.Length == ARGS_SIZE
    modifies filename, args
    modifies kernel`userPage, kernel`esp0, kernel`chains, kernel.pidArray, kernel.slots, kernel.terminal
    ensures kernel.Valid()
    ensures var name := Split(Effective(CString(command))).name;
            FirstNamed(fs.ds, if |name| < NAME_SIZE then name else name + CString(beyond), k)
    ensures var c := if k != -1 && IsExecutable(fs, k) then Program else Unloadable;
            (kernel.Abs(), o) == Execute(old(kernel.Abs()), c, here)
  {
    hide Split, Effective, CString, NameOf, IsExecutable, FirstNamed, Readable, Execute;
    var c;
    c, k := Classify(fs, command, filename, args, beyond);
    o := kernel.ExecuteCommand(c, here);
  }
}
