/** `execute_parse_args`: a command line cut into a file name and its arguments. */
module CommandLine {
  import opened CTypes
  import opened CStrings

  const NAME_SIZE := 32
  const ARGS_SIZE := 128

  ghost predicate AllSpaces(s: seq<byte>) { forall i :: 0 <= i < |s| ==> s[i] == SPACE }
  ghost predicate NoSpaces(s: seq<byte>) { forall i :: 0 <= i < |s| ==> s[i] != SPACE }

  /** How many spaces a text begins with. */
  function Spaces(s: seq<byte>): (n: nat)
    ensures n <= |s| && (n < |s| ==> s[n] != SPACE)
    ensures forall i :: 0 <= i < n ==> s[i] == SPACE
  {
    if s == [] || s[0] != SPACE then 0 else 1 + Spaces(s[1..])
  }

  /** How many other characters it begins with, counted up to a limit. */
  function WordLength(s: seq<byte>, limit: nat): (n: nat)
    ensures n <= |s| && n <= limit && (n < |s| && n < limit ==> s[n] == SPACE)
    ensures forall i :: 0 <= i < n ==> s[i] != SPACE
  {
    if s == [] || limit == 0 || s[0] == SPACE then 0 else 1 + WordLength(s[1..], limit - 1)
  }

  lemma {:induction false} SpacesUnique(s: seq<byte>, n: nat)
    requires n <= |s| && (n < |s| ==> s[n] != SPACE) && forall i :: 0 <= i < n ==> s[i] == SPACE
    ensures Spaces(s) == n
  {
    if n > 0 {
      SpacesUnique(s[1..], n - 1);
    }
  }

  lemma {:induction false} WordUnique(s: seq<byte>, limit: nat, n: nat)
    requires n <= |s| && n <= limit && (n < |s| && n < limit ==> s[n] == SPACE)
    requires forall i :: 0 <= i < n ==> s[i] != SPACE
    ensures WordLength(s, limit) == n
  {
    if n > 0 {
      WordUnique(s[1..], limit - 1, n - 1);
    }
  }

  datatype Parts = Parts(name: seq<byte>, args: seq<byte>)

  function Prefix(s: seq<byte>, n: nat): seq<byte> {
    if n < |s| then s[..n] else s
  }

  /** The name and the arguments of a command text. */
  function Split(c: seq<byte>): Parts {
    var a := c[Spaces(c)..];
    var n := WordLength(a, NAME_SIZE);
    var b := a[n..];
    Parts(a[..n], Prefix(b[Spaces(b)..], ARGS_SIZE))
  }

  /** The command's length is kept in eight bits, so only this much of it is looked at. */
  function Effective(c: seq<byte>): (r: seq<byte>)
    ensures |r| == |c| % 256 && r <= c
  {
    c[..|c| % 256]
  }

  /** The loops that strip spaces. */
  method SkipSpaces(command: seq<byte>, i: int, length: int) returns (j: int)
    requires 0 <= i <= length < |command|
    ensures j == i + Spaces(command[i..length])
  {
    j := i;
    while command[j] == SPACE && j < length
      invariant i <= j <= length && forall k :: i <= k < j ==> command[k] == SPACE
      decreases length - j
    {
      j := j + 1;
    }
    SpacesUnique(command[i..length], j - i);
  }

  /** A buffer that holds a text and then NULs. */
  ghost predicate Filled(v: seq<byte>, text: seq<byte>) {
    |text| <= |v| && v == text + seq(|v| - |text|, _ => NUL)
  }

  /** The loop that fills the name buffer. */
  method TakeName(filename: array<byte>, command: seq<byte>, i: int, length: int) returns (j: int)
    requires filename.Length == NAME_SIZE && 0 <= i <= length < |command| && Filled(filename[..], [])
    modifies filename
    ensures j == i + WordLength(command[i..length], NAME_SIZE) && Filled(filename[..], command[i..j])
  {
    j := i;
    var n := 0;
    while command[j] != SPACE && j < length && n < NAME_SIZE
      invariant 0 <= n <= NAME_SIZE && j == i + n && j <= length
      invariant forall k :: i <= k < j ==> command[k] != SPACE
      invariant Filled(filename[..], command[i..j])
      decreases length - j
    {
      filename[n] := command[j];
      j := j + 1;
      n := n + 1;
    }
    WordUnique(command[i..length], NAME_SIZE, n);
  }

  /** The loop that fills the argument buffer. */
  method TakeArgs(args: array<byte>, command: seq<byte>, i: int, length: int)
    requires args.Length == ARGS_SIZE && 0 <= i <= length < |command| && Filled(args[..], [])
    modifies args
    ensures Filled(args[..], Prefix(command[i..length], ARGS_SIZE))
  {
    var j, n := i, 0;
    while j < length && n < ARGS_SIZE
      invariant 0 <= n <= ARGS_SIZE && j == i + n && j <= length
      invariant Filled(args[..], command[i..j])
      decreases length - j
    {
      args[n] := command[j];
      j := j + 1;
      n := n + 1;
    }
    assert command[i..length][..n] == command[i..j];
  }

  /** `execute_parse_args`, with the buffers it fills. */
  method ParseArgs(filename: array<byte>, args: array<byte>, command: seq<byte>)
    requires filename != args && filename.Length == NAME_SIZE && args.Length == ARGS_SIZE && NUL in command
    modifies filename, args
    ensures Filled(filename[..], Split(Effective(CString(command))).name)
    ensures Filled(args[..], Split(Effective(CString(command))).args)
  {
    forall i | 0 <= i < NAME_SIZE { filename[i] := NUL; }
    forall i | 0 <= i < ARGS_SIZE { args[i] := NUL; }
    assert Filled(filename[..], []) && Filled(args[..], []);
    var length := StrLen(command);
    length := length % 256;
    ghost var c := Effective(CString(command));
    assert command[0..length] == c;
    hide Spaces, WordLength, CString, Filled;
    var i := SkipSpaces(command, 0, length);
    var j := TakeName(filename, command, i, length);
    var k := SkipSpaces(command, j, length);
    TakeArgs(args, command, k, length);
    SplitAt(command, length, c, i, j, k);
  }

  lemma SplitAt(command: seq<byte>, length: int, c: seq<byte>, i: int, j: int, k: int)
    requires 0 <= length < |command| && c == command[..length] && i == Spaces(c)
    requires j == i + WordLength(command[i..length], NAME_SIZE) && k == j + Spaces(command[j..length])
    ensures Split(c) == Parts(command[i..j], Prefix(command[k..length], ARGS_SIZE))
  {
    hide Spaces, WordLength, Prefix;
    SliceOfSlice(command, 0, length, i, length);
    assert command[0..length] == c && c[i..length] == c[i..] == command[i..length];
    SliceOfSlice(command, i, length, 0, j - i);
    SliceOfSlice(command, i, length, j - i, length - i);
    SliceOfSlice(command, j, length, k - j, length - j);
  }

  lemma Parted(s: seq<byte>, n: nat)
    requires n <= |s|
    ensures s == s[..n] + s[n..]
  {
  }

  lemma PrefixParts(s: seq<byte>, n: nat)
    ensures |Prefix(s, n)| <= |s| && s == Prefix(s, n) + s[|Prefix(s, n)|..]
    ensures s[|Prefix(s, n)|..] != [] ==> |Prefix(s, n)| == n
    ensures Prefix(s, n) != [] ==> s != [] && Prefix(s, n)[0] == s[0]
  {
  }

  /** Nothing is lost but spaces, and what comes after the 128th byte of the arguments. */
  lemma SplitCovers(c: seq<byte>) returns (pad1: seq<byte>, pad2: seq<byte>, rest: seq<byte>)
    ensures AllSpaces(pad1) && AllSpaces(pad2) && NoSpaces(Split(c).name)
    ensures c == pad1 + (Split(c).name + (pad2 + (Split(c).args + rest)))
    ensures rest != [] ==> |Split(c).args| == ARGS_SIZE
    ensures |Split(c).name| <= 32 && (Split(c).name == [] ==> c == pad1)
    ensures |Split(c).name| < 32 && Split(c).args != [] ==> pad2 != []
    ensures Split(c).args != [] ==> Split(c).args[0] != SPACE
  {
    hide Spaces, WordLength, Prefix;
    var a := c[Spaces(c)..];
    var n := WordLength(a, NAME_SIZE);
    var b := a[n..];
    var d := b[Spaces(b)..];
    PrefixParts(d, ARGS_SIZE);
    pad1, pad2, rest := c[..Spaces(c)], b[..Spaces(b)], d[|Prefix(d, ARGS_SIZE)|..];
    Parted(c, Spaces(c));
    Parted(a, n);
    Parted(b, Spaces(b));
  }

  /** A command line as a user composes it. */
  ghost predicate Composed(pad1: seq<byte>, name: seq<byte>, pad2: seq<byte>, args: seq<byte>) {
    && AllSpaces(pad1) && AllSpaces(pad2) && NoSpaces(name)
    && (name == [] ==> args == [])
    && (args != [] ==> args[0] != SPACE && pad2 != [])
  }

  lemma SplitFits(pad1: seq<byte>, name: seq<byte>, pad2: seq<byte>, args: seq<byte>)
    requires Composed(pad1, name, pad2, args) && name != [] && |name| <= NAME_SIZE
    ensures Split(pad1 + (name + (pad2 + args))) == Parts(name, Prefix(args, ARGS_SIZE))
  {
    var b := pad2 + args;
    var a := name + b;
    var c := pad1 + a;
    SpacesUnique(c, |pad1|);
    WordUnique(a, NAME_SIZE, |name|);
    SpacesUnique(b, |pad2|);
    hide Spaces, WordLength;
    assert c[|pad1|..] == a;
    assert a[..|name|] == name && a[|name|..] == b;
    assert b[|pad2|..] == args;
  }

  lemma SplitBlank(c: seq<byte>)
    requires AllSpaces(c)
    ensures Split(c) == Parts([], [])
  {
    SpacesUnique(c, |c|);
  }

  /** Name and arguments are recovered under any padding iff they fit their buffers. */
  lemma SplitRecovers(pad1: seq<byte>, name: seq<byte>, pad2: seq<byte>, args: seq<byte>)
    requires Composed(pad1, name, pad2, args)
    ensures Split(pad1 + (name + (pad2 + args))) == Parts(name, args) <==> |name| <= NAME_SIZE && |args| <= ARGS_SIZE
  {
    if name == [] {
      SplitBlank(pad1 + (name + (pad2 + args)));
    } else if |name| <= NAME_SIZE {
      SplitFits(pad1, name, pad2, args);
    }
  }

  /** The part of a composed command that its first `n` bytes are. */
  lemma CutComposed(pad1: seq<byte>, name: seq<byte>, pad2: seq<byte>, args: seq<byte>, n: nat)
    requires Composed(pad1, name, pad2, args) && name != []
    requires n < |pad1 + (name + (pad2 + args))|
    ensures Split((pad1 + (name + (pad2 + args)))[..n]) == Parts(name, args) <==>
            |name| <= NAME_SIZE && args == [] && |pad1| + |name| <= n
  {
    hide Split;
    var c := pad1 + (name + (pad2 + args));
    if n <= |pad1| {
      assert c[..n] == pad1[..n];
      SplitBlank(c[..n]);
    } else if n < |pad1| + |name| {
      var m := n - |pad1|;
      assert c[..n] == pad1 + (name[..m] + ([] + []));
      SplitRecovers(pad1, name[..m], [], []);
      SplitWidth(c[..n]);
    } else if n <= |pad1| + |name| + |pad2| {
      var m := n - |pad1| - |name|;
      assert c[..n] == pad1 + (name + (pad2[..m] + []));
      SplitRecovers(pad1, name, pad2[..m], []);
      SplitShort(pad1, name, pad2[..m], []);
    } else {
      var m := n - |pad1| - |name| - |pad2|;
      assert c[..n] == pad1 + (name + (pad2 + args[..m]));
      SplitShort(pad1, name, pad2, args[..m]);
    }
  }

  lemma SplitWidth(c: seq<byte>)
    ensures |Split(c).name| <= NAME_SIZE
  {
  }

  /** The arguments found are never longer than those given, unless the name was too long. */
  lemma SplitShort(pad1: seq<byte>, name: seq<byte>, pad2: seq<byte>, args: seq<byte>)
    requires Composed(pad1, name, pad2, args) && name != []
    ensures var p := Split(pad1 + (name + (pad2 + args))); |p.name| < |name| || |p.args| <= |args|
  {
    SplitWidth(pad1 + (name + (pad2 + args)));
    if |name| <= NAME_SIZE {
      SplitFits(pad1, name, pad2, args);
    }
  }

  /** The whole parser: a composed command of any length is recovered iff the parts fit and the
      length fits eight bits, or what the eight-bit length cuts off is only padding. */
  lemma ParsedRecovers(pad1: seq<byte>, name: seq<byte>, pad2: seq<byte>, args: seq<byte>)
    requires Composed(pad1, name, pad2, args) && name != []
    ensures var c := pad1 + (name + (pad2 + args));
            Split(Effective(c)) == Parts(name, args) <==>
              |name| <= NAME_SIZE && |args| <= ARGS_SIZE &&
              (|c| < 256 || (args == [] && |pad1| + |name| <= |c| % 256))
  {
    var c := pad1 + (name + (pad2 + args));
    if |c| < 256 {
      assert Effective(c) == c;
      SplitRecovers(pad1, name, pad2, args);
    } else {
      CutComposed(pad1, name, pad2, args, |c| % 256);
    }
  }
}
