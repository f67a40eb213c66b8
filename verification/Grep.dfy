/** `do_one_file`: one 1025-byte array, filled from the file, cut into lines in place, with the
    unfinished line moved to the front before the next read. */
module Grep {
  import opened CTypes
  import opened GrepSpec
  import opened FileImage

  /** A NUL can only be the last byte of what is left (see `GrepSpec.TrailingNulUnseen`). */
  ghost predicate NulOnlyLast(text: seq<byte>) {
    forall i :: 0 <= i < |text| - 1 ==> text[i] != NUL
  }

  /** `ece391_strncmp` of the buffer at `at` with the whole pattern. */
  method StrNCmp(data: array<byte>, at: int, s: seq<byte>, ghost end: int) returns (r: int)
    requires 0 <= at <= end < data.Length && data[end] == NUL && NUL !in s
    ensures r == 0 <==> at + |s| <= end && data[at..at + |s|] == s
  {
    if |s| == 0 {
      return 0;
    }
    var i := 0;
    while data[at + i] == s[i]
      invariant 0 <= i < |s| && at + i <= end
      invariant data[at..at + i] == s[..i]
      decreases |s| - i
    {
      assert at + i < end;
      assert data[at..at + i + 1] == s[..i + 1];
      if i + 1 == |s| {
        return 0;
      }
      i := i + 1;
    }
    assert at + |s| <= end ==> data[at..at + |s|][i] == data[at + i];
    var c: int := data[at + i];
    return c - s[i];
  }

  /** Position of the first NUL at or after `src`. */
  ghost predicate NulAt(v: seq<byte>, src: int, k: int) {
    0 <= src <= k < |v| && v[k] == NUL && forall j :: src <= j < k ==> v[j] != NUL
  }

  /** `ece391_strcpy` of the buffer's tail onto its own front, forwards. */
  method StrCpyDown(data: array<byte>, src: int, ghost k: int)
    requires NulAt(data[..], src, k)
    modifies data
    ensures forall j :: 0 <= j <= k - src ==> data[j] == old(data[src + j])
    ensures forall j :: k - src < j < data.Length ==> data[j] == old(data[j])
  {
    ghost var was := data[..];
    var i := 0;
    while data[src + i] != NUL
      invariant 0 <= i && src + i <= k
      invariant forall j :: 0 <= j < i ==> data[j] == was[src + j]
      invariant forall j :: i <= j < data.Length ==> data[j] == was[j]
      decreases k - i
    {
      assert data[src + i] == was[src + i] && src + i < k;
      data[i] := data[src + i];
      i := i + 1;
    }
    assert data[src + i] == was[src + i];
    data[i] := data[src + i];
  }

  /** The search loop over one line, which is closed by a NUL at `end`. */
  method SearchLine(data: array<byte>, start: int, end: int, s: seq<byte>) returns (found: bool)
    requires 0 <= start <= end < data.Length && data[end] == NUL && NUL !in s && s != []
    ensures found == Contains(data[start..end], s)
  {
    ghost var line := data[start..end];
    for check := start to end
      invariant forall k :: 0 <= k < check - start ==> !MatchesAt(line, s, k)
    {
      if s[0] == data[check] {
        var r := StrNCmp(data, check, s, end);
        MatchIsSlice(data[..], start, end, s, check);
        if r == 0 {
          return true;
        }
      } else {
        MatchIsSlice(data[..], start, end, s, check);
        assert check + |s| <= end ==> data[check..check + |s|][0] == data[check];
      }
    }
    return false;
  }

  lemma MatchIsSlice(v: seq<byte>, start: int, end: int, s: seq<byte>, check: int)
    requires 0 <= start <= check <= end <= |v|
    ensures MatchesAt(v[start..end], s, check - start) <==> check + |s| <= end && v[check..check + |s|] == s
  {
    if check + |s| <= end {
      SliceOfSlice(v, start, end, check - start, check - start + |s|);
    }
  }

  /** `ece391_fdputs` of a line: what is written stops at the first NUL. */
  method PutLine(data: array<byte>, start: int, ghost end: int) returns (line: seq<byte>)
    requires 0 <= start <= end < data.Length && data[end] == NUL
    ensures line == CString(data[start..end])
  {
    var len := 0;
    while data[start + len] != NUL
      invariant 0 <= len && start + len <= end
      invariant forall j :: start <= j < start + len ==> data[j] != NUL
      decreases end - len
    {
      len := len + 1;
    }
    line := data[start..start + len];
    CStringUnique(data[start..end], len);
    assert data[start..end][..len] == line;
  }

  /** The inner `while` that looks for the end of a line. */
  method FindEnd(data: array<byte>, start: int, last: int) returns (end: int)
    requires 0 <= start <= last < data.Length
    ensures start <= end <= last && (end < last ==> data[end] == NEWLINE)
    ensures forall j :: start <= j < end ==> data[j] != NEWLINE
  {
    end := start;
    while end < last && data[end] != NEWLINE
      invariant start <= end <= last
      invariant forall j :: start <= j < end ==> data[j] != NEWLINE
    {
      end := end + 1;
    }
  }

  lemma PieceEndsAt(text: seq<byte>, n: nat)
    requires n < |text| && n < BUFSIZE && text[n] == NEWLINE && forall i :: 0 <= i < n ==> text[i] != NEWLINE
    ensures FirstPiece(text) == text[..n] && AfterPiece(text) == text[n + 1..]
  {
    LineLengthUnique(text, n);
    hide LineLength;
  }

  /** A line that ends inside the window is the first piece of what is left. */
  lemma PieceInside(v: seq<byte>, start: int, end: int, last: int, rest: seq<byte>)
    requires 0 <= start <= end < last <= |v| && last <= BUFSIZE && v[end] == NEWLINE
    requires forall j :: start <= j < end ==> v[j] != NEWLINE
    ensures var text := v[start..last] + rest;
            FirstPiece(text) == v[start..end] && AfterPiece(text) == v[end + 1..last] + rest
  {
    hide FirstPiece, AfterPiece;
    var text := v[start..last] + rest;
    assert forall i :: 0 <= i < last - start ==> text[i] == v[start + i];
    PieceEndsAt(text, end - start);
    SliceOfSlice(v, start, last, 0, end - start);
    SliceOfSlice(v, start, last, end - start + 1, last - start);
    FrontOf(v[start..last], rest, end - start);
    FrontOf(v[start..last], rest, end - start + 1);
  }

  /** A line without an end in the window is the first piece if the window is full or the file is
      used up. */
  lemma PieceAtEnd(v: seq<byte>, start: int, last: int, rest: seq<byte>)
    requires 0 <= start <= last <= |v| && last <= BUFSIZE
    requires forall j :: start <= j < last ==> v[j] != NEWLINE
    requires rest == [] || (start == 0 && last == BUFSIZE)
    ensures var text := v[start..last] + rest;
            FirstPiece(text) == v[start..last] && AfterPiece(text) == rest
  {
    var text := v[start..last] + rest;
    if rest == [] {
      assert text == v[start..last];
      LineLengthUnique(text, last - start);
      assert text[..last - start] == text && text[last - start..] == [];
    } else {
      assert forall j :: 0 <= j < BUFSIZE ==> text[j] == v[j];
      assert LineLength(text) >= BUFSIZE;
      assert text[..BUFSIZE] == v[start..last] && text[BUFSIZE..] == rest;
    }
  }

  /** What is left to print: the unread part of the window, then the unread part of the file. */
  ghost function Left(v: seq<byte>, start: int, last: int, rest: seq<byte>): seq<byte>
    requires 0 <= start <= last <= |v|
  {
    v[start..last] + rest
  }

  ghost predicate Window(v: seq<byte>, last: int, rest: seq<byte>) {
    |v| == BUFSIZE + 1 && 0 <= last <= BUFSIZE && v[BUFSIZE] != NEWLINE && NulOnlyLast(Left(v, 0, last, rest))
  }

  /** Print one closed line if it matches. */
  method ReportLine(data: array<byte>, start: int, end: int, s: seq<byte>) returns (out: seq<seq<byte>>)
    requires 0 <= start <= end < data.Length && NUL !in s && s != []
    modifies data
    ensures data[..] == old(data[..])[end := NUL]
    ensures out == if Contains(old(data[start..end]), s) then [CString(old(data[start..end]))] else []
  {
    data[end] := NUL;
    assert data[start..end] == old(data[start..end]);
    out := [];
    var found := SearchLine(data, start, end, s);
    if found {
      var line := PutLine(data, start, end);
      out := [line];
    }
  }

  /** Move the unfinished line to the front of the array. */
  method ShiftTail(data: array<byte>, start: int, last: int, ghost rest: seq<byte>)
    requires data.Length == BUFSIZE + 1 && 0 < start < last <= BUFSIZE
    requires NulOnlyLast(Left(data[..], start, last, rest)) && data[BUFSIZE] != NEWLINE
    modifies data
    ensures data[..last - start] == old(data[start..last]) && data[BUFSIZE] != NEWLINE
  {
    data[last] := NUL;
    ghost var k := if data[last - 1] == NUL then last - 1 else last;
    assert forall j :: start <= j < last - 1 ==> data[j] == Left(old(data[..]), start, last, rest)[j - start];
    StrCpyDown(data, start, k);
  }

  /** Printing `out` and then what `next` prints is printing all of `text`. */
  ghost predicate Accounts(out: seq<seq<byte>>, next: seq<byte>, text: seq<byte>, s: seq<byte>) {
    out + Printed(next, s) == Printed(text, s)
  }

  lemma AccountsStart(text: seq<byte>, s: seq<byte>)
    ensures Accounts([], text, text, s)
  {
  }

  lemma AccountsStep(
    out: seq<seq<byte>>, lines: seq<seq<byte>>, next: seq<byte>, mid: seq<byte>, text: seq<byte>, s: seq<byte>)
    requires Accounts(out, mid, text, s) && Accounts(lines, next, mid, s)
    ensures Accounts(out + lines, next, text, s)
  {
    hide Printed;
    assert out + lines + Printed(next, s) == out + (lines + Printed(next, s));
  }

  lemma AccountsEnd(out: seq<seq<byte>>, text: seq<byte>, s: seq<byte>)
    requires Accounts(out, [], text, s)
    ensures out == Printed(text, s)
  {
    assert Printed([], s) == [];
  }

  /** The first piece prints, or not, and the rest remains. */
  lemma PrintedSplit(text: seq<byte>, piece: seq<byte>, rest: seq<byte>, s: seq<byte>)
    requires s != [] && piece == FirstPiece(text) && rest == AfterPiece(text)
    ensures Accounts(if Contains(piece, s) then [CString(piece)] else [], rest, text, s)
  {
    if text == [] {
      assert LineLength(text) == 0 && piece == [] && rest == [];
      assert !Contains(piece, s);
    }
  }

  /** What is left after the line that starts at `start` and ends at `end`. */
  ghost function AfterEnd(v: seq<byte>, end: int, last: int, rest: seq<byte>): seq<byte>
    requires 0 <= end <= last <= |v|
  {
    if end + 1 >= last then rest else Left(v, end + 1, last, rest)
  }

  lemma LineTaken(v: seq<byte>, s: seq<byte>, start: int, end: int, last: int, rest: seq<byte>)
    requires 0 <= start <= end <= last <= |v| && last <= BUFSIZE && s != []
    requires forall j :: start <= j < end ==> v[j] != NEWLINE
    requires end < last ==> v[end] == NEWLINE
    requires end == last ==> rest == [] || (start == 0 && last == BUFSIZE)
    ensures var line := v[start..end];
            Accounts(if Contains(line, s) then [CString(line)] else [],
                     AfterEnd(v, end, last, rest), Left(v, start, last, rest), s)
  {
    hide Accounts, Contains, FirstPiece, AfterPiece;
    if end < last {
      PieceInside(v, start, end, last, rest);
    } else {
      PieceAtEnd(v, start, last, rest);
    }
    assert AfterEnd(v, end, last, rest) == if end < last then v[end + 1..last] + rest else rest;
    PrintedSplit(Left(v, start, last, rest), v[start..end], AfterEnd(v, end, last, rest), s);
  }

  lemma AfterEndKeeps(v: seq<byte>, start: int, end: int, last: int, rest: seq<byte>)
    requires 0 <= start <= end <= last < |v| && NulOnlyLast(Left(v, start, last, rest))
    ensures AfterEnd(v[end := NUL], end, last, rest) == AfterEnd(v, end, last, rest)
    ensures NulOnlyLast(AfterEnd(v, end, last, rest))
  {
    var text, next := Left(v, start, last, rest), AfterEnd(v, end, last, rest);
    assert forall i :: 0 <= i < |next| ==> next[i] == text[|text| - |next| + i];
    assert end + 1 < last ==> v[end := NUL][end + 1..last] == v[end + 1..last];
  }

  /** One step of the inner loop: report the line from `start` to `end`. */
  method TakeLine(data: array<byte>, s: seq<byte>, start: int, end: int, last: int, ghost rest: seq<byte>)
    returns (out: seq<seq<byte>>)
    requires data.Length == BUFSIZE + 1 && 0 <= start <= end <= last <= BUFSIZE && NUL !in s && s != []
    requires data[BUFSIZE] != NEWLINE && NulOnlyLast(Left(data[..], start, last, rest))
    requires forall j :: start <= j < end ==> data[j] != NEWLINE
    requires end < last ==> data[end] == NEWLINE
    requires end == last ==> rest == [] || (start == 0 && last == BUFSIZE)
    modifies data
    ensures data[BUFSIZE] != NEWLINE
    ensures NulOnlyLast(AfterEnd(data[..], end, last, rest))
    ensures Accounts(out, AfterEnd(data[..], end, last, rest), old(Left(data[..], start, last, rest)), s)
  {
    hide Accounts, Contains, CString, AfterEnd, NulOnlyLast;
    LineTaken(data[..], s, start, end, last, rest);
    AfterEndKeeps(data[..], start, end, last, rest);
    out := ReportLine(data, start, end, s);
  }

  /** One step of the inner loop.  It ends the loop, with `next` bytes kept in the window, or goes
      on with the line that starts at `next`. */
  method ScanLine(data: array<byte>, s: seq<byte>, start: int, last: int, cnt: int, ghost rest: seq<byte>)
    returns (done: bool, next: int, out: seq<seq<byte>>)
    requires data.Length == BUFSIZE + 1 && 0 <= start <= last <= BUFSIZE && NUL !in s && s != []
    requires start < last || start == 0
    requires data[BUFSIZE] != NEWLINE && NulOnlyLast(Left(data[..], start, last, rest))
    requires rest != [] ==> last == BUFSIZE
    requires cnt == 0 ==> rest == []
    modifies data
    ensures done ==> Window(data[..], next, rest) && 0 <= next < BUFSIZE && (cnt == 0 ==> next == 0)
    ensures !done ==> start < next < last && data[BUFSIZE] != NEWLINE && NulOnlyLast(Left(data[..], next, last, rest))
    ensures Accounts(out, if done then Left(data[..], 0, next, rest) else Left(data[..], next, last, rest),
                     old(Left(data[..], start, last, rest)), s)
  {
    hide Accounts, Left, AfterEnd, NulOnlyLast, Window;
    var end := FindEnd(data, start, last);
    if data[end] != NEWLINE && cnt != 0 && start != 0 {
      AccountsStart(Left(data[..], start, last, rest), s);
      Shift(data, start, last, rest);
      return true, last - start, [];
    }
    out := TakeLine(data, s, start, end, last, rest);
    next := end + 1;
    done := next >= last;
    AfterEndIs(data[..], end, last, rest);
    if done {
      next := 0;
      ForgetWindow(data[..], rest);
    }
  }

  /** The inner loop of `do_one_file`, over one filling of the window. */
  method ScanWindow(data: array<byte>, s: seq<byte>, last0: int, cnt: int, ghost rest: seq<byte>)
    returns (last: int, out: seq<seq<byte>>)
    requires Window(data[..], last0, rest) && NUL !in s && s != [] && cnt >= 0
    requires rest != [] ==> last0 == BUFSIZE
    requires cnt == 0 ==> rest == []
    modifies data
    ensures Window(data[..], last, rest) && 0 <= last < BUFSIZE && (cnt == 0 ==> last == 0)
    ensures Accounts(out, Left(data[..], 0, last, rest), old(Left(data[..], 0, last0, rest)), s)
  {
    ghost var text, left := Left(data[..], 0, last0, rest), Left(data[..], 0, last0, rest);
    AccountsStart(text, s);
    var start, done := 0, false;
    last, out := 0, [];
    assert NulOnlyLast(left);
    hide Accounts, Left, NulOnlyLast, Window;
    while !done
      invariant data.Length == BUFSIZE + 1 && 0 <= start <= last0 <= BUFSIZE
      invariant !done ==> (start < last0 || start == 0) && data[BUFSIZE] != NEWLINE
      invariant !done ==> NulOnlyLast(left) && left == Left(data[..], start, last0, rest)
      invariant done ==> Window(data[..], last, rest) && 0 <= last < BUFSIZE && (cnt == 0 ==> last == 0)
      invariant done ==> left == Left(data[..], 0, last, rest)
      invariant Accounts(out, left, text, s)
      decreases !done, last0 - start
    {
      hide Accounts, Left, NulOnlyLast, Window;
      var next, line;
      done, next, line := ScanLine(data, s, start, last0, cnt, rest);
      ghost var was := left;
      if done {
        last := next;
        left := Left(data[..], 0, last, rest);
      } else {
        start := next;
        left := Left(data[..], start, last0, rest);
      }
      AccountsStep(out, line, left, was, text, s);
      out := out + line;
    }
  }

  lemma AfterEndIs(v: seq<byte>, end: int, last: int, rest: seq<byte>)
    requires 0 <= end <= last <= |v|
    ensures AfterEnd(v, end, last, rest) == if end + 1 >= last then rest else Left(v, end + 1, last, rest)
  {
  }

  lemma ForgetWindow(v: seq<byte>, rest: seq<byte>)
    requires |v| == BUFSIZE + 1 && v[BUFSIZE] != NEWLINE && NulOnlyLast(rest)
    ensures Window(v, 0, rest) && Left(v, 0, 0, rest) == rest
  {
    LeftNone(v, rest);
  }

  lemma LeftNone(v: seq<byte>, rest: seq<byte>)
    ensures Left(v, 0, 0, rest) == rest
  {
  }

  method Shift(data: array<byte>, start: int, last: int, ghost rest: seq<byte>)
    requires data.Length == BUFSIZE + 1 && 0 < start < last <= BUFSIZE
    requires NulOnlyLast(Left(data[..], start, last, rest)) && data[BUFSIZE] != NEWLINE
    modifies data
    ensures Window(data[..], last - start, rest)
    ensures Left(data[..], 0, last - start, rest) == old(Left(data[..], start, last, rest))
  {
    ShiftTail(data, start, last, rest);
    assert data[0..last - start] == data[..last - start];
  }

  /** The `read` system call on a file at position `pos`: it is short only at the end.  The bytes
      delivered are those that `FileSystemModel.Process.Read` delivers. */
  method ReadInto(data: array<byte>, at: int, n: int, content: seq<byte>, pos: int) returns (cnt: int)
    requires 0 <= at && 0 <= n && at + n <= data.Length && 0 <= pos <= |content|
    modifies data
    ensures cnt == if n < |content| - pos then n else |content| - pos
    ensures data[at..at + cnt] == Slice(content, pos, n) == content[pos..pos + cnt]
    ensures data[..at] == old(data[..at]) && data[at + cnt..] == old(data[at + cnt..])
  {
    cnt := if n < |content| - pos then n else |content| - pos;
    ghost var was := data[..];
    for i := 0 to cnt
      invariant forall j :: 0 <= j < at ==> data[j] == was[j]
      invariant forall j :: at <= j < at + i ==> data[j] == content[pos + (j - at)]
      invariant forall j :: at + i <= j < data.Length ==> data[j] == was[j]
    {
      data[at + i] := content[pos + i];
    }
    ghost var got, read := data[at..at + cnt], content[pos..pos + cnt];
    forall i | 0 <= i < cnt
      ensures got[i] == read[i]
    {
      assert data[at + i] == content[pos + ((at + i) - at)];
    }
    assert data[at + cnt..] == was[at + cnt..];
  }

  /** Filling up the window takes bytes from the file without losing or changing any. */
  method Fill(data: array<byte>, last: int, content: seq<byte>, pos: int) returns (cnt: int)
    requires 0 <= pos <= |content| && last < BUFSIZE && Window(data[..], last, content[pos..])
    modifies data
    ensures 0 <= cnt && pos + cnt <= |content| && last + cnt <= BUFSIZE
    ensures pos + cnt < |content| ==> last + cnt == BUFSIZE
    ensures cnt == 0 ==> pos == |content|
    ensures Window(data[..], last + cnt, content[pos + cnt..])
    ensures Left(data[..], 0, last + cnt, content[pos + cnt..]) == old(Left(data[..], 0, last, content[pos..]))
  {
    cnt := ReadInto(data, last, BUFSIZE - last, content, pos);
    ghost var v := data[..];
    assert v[BUFSIZE] == old(data[BUFSIZE]) by {
      assert v[BUFSIZE] == data[last + cnt..][BUFSIZE - last - cnt];
    }
    assert data[0..last + cnt] == data[..last] + data[last..last + cnt];
    assert content[pos..] == content[pos..pos + cnt] + content[pos + cnt..];
    assert Left(v, 0, last + cnt, content[pos + cnt..]) == old(data[0..last]) + content[pos..];
  }

  /** One round of the outer loop: fill the window, then scan it. */
  method Round(data: array<byte>, s: seq<byte>, last0: int, content: seq<byte>, pos: int)
    returns (last: int, cnt: int, lines: seq<seq<byte>>)
    requires s != [] && NUL !in s && 0 <= pos <= |content|
    requires last0 < BUFSIZE && Window(data[..], last0, content[pos..])
    modifies data
    ensures 0 <= cnt && pos + cnt <= |content| && (cnt == 0 ==> pos == |content| && last == 0)
    ensures 0 <= last < BUFSIZE && Window(data[..], last, content[pos + cnt..])
    ensures Accounts(lines, Left(data[..], 0, last, content[pos + cnt..]),
                     old(Left(data[..], 0, last0, content[pos..])), s)
  {
    hide Accounts, Left, NulOnlyLast;
    cnt := Fill(data, last0, content, pos);
    last, lines := ScanWindow(data, s, last0 + cnt, cnt, content[pos + cnt..]);
  }

  /** Search one file: whatever its window makes of the text, `Printed` says what comes out. */
  method DoOneFile(data: array<byte>, s: seq<byte>, content: seq<byte>) returns (out: seq<seq<byte>>)
    requires data.Length == BUFSIZE + 1 && data[BUFSIZE] != NEWLINE
    requires s != [] && NUL !in s && NulOnlyLast(content)
    modifies data
    ensures out == Printed(content, s)
  {
    hide Printed, Accounts, Left, NulOnlyLast, Window;
    var last, pos, cnt := 0, 0, 1;
    out := [];
    Whole(content);
    ForgetWindow(data[..], content);
    AccountsStart(content, s);
    ghost var next := content;
    while cnt != 0
      invariant 0 <= pos <= |content| && 0 <= last < BUFSIZE && Window(data[..], last, content[pos..])
      invariant |data[..]| == BUFSIZE + 1 && next == Left(data[..], 0, last, content[pos..])
      invariant Accounts(out, next, content, s)
      invariant cnt == 0 ==> pos == |content| && last == 0
      decreases |content| - pos, cnt
    {
      hide Printed, Accounts, Left, NulOnlyLast, Window;
      var lines;
      last, cnt, lines := Round(data, s, last, content, pos);
      pos := pos + cnt;
      AccountsStep(out, lines, Left(data[..], 0, last, content[pos..]), next, content, s);
      next := Left(data[..], 0, last, content[pos..]);
      out := out + lines;
    }
    LeftNone(data[..], []);
    AccountsEnd(out, content, s);
  }
}
