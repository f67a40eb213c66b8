/** `itoa`, `strrev` and the number cases of `printf`. */
module NumberPrinting {
  import opened CTypes
  import opened CStrings

  const ZERO: byte := 48
  const MINUS: byte := 45

  /** The digit characters 0-9 and A-Z. */
  function DigitChar(d: int): byte
    requires 0 <= d < 36
  {
    if d < 10 then 48 + d else 55 + d
  }

  function DigitValue(c: byte): int {
    if 48 <= c <= 57 then c - 48 else if 65 <= c <= 90 then c - 55 else 0
  }

  /** The number a digit string denotes. */
  function Parse(s: seq<byte>, radix: int): int {
    if s == [] then 0 else Parse(s[..|s| - 1], radix) * radix + DigitValue(s[|s| - 1])
  }

  /** The digits of a number, most significant first. */
  function Digits(v: nat, radix: int): (r: seq<byte>)
    requires 2 <= radix <= 36
    ensures |r| > 0 && NUL !in r
    decreases v
  {
    if v < radix then [DigitChar(v)] else
    QuotientSmaller(v, radix);
    Digits(v / radix, radix) + [DigitChar(v % radix)]
  }

  lemma QuotientSmaller(v: nat, m: int)
    requires m >= 2
    ensures 0 <= v / m && (v > 0 ==> v / m < v) && 2 * (v / m) <= v
    ensures v == (v / m) * m + v % m && 0 <= v % m < m
    ensures v >= m ==> v / m > 0
  {
    Quotient(v, v / m, v % m, m);
  }

  lemma Quotient(v: nat, q: int, r: int, m: int)
    requires m >= 2 && v == q * m + r && 0 <= r < m
    ensures 0 <= q && (v > 0 ==> q < v) && 2 * q <= v && (v >= m ==> q > 0)
  {
    if q < 0 {
      Negative(q, m);
      assert false;
    }
    SameSign(q, m - 2);
    assert q * (m - 2) == q * m - 2 * q;
  }

  lemma Negative(q: int, m: int)
    requires q < 0 < m
    ensures q * m <= -m
  {
    SameSign(-q - 1, m);
    assert (-q - 1) * m == -(q * m) - m;
  }

  lemma SameSign(x: int, y: int)
    requires x >= 0 && y >= 0
    ensures x * y >= 0
  {
  }

  /** Reading the digits back gives the number, in every radix. */
  lemma {:induction false} ParseDigits(v: nat, radix: int)
    requires 2 <= radix <= 36
    ensures Parse(Digits(v, radix), radix) == v
    decreases v
  {
    QuotientSmaller(v, radix);
    if v < radix {
      assert Digits(v, radix)[..0] == [];
    } else {
      ParseDigits(v / radix, radix);
      var s := Digits(v, radix);
      assert s[..|s| - 1] == Digits(v / radix, radix);
    }
  }

  /** Only zero begins with the digit zero. */
  lemma {:induction false} NoLeadingZero(v: nat, radix: int)
    requires 2 <= radix <= 36
    ensures Digits(v, radix)[0] == ZERO <==> v == 0
    decreases v
  {
    QuotientSmaller(v, radix);
    if v >= radix {
      NoLeadingZero(v / radix, radix);
    }
  }

  function Pow2(k: nat): nat { if k == 0 then 1 else 2 * Pow2(k - 1) }

  lemma {:induction false} DigitsFit(v: nat, radix: int, k: nat)
    requires 2 <= radix <= 36 && k > 0 && v < Pow2(k)
    ensures |Digits(v, radix)| <= k
    decreases k
  {
    QuotientSmaller(v, radix);
    if v >= radix {
      assert k > 1;
      DigitsFit(v / radix, radix, k - 1);
    }
  }

  lemma {:induction false} Pow2Add(a: nat, b: nat)
    ensures Pow2(a + b) == Pow2(a) * Pow2(b)
  {
    if a > 0 {
      Pow2Step(a);
      Pow2Step(a + b);
      hide Pow2;
      Pow2Add(a - 1, b);
      Doubled(Pow2(a - 1), Pow2(b));
    } else {
      assert Pow2(0) == 1;
    }
  }

  lemma Pow2Step(k: nat)
    requires k > 0
    ensures Pow2(k) == 2 * Pow2(k - 1)
  {
  }

  lemma Doubled(x: int, y: int)
    ensures 2 * (x * y) == (2 * x) * y
  {
  }

  lemma PowersOfTwo()
    ensures Pow2(4) == 0x10 && Pow2(32) == 0x1_0000_0000
  {
    assert Pow2(4) == 2 * (2 * (2 * (2 * Pow2(0))));
    Pow2Add(4, 4);
    Pow2Add(8, 8);
    Pow2Add(16, 16);
  }

  lemma {:induction false} HexDigitsFit(v: nat, radix: int, k: nat)
    requires radix == 16 && k > 0 && v < Pow2(4 * k)
    ensures |Digits(v, radix)| <= k
    decreases k
  {
    QuotientSmaller(v, radix);
    PowersOfTwo();
    Pow2Add(4, 4 * (k - 1));
    if v >= radix {
      assert k > 1;
      HexDigitsFit(v / radix, radix, k - 1);
    }
  }

  function Zeros(n: nat): (r: seq<byte>)
    ensures |r| == n && forall i :: 0 <= i < n ==> r[i] == ZERO
  {
    seq(n, _ => ZERO)
  }

  function Reverse(s: seq<byte>): (r: seq<byte>)
    ensures |r| == |s| && forall i :: 0 <= i < |s| ==> r[i] == s[|s| - 1 - i]
  {
    seq(|s|, i requires 0 <= i < |s| => s[|s| - 1 - i])
  }

  /** `strrev` of the string at `at`. */
  method StrRev(buf: array<byte>, at: int)
    requires 0 <= at <= buf.Length && NUL in buf[at..]
    modifies buf
    ensures var len := |CString(old(buf[at..]))|;
            && at + len < buf.Length && buf[at..at + len] == Reverse(old(buf[at..at + len]))
            && buf[..at] == old(buf[..at]) && buf[at + len..] == old(buf[at + len..])
  {
    var len := StrLen(buf[at..]);
    ReverseInPlace(buf, at, len);
  }

  /** The loop of `strrev`. */
  method ReverseInPlace(buf: array<byte>, at: int, len: int)
    requires 0 <= at && 0 <= len && at + len < buf.Length
    modifies buf
    ensures buf[at..at + len] == Reverse(old(buf[at..at + len]))
    ensures buf[..at] == old(buf[..at]) && buf[at + len..] == old(buf[at + len..])
  {
    ghost var s, was := buf[at..at + len], buf[..];
    var beg, end := 0, len - 1;
    assert s == PartlyReversed(s, 0);
    ReverseEnds(s);
    hide PartlyReversed;
    while beg < end
      invariant 0 <= beg && 2 * beg <= len && end == len - 1 - beg
      invariant buf[at..at + len] == PartlyReversed(s, beg)
      invariant buf[..at] == was[..at] && buf[at + len..] == was[at + len..]
    {
      hide PartlyReversed, Reverse;
      ReverseStep(s, beg);
      Swap(buf, at, len, beg, end);
      beg := beg + 1;
      end := end - 1;
    }
  }

  /** The body of its loop. */
  method Swap(buf: array<byte>, at: int, len: int, beg: int, end: int)
    requires 0 <= at && at + len <= buf.Length && 0 <= beg < end < len
    modifies buf
    ensures var now := old(buf[at..at + len]); buf[at..at + len] == now[end := now[beg]][beg := now[end]]
    ensures buf[..at] == old(buf[..at]) && buf[at + len..] == old(buf[at + len..])
  {
    var tmp := buf[at + end];
    buf[at + end] := buf[at + beg];
    buf[at + beg] := tmp;
  }

  lemma ReverseEnds(s: seq<byte>)
    ensures forall n: nat :: |s| - 1 <= 2 * n <= |s| ==> PartlyReversed(s, n) == Reverse(s)
  {
  }

  /** The outermost `n` characters on either side have changed places. */
  function PartlyReversed(s: seq<byte>, n: nat): (r: seq<byte>)
    requires 2 * n <= |s|
    ensures |r| == |s|
  {
    seq(|s|, i requires 0 <= i < |s| => if i < n || i >= |s| - n then s[|s| - 1 - i] else s[i])
  }

  lemma ReverseStep(s: seq<byte>, n: nat)
    requires 2 * n + 1 < |s|
    ensures var now, end := PartlyReversed(s, n), |s| - 1 - n;
            now[end := now[n]][n := now[end]] == PartlyReversed(s, n + 1)
  {
  }

  /** What has been written holds the low digits, lowest first. */
  ghost predicate Emitted(low: seq<byte>, v: nat, left: nat, radix: int)
    requires 2 <= radix <= 36
  {
    Digits(v, radix) == (if left == 0 then [] else Digits(left, radix)) + Reverse(low)
  }

  lemma EmitOne(low: seq<byte>, v: nat, left: nat, radix: int)
    requires 2 <= radix <= 36 && left > 0 && Emitted(low, v, left, radix)
    ensures 0 <= left / radix < left
    ensures Emitted(low + [DigitChar(left % radix)], v, left / radix, radix)
    ensures |low| < |Digits(v, radix)|
  {
    QuotientSmaller(left, radix);
    DigitsSplit(left, radix);
    hide Digits, DigitChar, Reverse;
    var c, more := DigitChar(left % radix), if left / radix == 0 then [] else Digits(left / radix, radix);
    MoveDigit(low, c, more);
  }

  lemma DigitsSplit(v: nat, radix: int)
    requires 2 <= radix <= 36 && v > 0
    ensures 0 <= v / radix && 0 <= v % radix < radix
    ensures Digits(v, radix) == (if v / radix == 0 then [] else Digits(v / radix, radix)) + [DigitChar(v % radix)]
  {
    QuotientSmaller(v, radix);
    if v < radix {
      SmallQuotient(v, radix);
    }
  }

  lemma SmallQuotient(v: nat, radix: int)
    requires v < radix
    ensures v / radix == 0 && v % radix == v
  {
  }

  lemma MoveDigit(low: seq<byte>, c: byte, more: seq<byte>)
    ensures (more + [c]) + Reverse(low) == more + Reverse(low + [c])
  {
    ReverseAppend(low, c);
    assert (more + [c]) + Reverse(low) == more + ([c] + Reverse(low));
  }

  lemma ReverseAppend(low: seq<byte>, c: byte)
    ensures Reverse(low + [c]) == [c] + Reverse(low)
  {
  }

  lemma ReverseNulFree(s: seq<byte>)
    requires NUL !in Reverse(s)
    ensures NUL !in s
  {
    assert forall i :: 0 <= i < |s| ==> s[i] == Reverse(s)[|s| - 1 - i];
  }

  /** The loop of `itoa`: the digits, lowest first. */
  method EmitDigits(value: uint32, buf: array<byte>, at: int, radix: int) returns (len: int)
    requires 2 <= radix <= 36 && 0 <= at && at + |Digits(value, radix)| < buf.Length && value > 0
    modifies buf
    ensures 0 <= len && at + len < buf.Length && Reverse(buf[at..at + len]) == Digits(value, radix)
    ensures buf[..at] == old(buf[..at])
  {
    hide Digits;
    var left: nat := value;
    len := 0;
    assert Reverse([]) == [];
    assert buf[at..at] == [];
    while left > 0
      invariant 0 <= len <= |Digits(value, radix)| && Emitted(buf[at..at + len], value, left, radix)
      invariant buf[..at] == old(buf[..at])
    {
      hide Digits, Emitted;
      EmitOne(buf[at..at + len], value, left, radix);
      buf[at + len] := DigitChar(left % radix);
      assert buf[at..at + len + 1] == buf[at..at + len] + [DigitChar(left % radix)];
      len := len + 1;
      left := left / radix;
    }
  }

  /** `itoa` */
  method Itoa(value: uint32, buf: array<byte>, at: int, radix: int) returns (len: int)
    requires 2 <= radix <= 36 && 0 <= at && at + |Digits(value, radix)| < buf.Length
    modifies buf
    ensures len == |Digits(value, radix)| && buf[at..at + len] == Digits(value, radix) && buf[at + len] == NUL
    ensures buf[..at] == old(buf[..at])
  {
    if value == 0 {
      buf[at] := ZERO;
      buf[at + 1] := NUL;
      return 1;
    }
    hide Digits, Reverse;
    len := EmitDigits(value, buf, at, radix);
    ReverseNulFree(buf[at..at + len]);
    CloseAndReverse(buf, at, len);
  }

  /** The end of `itoa`: a terminating NUL, then `strrev`. */
  method CloseAndReverse(buf: array<byte>, at: int, len: int)
    requires 0 <= at && 0 <= len && at + len < buf.Length && NUL !in buf[at..at + len]
    modifies buf
    ensures buf[at..at + len] == Reverse(old(buf[at..at + len])) && buf[at + len] == NUL
    ensures buf[..at] == old(buf[..at])
  {
    hide Reverse, CString;
    ghost var low := buf[at..at + len];
    buf[at + len] := NUL;
    assert buf[at..at + len] == low && buf[at..][..len] == low;
    Terminated(buf[at..], len);
    StrRev(buf, at);
    assert buf[at + len] == buf[at + len..][0];
  }

  lemma Terminated(s: seq<byte>, len: nat)
    requires len < |s| && s[len] == NUL && NUL !in s[..len]
    ensures NUL in s && |CString(s)| == len
  {
    CStringUnique(s, len);
  }

  // ---- printf

  /** `%x`, `%u` */
  method PrintUnsigned(value: uint32, radix: int) returns (text: seq<byte>)
    requires radix == 10 || radix == 16
    ensures text == Digits(value, radix)
    ensures text != [] && Parse(text, radix) == value && (text[0] == ZERO <==> value == 0)
  {
    PowersOfTwo();
    DigitsFit(value, radix, 32);
    var convBuf := new byte[36](i => NUL);
    var len := Itoa(value, convBuf, 0, radix);
    text := convBuf[0..len];
    ParseDigits(value, radix);
    NoLeadingZero(value, radix);
  }

  /** `%#x`: always eight digits, the zeros filled in just below the converted string. */
  method PrintHex8(value: uint32) returns (text: seq<byte>)
    ensures |text| == 8 && Parse(text, 16) == value
    ensures |Digits(value, 16)| <= 8 && text == Zeros(8 - |Digits(value, 16)|) + Digits(value, 16)
  {
    PowersOfTwo();
    HexDigitsFit(value, 16, 8);
    ParseDigits(value, 16);
    hide Digits, Parse, Pow2, Zeros;
    var convBuf := new byte[64](i => NUL);
    var start := Itoa(value, convBuf, 8, 16);
    ghost var digits := convBuf[8..8 + start];
    ZeroFill(convBuf, start, digits);
    text := convBuf[start..8 + start];
    PaddedText(convBuf[..], start, text);
    LeadingZeros(8 - start, digits, 16);
  }

  lemma PaddedText(v: seq<byte>, start: int, text: seq<byte>)
    requires 0 <= start <= 8 && 8 + start <= |v| && text == v[start..8 + start]
    ensures |text| == 8 && text == v[start..8] + v[8..8 + start]
  {
  }

  /** The filling loop of `%#x`: from the length of the digits up to where they begin. */
  method ZeroFill(buf: array<byte>, from: int, ghost digits: seq<byte>)
    requires 0 <= from <= 8 && 8 + from <= buf.Length && buf[8..8 + from] == digits
    modifies buf
    ensures buf[from..8] == Zeros(8 - from) && buf[8..8 + from] == digits
  {
    for i := from to 8
      invariant buf[8..8 + from] == digits
      invariant forall j :: from <= j < i ==> buf[j] == ZERO
    {
      buf[i] := ZERO;
      assert buf[8..8 + from] == digits;
    }
  }

  /** `%d`: the negation wraps, so the smallest integer prints too. */
  method PrintSigned(value: int) returns (text: seq<byte>)
    requires -0x8000_0000 <= value < 0x8000_0000
    ensures text == if value < 0 then [MINUS] + Digits(-value, 10) else Digits(value, 10)
    ensures text != [] && ParseSigned(text) == value
  {
    PowersOfTwo();
    hide Digits, Parse, Pow2;
    var convBuf := new byte[36](i => NUL);
    if value < 0 {
      convBuf[0] := MINUS;
      var wrapped: uint32 := if value == -0x8000_0000 then 0x8000_0000 else -value;
      DigitsFit(wrapped, 10, 32);
      var len := Itoa(wrapped, convBuf, 1, 10);
      assert convBuf[0] == convBuf[..1][0];
      text := convBuf[0..1 + len];
      assert text[1..] == convBuf[1..1 + len] && text == [MINUS] + text[1..];
      ParseDigits(wrapped, 10);
    } else {
      DigitsFit(value, 10, 32);
      var len := Itoa(value, convBuf, 0, 10);
      text := convBuf[0..len];
      ParseDigits(value, 10);
      NoMinus(value, 10);
    }
  }

  function ParseSigned(s: seq<byte>): int
    requires s != []
  {
    if s[0] == MINUS then -Parse(s[1..], 10) else Parse(s, 10)
  }

  lemma {:induction false} NoMinus(v: nat, radix: int)
    requires 2 <= radix <= 36
    ensures Digits(v, radix)[0] != MINUS
    decreases v
  {
    QuotientSmaller(v, radix);
    if v >= radix {
      NoMinus(v / radix, radix);
    }
  }

  lemma {:induction false} LeadingZeros(n: nat, digits: seq<byte>, radix: int)
    ensures Parse(Zeros(n) + digits, radix) == Parse(digits, radix)
    decreases n + |digits|
  {
    var s := Zeros(n) + digits;
    if digits != [] {
      LeadingZeros(n, digits[..|digits| - 1], radix);
      assert s[..|s| - 1] == Zeros(n) + digits[..|digits| - 1];
    } else if n > 0 {
      LeadingZeros(n - 1, [], radix);
      assert s[..|s| - 1] == Zeros(n - 1) + [];
    }
  }
}
