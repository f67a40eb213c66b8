/** The C-level vocabulary shared by the kernel and user-program models. */
module CTypes {
  type byte = b: int | 0 <= b < 256
  type uint16 = w: int | 0 <= w < 0x1_0000
  type uint32 = w: int | 0 <= w < 0x1_0000_0000

  const NUL: byte := 0
  const NEWLINE: byte := 10
  const RETURN: byte := 13
  const SPACE: byte := 32

  const TERMINALS := 3
  const PAGE_SIZE := 4096

  /** C's `/` on int: the quotient is truncated toward zero. */
  function TruncDiv(a: int, b: int): int
    requires b > 0
  {
    if a >= 0 then a / b else -((-a) / b)
  }

  /** C's `%` on int: the remainder takes the sign of the dividend. */
  function TruncMod(a: int, b: int): int
    requires b > 0
  {
    if a >= 0 then a % b else -((-a) % b)
  }

  /** The C string that starts at the front of `s`: everything before the first NUL. */
  function CString(s: seq<byte>): (r: seq<byte>)
    ensures |r| <= |s| && r == s[..|r|] && NUL !in r
    ensures |r| < |s| ==> s[|r|] == NUL
  {
    if s == [] || s[0] == NUL then [] else
    var rest := CString(s[1..]);
    assert s == [s[0]] + s[1..];
    [s[0]] + rest
  }

  lemma CStringUnique(s: seq<byte>, n: nat)
    requires n <= |s| && NUL !in s[..n]
    requires n < |s| ==> s[n] == NUL
    ensures CString(s) == s[..n]
  {
    hide CString;
    var c := CString(s);
    assert forall k :: 0 <= k < n ==> s[k] == s[..n][k] && s[k] != NUL;
    assert forall k :: 0 <= k < |c| ==> s[k] == c[k] && s[k] != NUL;
  }

  lemma FrontOf<T>(a: seq<T>, b: seq<T>, n: nat)
    requires n <= |a|
    ensures (a + b)[..n] == a[..n] && (a + b)[n..] == a[n..] + b
  {
  }

  lemma SliceOfSlice<T>(v: seq<T>, a: int, b: int, i: int, j: int)
    requires 0 <= a <= b <= |v| && 0 <= i <= j <= b - a
    ensures v[a..b][i..j] == v[a + i..a + j]
  {
    var inner, outer := v[a..b][i..j], v[a + i..a + j];
    forall k | 0 <= k < j - i
      ensures inner[k] == outer[k]
    {
      assert inner[k] == v[a..b][i + k] == v[a + (i + k)];
    }
  }
}
