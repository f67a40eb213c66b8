/** One blinking character over time: the per-tick countdown against a periodic function. */
module BlinkPhase {
  import opened CTypes

  datatype Blink = Blink(
    location: uint16, onChar: byte, offChar: byte,
    onLength: uint16, offLength: uint16, countdown: uint16, status: uint16)

  /** A 16-bit word read as signed. */
  function Signed(w: uint16): int { if w >= 0x8000 then w - 0x1_0000 else w }

  function Lit(b: Blink): bool { b.status % 2 == 1 }

  function FlipBit0(w: uint16): uint16 { if w % 2 == 1 then w - 1 else w + 1 }

  /** One tick for one node: count down with 16-bit wrap-around, test signed, then flip. */
  function Tick(b: Blink): Blink {
    var c: uint16 := (b.countdown + 0xFFFF) % 0x1_0000;
    if Signed(c) > 0 then b.(countdown := c)
    else b.(countdown := if Lit(b) then b.offLength else b.onLength, status := FlipBit0(b.status))
  }

  function Ticks(b: Blink, k: nat): Blink {
    if k == 0 then b else Tick(Ticks(b, k - 1))
  }

  /** A node as `mp1_ioctl_add` leaves it. */
  predicate Started(b: Blink) { b.status == 1 && b.countdown == b.onLength }

  /** How many ticks a length really lasts: lengths the signed test misreads last one tick. */
  function Lasts(n: int): (r: int)
    ensures r >= 1
  {
    if 1 <= n <= 0x8000 then n else 1
  }

  function Period(b: Blink): (r: int)
    ensures r >= 2
  {
    Lasts(b.onLength) + Lasts(b.offLength)
  }

  /** Countdown of a stretch of length `n` that has run for `q` ticks. */
  function Remaining(n: int, q: int): int { if q == 0 then n else n - q }

  // ---- remainders

  lemma MultipleAtLeast(a: int, m: int)
    requires a >= 1 && m > 0
    ensures a * m >= m
  {
    assert (a - 1) * m >= 0;
  }

  lemma RemainderUnique(x: int, m: int, q: int, r: int)
    requires m > 0 && x == q * m + r && 0 <= r < m
    ensures x % m == r
  {
    var q', r' := x / m, x % m;
    assert x == q' * m + r' && 0 <= r' < m;
    assert (q - q') * m == r' - r && (q' - q) * m == r - r';
    if q > q' {
      MultipleAtLeast(q - q', m);
    } else if q' > q {
      MultipleAtLeast(q' - q, m);
    }
  }

  lemma NextRemainder(k: nat, m: int)
    requires m > 0
    ensures (k + 1) % m == if k % m + 1 == m then 0 else k % m + 1
  {
    var q, r := k / m, k % m;
    assert k == q * m + r;
    if r + 1 == m {
      assert k + 1 == (q + 1) * m + 0;
      RemainderUnique(k + 1, m, q + 1, 0);
    } else {
      RemainderUnique(k + 1, m, q, r + 1);
    }
  }

  // ---- the closed form

  ghost predicate InPhase(b: Blink, r: Blink, p: int) {
    var on := Lasts(b.onLength);
    && r == b.(countdown := r.countdown, status := r.status)
    && r.status == (if p < on then 1 else 0)
    && r.countdown == if p < on then Remaining(b.onLength, p) else Remaining(b.offLength, p - on)
  }

  lemma TickPhase(b: Blink, r: Blink, p: int)
    requires 0 <= p < Period(b) && InPhase(b, r, p)
    ensures InPhase(b, Tick(r), if p + 1 == Period(b) then 0 else p + 1)
  {
  }

  /** After k ticks a node is lit iff k mod (on + off) < on, with the matching countdown, where a
      length outside 1..32768 counts as one. */
  lemma {:induction false} PhaseAfter(b: Blink, k: nat)
    requires Started(b)
    ensures InPhase(b, Ticks(b, k), k % Period(b))
  {
    if k == 0 {
      RemainderUnique(0, Period(b), 0, 0);
    } else {
      PhaseAfter(b, k - 1);
      TickPhase(b, Ticks(b, k - 1), (k - 1) % Period(b));
      NextRemainder(k - 1, Period(b));
    }
  }

  /** The declared lengths are what one sees. */
  ghost predicate AsDeclared(b: Blink)
    requires b.onLength + b.offLength > 0
  {
    forall k: nat :: Lit(Ticks(b, k)) <==> k % (b.onLength + b.offLength) < b.onLength
  }

  lemma MisreadLengthShows(b: Blink) returns (k: nat)
    requires Started(b) && b.onLength + b.offLength > 0
    requires !(1 <= b.onLength <= 0x8000 && 1 <= b.offLength <= 0x8000)
    ensures !(Lit(Ticks(b, k)) <==> k % (b.onLength + b.offLength) < b.onLength)
  {
    var on: int, off: int := b.onLength, b.offLength;
    k := if on == 0 then 0 else if on > 0x8000 then 1 else if off == 0 then on else on + 1;
    PhaseAfter(b, k);
    if on == 0 {
      RemainderUnique(k, Period(b), 0, 0);
    } else if on > 0x8000 {
      RemainderUnique(k, Period(b), 0, 1);
      RemainderUnique(k, on + off, 0, 1);
    } else if off == 0 {
      RemainderUnique(k, Period(b), 0, on);
      RemainderUnique(k, on + off, 1, 0);
    } else {
      RemainderUnique(k, Period(b), 1, 0);
      RemainderUnique(k, on + off, 0, on + 1);
    }
  }

  /** Exactly the lengths 1..32768 are honoured. */
  lemma DeclaredLengths(b: Blink)
    requires Started(b) && b.onLength + b.offLength > 0
    ensures AsDeclared(b) <==> 1 <= b.onLength <= 0x8000 && 1 <= b.offLength <= 0x8000
  {
    if 1 <= b.onLength <= 0x8000 && 1 <= b.offLength <= 0x8000 {
      forall k: nat
        ensures Lit(Ticks(b, k)) <==> k % (b.onLength + b.offLength) < b.onLength
      {
        PhaseAfter(b, k);
      }
    } else {
      var k := MisreadLengthShows(b);
    }
  }

  /** One tick: a countdown of 2 to 32768 goes down by one; any other, the 16-bit count having come to
      zero or below, is set anew for the other half and the lowest status bit flips. */
  lemma TickIs(b: Blink)
    ensures var r := Tick(b);
            && r.location == b.location && r.onChar == b.onChar && r.offChar == b.offChar
            && r.onLength == b.onLength && r.offLength == b.offLength
            && (2 <= b.countdown <= 32768 ==> r.countdown as int == b.countdown as int - 1 && r.status == b.status)
            && (!(2 <= b.countdown <= 32768) ==>
                  && r.countdown == (if b.status % 2 == 1 then b.offLength else b.onLength)
                  && r.status / 2 == b.status / 2 && r.status % 2 != b.status % 2)
  {
  }

  /** A node put on the list with valid lengths: after k ticks it is lit iff k modulo its period is
      under its on length, and counts down to the next change. */
  lemma AddedBlinks(b: Blink, k: nat)
    requires 1 <= b.onLength <= 32768 && 1 <= b.offLength <= 32768
    requires b.status == 1 && b.countdown == b.onLength
    ensures var r, on: int, off: int := Ticks(b, k), b.onLength, b.offLength;
            var p := k % (on + off);
            && r.location == b.location && r.onChar == b.onChar && r.offChar == b.offChar
            && r.onLength == b.onLength && r.offLength == b.offLength
            && r.status == (if p < on then 1 else 0)
            && r.countdown == if p < on then on - p else on + off - p
  {
    PhaseAfter(b, k);
  }

  // ---- synchronisation

  /** `mp1_ioctl_sync`: the phase fields of one node copied to another. */
  function Synced(dst: Blink, src: Blink): Blink {
    dst.(onLength := src.onLength, offLength := src.offLength, countdown := src.countdown, status := src.status)
  }

  /** The target keeps its place and its characters. */
  lemma SyncedFields(dst: Blink, src: Blink)
    ensures var r := Synced(dst, src);
            && r.location == dst.location && r.onChar == dst.onChar && r.offChar == dst.offChar
            && r.onLength == src.onLength && r.offLength == src.offLength
            && r.countdown == src.countdown && r.status == src.status
  {
  }

  /** Two nodes in step stay in step. */
  lemma {:induction false} SyncedStay(dst: Blink, src: Blink, k: nat)
    ensures Ticks(Synced(dst, src), k) == Synced(dst, Ticks(src, k))
  {
    if k > 0 {
      SyncedStay(dst, src, k - 1);
    }
  }
}
