/** The blink list: nodes in a static pool of 2000 slots, linked by slot number. */
module BlinkList {
  import opened CTypes
  import opened BlinkPhase

  const POOL := 2000
  const NULL := -1

  datatype Slot = Slot(node: Blink, next: int)

  const ZERO_SLOT := Slot(Blink(0, 0, 0, 0, 0, 0, 0), NULL)

  // ---- the list as a sequence of nodes

  /** The most recent node at a location, or -1. */
  function IndexOf(items: seq<Blink>, location: int): (i: int)
    ensures -1 <= i < |items|
    ensures i >= 0 ==> items[i].location == location
    ensures forall j :: 0 <= j < (if i == -1 then |items| else i) ==> items[j].location != location
  {
    if items == [] then -1
    else if items[0].location == location then 0
    else var i := IndexOf(items[1..], location); if i == -1 then -1 else i + 1
  }

  lemma IndexUnique(items: seq<Blink>, location: int, i: int)
    requires 0 <= i < |items| && items[i].location == location
    requires forall j :: 0 <= j < i ==> items[j].location != location
    ensures IndexOf(items, location) == i
  {
    if i > 0 {
      assert items[0].location != location;
      IndexUnique(items[1..], location, i - 1);
    }
  }

  function WithStart(b: Blink): (r: Blink)
    ensures Started(r)
  {
    b.(status := 1, countdown := b.onLength)
  }

  // ---- the pool and its links

  function Follower(order: seq<int>, i: int): int
    requires 0 <= i <= |order|
  {
    if i == |order| then NULL else order[i]
  }

  predicate NextIs(pool: seq<Slot>, order: seq<int>, i: int)
    requires 0 <= i < |order| && 0 <= order[i] < |pool|
  {
    pool[order[i]].next == Follower(order, i + 1)
  }

  predicate Slots(order: seq<int>) {
    forall i :: 0 <= i < |order| ==> 0 <= order[i] < POOL
  }

  ghost predicate Distinct(order: seq<int>) {
    forall i, j :: 0 <= i < |order| && 0 <= j < |order| ==> (order[i] == order[j] ==> i == j)
  }

  /** `head` and the links spell out `order`, without repetition, so the list is acyclic. */
  ghost predicate Linked(pool: seq<Slot>, head: int, order: seq<int>) {
    && |pool| == POOL && Slots(order) && Distinct(order)
    && head == Follower(order, 0)
    && forall i :: 0 <= i < |order| ==> NextIs(pool, order, i)
  }

  /** Walking from `head` comes to an end. */
  ghost predicate Ends(pool: seq<Slot>, head: int) {
    exists order :: Linked(pool, head, order)
  }

  /** The slots that look free are exactly those off the list. */
  ghost predicate Marked(pool: seq<Slot>, order: seq<int>)
    requires |pool| == POOL
  {
    forall p :: 0 <= p < POOL ==> (pool[p].node.location == 0 <==> p !in order)
  }

  function NodesAt(pool: seq<Slot>, order: seq<int>): (r: seq<Blink>)
    requires |pool| == POOL && Slots(order)
    ensures |r| == |order| && forall i :: 0 <= i < |order| ==> r[i] == pool[order[i]].node
  {
    seq(|order|, i requires 0 <= i < |order| => pool[order[i]].node)
  }

  lemma InsertLinks(pool: seq<Slot>, head: int, order: seq<int>, p: int, node: Blink)
    requires Linked(pool, head, order) && 0 <= p < POOL && p !in order
    ensures Linked(pool[p := Slot(node, head)], p, [p] + order)
  {
    var pool', order' := pool[p := Slot(node, head)], [p] + order;
    assert forall i :: 0 <= i < |order| ==> order[i] in order;
    assert Distinct(order');
    hide Distinct;
    forall i | 0 <= i < |order'|
      ensures 0 <= order'[i] < POOL && NextIs(pool', order', i)
    {
      if i > 0 {
        assert order'[i] == order[i - 1] && NextIs(pool, order, i - 1) && order[i - 1] in order;
      }
    }
  }

  lemma InsertNodes(pool: seq<Slot>, order: seq<int>, p: int, node: Blink, next: int)
    requires |pool| == POOL && Slots(order) && 0 <= p < POOL && p !in order
    ensures Slots([p] + order)
    ensures NodesAt(pool[p := Slot(node, next)], [p] + order) == [node] + NodesAt(pool, order)
  {
    assert forall i :: 0 <= i < |order| ==> order[i] in order;
  }

  lemma InsertMarks(pool: seq<Slot>, order: seq<int>, p: int, node: Blink, next: int)
    requires |pool| == POOL && 0 <= p < POOL && Marked(pool, order)
    ensures Marked(pool[p := Slot(node, next)], [p] + order) <==> node.location != 0
  {
    var pool', order' := pool[p := Slot(node, next)], [p] + order;
    assert order'[0] == p && pool'[p].node == node;
    assert forall q :: q != p ==> (q in order' <==> q in order);
    if node.location != 0 {
      assert Marked(pool', order');
    }
  }

  /** Unlinking position `k`: its predecessor's link, or the head, now skips it. */
  function Without<T>(s: seq<T>, k: int): seq<T>
    requires 0 <= k < |s|
  {
    s[..k] + s[k + 1..]
  }

  /** Exactly the element at `k` is gone. */
  lemma WithoutOne<T>(s: seq<T>, k: int)
    requires 0 <= k < |s|
    ensures |Without(s, k)| == |s| - 1
    ensures forall i :: 0 <= i < |s| - 1 ==> Without(s, k)[i] == if i < k then s[i] else s[i + 1]
  {
  }

  function SkippedHead(pool: seq<Slot>, head: int, order: seq<int>, k: int): int
    requires 0 <= k < |order| && 0 <= order[k] < |pool|
  {
    if k == 0 then pool[order[k]].next else head
  }

  function Skipped(pool: seq<Slot>, order: seq<int>, k: int): (r: seq<Slot>)
    requires 0 <= k < |order| && |pool| == POOL && Slots(order)
    ensures |r| == POOL
  {
    if k == 0 then pool else pool[order[k - 1] := pool[order[k - 1]].(next := pool[order[k]].next)]
  }

  lemma Unlink(pool: seq<Slot>, head: int, order: seq<int>, k: int)
    requires Linked(pool, head, order) && 0 <= k < |order|
    ensures var pool' := Skipped(pool, order, k)[order[k] := ZERO_SLOT];
            Linked(pool', SkippedHead(pool, head, order, k), Without(order, k))
  {
    var pool', order' := Skipped(pool, order, k)[order[k] := ZERO_SLOT], Without(order, k);
    assert forall i :: 0 <= i < |order'| ==> order'[i] == order[if i < k then i else i + 1];
    assert NextIs(pool, order, k);
    forall i | 0 <= i < |order'|
      ensures NextIs(pool', order', i)
    {
      var at := if i < k then i else i + 1;
      assert NextIs(pool, order, at);
      assert order[at] != order[k];
    }
  }

  lemma WithoutMembers(order: seq<int>, k: int, p: int)
    requires Distinct(order) && 0 <= k < |order|
    ensures p in Without(order, k) <==> p in order && p != order[k]
  {
    var order' := Without(order, k);
    assert forall i :: 0 <= i < |order'| ==> order'[i] == order[if i < k then i else i + 1];
    if p in order && p != order[k] {
      var i :| 0 <= i < |order| && order[i] == p;
      assert order'[if i < k then i else i - 1] == p;
    }
  }

  lemma UnlinkMarks(pool: seq<Slot>, head: int, order: seq<int>, k: int)
    requires Linked(pool, head, order) && 0 <= k < |order| && Marked(pool, order)
    ensures Marked(Skipped(pool, order, k)[order[k] := ZERO_SLOT], Without(order, k))
  {
    forall p | 0 <= p < POOL
      ensures p in Without(order, k) <==> p in order && p != order[k]
    {
      WithoutMembers(order, k, p);
    }
    hide NextIs, Distinct, Without;
  }

  lemma UnlinkNodes(pool: seq<Slot>, head: int, order: seq<int>, k: int)
    requires Linked(pool, head, order) && 0 <= k < |order|
    ensures var pool' := Skipped(pool, order, k)[order[k] := ZERO_SLOT];
            && Slots(Without(order, k))
            && NodesAt(pool', Without(order, k)) == Without(NodesAt(pool, order), k)
  {
    hide NextIs;
    var order' := Without(order, k);
    assert forall i :: 0 <= i < |order'| ==> order'[i] == order[if i < k then i else i + 1];
    assert forall i :: 0 <= i < |order| && i != k ==> order[i] != order[k];
  }

  /** All that taking out the node in position `k` does. */
  lemma Unlinked(pool: seq<Slot>, head: int, order: seq<int>, k: int)
    requires Linked(pool, head, order) && 0 <= k < |order|
    ensures var pool', order' := Skipped(pool, order, k)[order[k] := ZERO_SLOT], Without(order, k);
            && Linked(pool', SkippedHead(pool, head, order, k), order')
            && NodesAt(pool', order') == Without(NodesAt(pool, order), k)
            && (Marked(pool, order) ==> Marked(pool', order'))
  {
    assert |pool| == POOL && Slots(order);
    hide Linked, Marked, NodesAt, Slots, Without, Skipped, SkippedHead;
    Unlink(pool, head, order, k);
    UnlinkNodes(pool, head, order, k);
    if Marked(pool, order) {
      UnlinkMarks(pool, head, order, k);
    }
  }

  // ---- allocation

  /** The first slot from `i` on that looks free, or NULL. */
  function FirstFree(pool: seq<Slot>, i: int): (p: int)
    requires 0 <= i <= |pool|
    ensures p == NULL || (i <= p < |pool| && pool[p].node.location == 0)
    ensures forall q :: i <= q < (if p == NULL then |pool| else p) ==> pool[q].node.location != 0
    decreases |pool| - i
  {
    if i == |pool| then NULL else if pool[i].node.location == 0 then i else FirstFree(pool, i + 1)
  }

  /** While the marks are right, the slot found is off the list, and none is found iff the list has all. */
  lemma FreeIsOff(pool: seq<Slot>, order: seq<int>)
    requires |pool| == POOL && Marked(pool, order)
    ensures var p := FirstFree(pool, 0);
            if p == NULL then forall q :: 0 <= q < POOL ==> q in order
            else p !in order && forall q :: 0 <= q < p ==> q in order
  {
  }

  /** A node at location 0 leaves its slot looking free, the first of all, so it is the next one given out. */
  lemma UnmarkedIsNext(pool: seq<Slot>, node: Blink, next: int)
    requires |pool| == POOL && FirstFree(pool, 0) != NULL && node.location == 0
    ensures FirstFree(pool[FirstFree(pool, 0) := Slot(node, next)], 0) == FirstFree(pool, 0)
  {
    hide FirstFree;
    var p := FirstFree(pool, 0);
    var pool' := pool[p := Slot(node, next)];
    assert pool'[p].node.location == 0;
    assert forall q :: 0 <= q < p ==> pool'[q] == pool[q];
  }

  /** Putting a slot that is on the list in front of the list closes a cycle. */
  lemma ReuseCycles(pool: seq<Slot>, head: int, order: seq<int>, p: int, node: Blink)
    requires Linked(pool, head, order) && p in order
    ensures !Ends(pool[p := Slot(node, head)], p)
  {
    var k :| 0 <= k < |order| && order[k] == p;
    var pool' := pool[p := Slot(node, head)];
    if walk :| Linked(pool', p, walk) {
      WalksAlong(pool, head, order, p, node, walk, k, k);
      assert false;
    }
  }

  lemma {:induction false} WalksAlong(
    pool: seq<Slot>, head: int, order: seq<int>, p: int, node: Blink, walk: seq<int>, k: int, i: int)
    requires Linked(pool, head, order) && 0 <= i <= k < |order| && order[k] == p
    requires Linked(pool[p := Slot(node, head)], p, walk)
    ensures i + 1 < |walk| && walk[i + 1] == order[i]
    decreases i
  {
    if i > 0 {
      WalksAlong(pool, head, order, p, node, walk, k, i - 1);
      assert order[i - 1] != order[k];
      assert NextIs(pool, order, i - 1);
    }
    assert NextIs(pool[p := Slot(node, head)], walk, i);
  }

  /** All that adding a node in slot `p` does. */
  lemma Inserted(pool: seq<Slot>, head: int, order: seq<int>, p: int, node: Blink)
    requires Linked(pool, head, order) && p == FirstFree(pool, 0) != NULL
    ensures var pool', order' := pool[p := Slot(node, head)], [p] + order;
            && (p in order ==> !Ends(pool', p))
            && (p !in order ==> Linked(pool', p, order') && NodesAt(pool', order') == [node] + NodesAt(pool, order))
            && (Marked(pool, order) ==> p !in order && (Marked(pool', order') <==> node.location != 0))
            && (node.location == 0 ==> FirstFree(pool', 0) == p)
  {
    assert |pool| == POOL && Slots(order);
    hide Linked, Marked, NodesAt, FirstFree, Ends;
    if p in order {
      ReuseCycles(pool, head, order, p, node);
    } else {
      InsertLinks(pool, head, order, p, node);
      InsertNodes(pool, order, p, node, head);
    }
    if Marked(pool, order) {
      FreeIsOff(pool, order);
      InsertMarks(pool, order, p, node, head);
    }
    if node.location == 0 {
      UnmarkedIsNext(pool, node, head);
    }
  }

  /** The first `n` nodes have taken a tick. */
  ghost predicate Ticked(items: seq<Blink>, was: seq<Blink>, n: int) {
    && |items| == |was|
    && forall i :: 0 <= i < |was| ==> items[i] == if i < n then Tick(was[i]) else was[i]
  }

  lemma TickedOne(items: seq<Blink>, was: seq<Blink>, n: int)
    requires 0 <= n < |was| && Ticked(items, was, n)
    ensures n < |items| && Ticked(items[n := Tick(items[n])], was, n + 1)
  {
  }

  class BlinkPool {
    const pool: array<Slot>
    var head: int
    ghost var order: seq<int>

    ghost predicate Chained()
      reads this, pool
    {
      pool.Length == POOL && Linked(pool[..], head, order)
    }

    ghost predicate Valid()
      reads this, pool
    {
      Chained() && Marked(pool[..], order)
    }

    /** The nodes from the most recently added to the first. */
    ghost function Items(): seq<Blink>
      reads this, pool
      requires Chained()
    {
      NodesAt(pool[..], order)
    }

    /** The pool cleared at the start of the program. */
    constructor ()
      ensures Valid() && Items() == [] && fresh(pool)
    {
      pool := new Slot[POOL](i => ZERO_SLOT);
      head := NULL;
      order := [];
    }

    /** `mp1_malloc`: the first slot that looks free. */
    method Malloc() returns (p: int)
      requires pool.Length == POOL
      ensures p == FirstFree(pool[..], 0)
    {
      for i := 0 to POOL
        invariant FirstFree(pool[..], 0) == FirstFree(pool[..], i)
      {
        if pool[i].node.location == 0 {
          return i;
        }
      }
      return NULL;
    }

    /** `mp1_find_helper`: walk from the head to the first node at this location. */
    method FindHelper(location: uint16) returns (p: int, ghost i: int)
      requires Chained()
      ensures -1 <= i < |order| && i == IndexOf(Items(), location) && (p == NULL <==> i == -1)
      ensures p == if IndexOf(Items(), location) == -1 then NULL else order[IndexOf(Items(), location)]
    {
      p, i := head, 0;
      while p != NULL && pool[p].node.location != location
        invariant 0 <= i <= |order| && p == Follower(order, i)
        invariant forall j :: 0 <= j < i ==> Items()[j].location != location
        decreases |order| - i
      {
        assert NextIs(pool[..], order, i);
        p := pool[p].next;
        i := i + 1;
      }
      if p == NULL {
        i := -1;
      } else {
        IndexUnique(Items(), location, i);
      }
    }

    /** `mp1_ioctl_add`.  A node at location 0 is linked in too, but its slot then looks free; when such
        a slot is given out again, the list is one no longer. */
    method Add(user: Blink) returns (r: int)
      requires Chained()
      modifies this, pool
      ensures r == 0 || r == -1
      ensures r == -1 <==> user.location >= POOL || FirstFree(old(pool[..]), 0) == NULL
      ensures r == -1 ==> Chained() && Items() == old(Items()) && pool[..] == old(pool[..])
      ensures r == 0 && FirstFree(old(pool[..]), 0) !in old(order) ==>
                Chained() && Items() == [WithStart(user)] + old(Items())
      ensures r == 0 && FirstFree(old(pool[..]), 0) !in old(order) ==>
                && Chained() && |Items()| == |old(Items())| + 1 && Items()[1..] == old(Items())
                && Items()[0].location == user.location
                && Items()[0].onChar == user.onChar && Items()[0].offChar == user.offChar
                && Items()[0].onLength == user.onLength && Items()[0].offLength == user.offLength
                && Items()[0].status == 1 && Items()[0].countdown == user.onLength
      ensures r == 0 && FirstFree(old(pool[..]), 0) in old(order) ==>
                pool.Length == POOL && !Ends(pool[..], head)
      ensures old(Valid()) ==> Chained() && (Valid() <==> r == -1 || user.location != 0)
      ensures old(Valid()) ==> (r == -1 <==> user.location >= POOL || forall q :: 0 <= q < POOL ==> q in old(order))
      ensures old(Valid()) && r == 0 && user.location == 0 ==> FirstFree(pool[..], 0) in order
    {
      if Marked(pool[..], order) {
        FreeIsOff(pool[..], order);
      }
      if user.location >= POOL {
        return -1;
      }
      var temp := user.(status := 1);
      temp := temp.(countdown := temp.onLength);
      var p := Malloc();
      if p == NULL {
        return -1;
      }
      Inserted(pool[..], head, order, p, temp);
      hide Linked, Marked, NodesAt, FirstFree, Ends;
      pool[p] := Slot(temp, head);
      head := p;
      order := [p] + order;
      return 0;
    }

    /** The pointer-to-pointer walk: from the head pointer itself to the link that holds `p`. */
    method FindPrevious(p: int, ghost k: int) returns (prev: int)
      requires Chained() && 0 <= k < |order| && order[k] == p
      ensures prev == if k == 0 then NULL else order[k - 1]
    {
      prev := NULL;
      var target := head;
      ghost var i := 0;
      while target != p
        invariant 0 <= i <= k && target == order[i]
        invariant prev == if i == 0 then NULL else order[i - 1]
        decreases k - i
      {
        assert NextIs(pool[..], order, i);
        prev := target;
        target := pool[target].next;
        i := i + 1;
      }
      assert order[i] == order[k];
    }

    /** `mp1_ioctl_remove`: unlink the most recent node at the location and free its slot. */
    method Remove(location: uint16) returns (r: int)
      requires Chained()
      modifies this, pool
      ensures Chained() && (old(Valid()) ==> Valid()) && (r == 0 || r == -1)
      ensures var k := IndexOf(old(Items()), location);
              if k == -1 then r == -1 && Items() == old(Items())
              else r == 0 && Items() == Without(old(Items()), k)
    {
      hide Linked, Marked, NodesAt, IndexOf, Without;
      var p;
      ghost var k;
      p, k := FindHelper(location);
      if p == NULL {
        return -1;
      }
      var prev := FindPrevious(p, k);
      TakeOut(p, prev, k);
      return 0;
    }

    /** The removal itself. */
    method TakeOut(p: int, prev: int, ghost k: int)
      requires Chained() && 0 <= k < |order| && order[k] == p && prev == if k == 0 then NULL else order[k - 1]
      modifies this, pool
      ensures Chained() && (old(Valid()) ==> Valid())
      ensures k < |old(Items())| && Items() == Without(old(Items()), k)
    {
      Unlinked(pool[..], head, order, k);
      hide Linked, Marked, NodesAt, Slots, Without, Skipped, SkippedHead;
      Bypass(p, prev, k);
      order := Without(order, k);
    }

    /** Store past the node and clear it. */
    method Bypass(p: int, prev: int, ghost k: int)
      requires Chained() && 0 <= k < |order| && order[k] == p && prev == if k == 0 then NULL else order[k - 1]
      modifies this`head, pool
      ensures pool[..] == Skipped(old(pool[..]), order, k)[p := ZERO_SLOT]
      ensures head == SkippedHead(old(pool[..]), old(head), order, k)
    {
      if prev == NULL {
        head := pool[p].next;
      } else {
        pool[prev] := pool[prev].(next := pool[p].next);
      }
      pool[p] := ZERO_SLOT;
    }

    /** Change one node in place, leaving its link and location. */
    method SetNode(p: int, b: Blink, ghost k: int)
      requires Chained() && 0 <= k < |order| && order[k] == p && b.location == pool[p].node.location
      modifies pool
      ensures Chained() && (old(Valid()) ==> Valid()) && Items() == old(Items())[k := b]
    {
      ghost var v := pool[..];
      pool[p] := pool[p].(node := b);
      assert forall i :: 0 <= i < |order| ==> NextIs(v, order, i) ==> NextIs(pool[..], order, i);
    }

    /** The link of the node in position `i`. */
    method NextOf(p: int, ghost i: int) returns (next: int)
      requires Chained() && 0 <= i < |order| && p == order[i]
      ensures next == Follower(order, i + 1) && 0 <= p < pool.Length && Items()[i] == pool[p].node
    {
      assert NextIs(pool[..], order, i);
      next := pool[p].next;
    }

    /** The body of the tasklet's loop, up to the store. */
    static method TickNode(node: Blink) returns (b: Blink)
      ensures b == Tick(node)
    {
      b := node;
      var c: uint16 := (b.countdown + 0xFFFF) % 0x1_0000;
      b := b.(countdown := c);
      if Signed(c) <= 0 {
        if b.status % 2 == 1 {
          b := b.(countdown := b.offLength);
        } else {
          b := b.(countdown := b.onLength);
        }
        b := b.(status := FlipBit0(b.status));
      }
    }

    /** `mp1_rtc_tasklet`: one tick for every node on the list. */
    method Tasklet()
      requires Chained()
      modifies pool
      ensures Chained() && (old(Valid()) ==> Valid()) && |Items()| == |old(Items())|
      ensures forall i :: 0 <= i < |Items()| ==> Items()[i] == Tick(old(Items())[i])
    {
      var p := head;
      ghost var i, was := 0, Items();
      while p != NULL
        invariant Chained() && (old(Valid()) ==> Valid())
        invariant |was| == |order| && 0 <= i <= |order| && p == Follower(order, i) && Ticked(Items(), was, i)
        decreases |order| - i
      {
        hide Tick, Linked, Marked, NodesAt, Ticked;
        var next := NextOf(p, i);
        TickedOne(Items(), was, i);
        var b := TickNode(pool[p].node);
        SetNode(p, b, i);
        p := next;
        i := i + 1;
      }
    }

    /** The demo's waiting loop: `k` ticks, after which every node is where its own clock puts it. */
    method Wait(k: nat)
      requires Chained()
      modifies pool
      ensures Chained() && (old(Valid()) ==> Valid()) && |Items()| == |old(Items())|
      ensures forall i :: 0 <= i < |Items()| ==> Items()[i] == Ticks(old(Items())[i], k)
    {
      ghost var was := Items();
      for n := 0 to k
        invariant Chained() && (old(Valid()) ==> Valid()) && |Items()| == |was|
        invariant forall i :: 0 <= i < |was| ==> Items()[i] == Ticks(was[i], n)
      {
        Tasklet();
      }
    }

    /** `mp1_ioctl_sync`: the source location in the high half of the argument, the other in the low. */
    method Sync(arg: uint32) returns (r: int)
      requires Chained()
      modifies pool
      ensures Chained() && (old(Valid()) ==> Valid()) && (r == 0 || r == -1)
      ensures var s, d := IndexOf(old(Items()), arg / 0x1_0000), IndexOf(old(Items()), arg % 0x1_0000);
              if s == -1 || d == -1 then r == -1 && Items() == old(Items())
              else r == 0 && Items() == old(Items())[d := Synced(old(Items())[d], old(Items())[s])]
      ensures var s, d := IndexOf(old(Items()), arg / 0x1_0000), IndexOf(old(Items()), arg % 0x1_0000);
              r == 0 ==>
                && 0 <= s < |Items()| && 0 <= d < |Items()| && |Items()| == |old(Items())|
                && Items()[d].onChar == old(Items())[d].onChar && Items()[d].offChar == old(Items())[d].offChar
                && Items()[d].onLength == old(Items())[s].onLength
                && Items()[d].offLength == old(Items())[s].offLength
                && Items()[d].countdown == old(Items())[s].countdown && Items()[d].status == old(Items())[s].status
    {
      var src, dst;
      ghost var s, d;
      src, s := FindHelper(arg / 0x1_0000);
      if src == NULL {
        return -1;
      }
      dst, d := FindHelper(arg % 0x1_0000);
      if dst == NULL {
        return -1;
      }
      var a, b := pool[src].node, pool[dst].node;
      b := b.(onLength := a.onLength);
      b := b.(offLength := a.offLength);
      b := b.(countdown := a.countdown);
      b := b.(status := a.status);
      SetNode(dst, b, d);
      return 0;
    }

    /** `mp1_ioctl_find`: a copy of the most recent node at the location. */
    method Find(location: uint16) returns (r: int, b: Blink)
      requires Chained()
      ensures var k := IndexOf(Items(), location);
              if k == -1 then r == -1 else r == 0 && b == Items()[k]
    {
      var p;
      ghost var k;
      p, k := FindHelper(location);
      if p == NULL {
        return -1, ZERO_SLOT.node;
      }
      return 0, pool[p].node;
    }
  }
}
