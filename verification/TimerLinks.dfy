/** The circular doubly linked lists of the timer wheel, with cells numbered: the
    heads first (256 + 256 slots and the dump slot used while dispatching), then
    the timer nodes. For the proof every node also carries the head of the ring it
    is in, and a rank that falls along the ring, so that a ring is one cycle. */
module TimerLinks {
  const DUMP: nat := 512
  const HEADS: nat := 513
  const NOWHERE: int := -1

  datatype Links = Links(next: seq<nat>, prev: seq<nat>, home: seq<int>, rank: seq<nat>)

  ghost predicate Shape(l: Links) {
    HEADS <= |l.next| == |l.prev| == |l.home| == |l.rank|
  }

  ghost predicate Node(l: Links, x: nat) {
    HEADS <= x < |l.next|
  }

  /** From node `x` the ring of head `s` goes on to the head or a lower node. The
      dump slot's own back link is never kept up to date. */
  ghost predicate NextOk(l: Links, s: nat, x: nat)
    requires Shape(l) && x < |l.next|
  {
    var y := l.next[x];
    && (y == s || (Node(l, y) && l.home[y] == s && l.rank[y] < l.rank[x]))
    && (y == DUMP || (y < |l.prev| && l.prev[y] == x))
  }

  ghost predicate PrevOk(l: Links, s: nat, x: nat)
    requires Shape(l) && x < |l.next|
  {
    var y := l.prev[x];
    && (y == s || (Node(l, y) && l.home[y] == s && l.rank[x] < l.rank[y]))
    && y < |l.next| && l.next[y] == x
  }

  ghost predicate NodeOk(l: Links, x: nat)
    requires Shape(l) && Node(l, x)
  {
    if l.home[x] == NOWHERE then l.next[x] == x && l.prev[x] == x
    else 0 <= l.home[x] < HEADS && NextOk(l, l.home[x], x) && PrevOk(l, l.home[x], x)
  }

  ghost predicate HeadOk(l: Links, s: nat)
    requires Shape(l) && s < HEADS
  {
    && (l.next[s] == s || (Node(l, l.next[s]) && l.home[l.next[s]] == s && l.prev[l.next[s]] == s))
    && (s == DUMP || l.prev[s] == s || (Node(l, l.prev[s]) && l.home[l.prev[s]] == s && l.next[l.prev[s]] == s))
  }

  ghost predicate LinksOk(l: Links) {
    && Shape(l)
    && (forall x: nat :: Node(l, x) ==> NodeOk(l, x))
    && (forall s: nat :: s < HEADS ==> HeadOk(l, s))
  }

  // ---- what the links say about a ring ----

  ghost predicate RingOk(l: Links, s: nat) {
    && Shape(l) && s < HEADS && HeadOk(l, s)
    && (forall x: nat :: Node(l, x) && l.home[x] == s ==> NodeOk(l, x))
  }

  /** The first node of a ring has the highest rank. */
  lemma FirstIsHighest(l: Links, s: nat, x: nat)
    requires RingOk(l, s) && Node(l, x) && l.home[x] == s
    ensures Node(l, l.next[s]) && l.rank[x] <= l.rank[l.next[s]]
    decreases RankBound(l, |l.rank|) - l.rank[x]
  {
    assert NodeOk(l, x);
    if l.prev[x] != s {
      RankBelowBound(l, l.prev[x], |l.rank|);
      RankBelowBound(l, x, |l.rank|);
      FirstIsHighest(l, s, l.prev[x]);
    }
  }

  ghost function RankBound(l: Links, n: nat): (b: nat)
    requires n <= |l.rank|
  {
    if n == 0 then 0
    else
      var b := RankBound(l, n - 1);
      if l.rank[n - 1] > b then l.rank[n - 1] else b
  }

  lemma {:induction false} RankBelowBound(l: Links, x: nat, n: nat)
    requires x < n <= |l.rank|
    ensures l.rank[x] <= RankBound(l, n)
  {
    if x < n - 1 { RankBelowBound(l, x, n - 1); }
  }

  /** A slot whose back link points to itself heads an empty ring. */
  lemma LastIsLinked(l: Links, s: nat, x: nat)
    requires LinksOk(l) && s < DUMP && Node(l, x) && l.home[x] == s
    ensures l.prev[s] != s
    decreases l.rank[x]
  {
    assert NodeOk(l, x);
    if l.next[x] != s {
      LastIsLinked(l, s, l.next[x]);
    }
  }

  // ---- unlink ----

  function Unlinked(l: Links, x: nat): (l': Links)
    requires |l.next| == |l.prev| == |l.home| && x < |l.next| && l.next[x] < |l.next| && l.prev[x] < |l.next|
  {
    var n, p := l.next[x], l.prev[x];
    l.(next := l.next[p := n][x := x], prev := l.prev[n := p][x := x], home := l.home[x := NOWHERE])
  }

  lemma UnlinkNode(l: Links, x: nat, z: nat)
    requires LinksOk(l) && Node(l, x) && l.home[x] != NOWHERE && Node(l, z)
    requires l.next[x] < |l.next| && l.prev[x] < |l.next|
    ensures NodeOk(Unlinked(l, x), z)
  {
    assert NodeOk(l, x) && NodeOk(l, z);
    var l' := Unlinked(l, x);
    if z != x && l.home[z] != NOWHERE {
      assert NextOk(l', l.home[z], z);
      assert PrevOk(l', l.home[z], z);
    }
  }

  lemma UnlinkHead(l: Links, x: nat, t: nat)
    requires LinksOk(l) && Node(l, x) && l.home[x] != NOWHERE && t < HEADS
    requires l.next[x] < |l.next| && l.prev[x] < |l.next|
    ensures HeadOk(Unlinked(l, x), t)
  {
    assert NodeOk(l, x) && HeadOk(l, t);
    var l', n, p := Unlinked(l, x), l.next[x], l.prev[x];
    if t != l.home[x] {
      assert l'.next[t] == l.next[t] && l'.prev[t] == l.prev[t];
      assert Node(l, l.next[t]) ==> l.next[t] != n && l.next[t] != x;
      assert t != DUMP && Node(l, l.prev[t]) ==> l.prev[t] != p && l.prev[t] != x;
    } else {
      assert n != t ==> NodeOk(l, n);
      assert p != t ==> NodeOk(l, p);
    }
  }

  lemma UnlinkKeeps(l: Links, x: nat)
    requires LinksOk(l) && Node(l, x)
    ensures l.next[x] < |l.next| && l.prev[x] < |l.next|
    ensures LinksOk(Unlinked(l, x))
  {
    assert NodeOk(l, x);
    var l' := Unlinked(l, x);
    if l.home[x] == NOWHERE {
      assert l' == l;
    } else {
      forall z: nat | Node(l', z)
        ensures NodeOk(l', z)
      {
        UnlinkNode(l, x, z);
      }
      forall t: nat | t < HEADS
        ensures HeadOk(l', t)
      {
        UnlinkHead(l, x, t);
      }
    }
  }

  // ---- insertion behind a head ----

  function Inserted(l: Links, s: nat, x: nat, r: nat): (l': Links)
    requires |l.next| == |l.prev| == |l.home| == |l.rank| && x < |l.next| && s < |l.next| && l.next[s] < |l.next|
  {
    Links(l.next[x := l.next[s]][s := x], l.prev[x := s][l.next[s] := x], l.home[x := s], l.rank[x := r])
  }

  lemma InsertNode(l: Links, s: nat, x: nat, r: nat, z: nat)
    requires LinksOk(l) && s < DUMP && Node(l, x) && l.home[x] == NOWHERE && Node(l, z) && l.next[s] < |l.next|
    requires forall y: nat :: Node(l, y) ==> l.rank[y] < r
    ensures NodeOk(Inserted(l, s, x, r), z)
  {
    assert HeadOk(l, s) && NodeOk(l, x) && NodeOk(l, z);
    var l' := Inserted(l, s, x, r);
    if z == x {
      assert NextOk(l', s, x);
      assert PrevOk(l', s, x);
    } else if l.home[z] != NOWHERE {
      if l.home[z] == s { FirstIsHighest(l, s, z); }
      assert NextOk(l', l.home[z], z);
      assert PrevOk(l', l.home[z], z);
    }
  }

  lemma InsertHead(l: Links, s: nat, x: nat, r: nat, t: nat)
    requires LinksOk(l) && s < DUMP && Node(l, x) && l.home[x] == NOWHERE && t < HEADS && l.next[s] < |l.next|
    ensures HeadOk(Inserted(l, s, x, r), t)
  {
    assert HeadOk(l, s) && HeadOk(l, t) && NodeOk(l, x);
  }

  lemma InsertKeeps(l: Links, s: nat, x: nat, r: nat)
    requires LinksOk(l) && s < DUMP && Node(l, x) && l.home[x] == NOWHERE
    requires forall y: nat :: Node(l, y) ==> l.rank[y] < r
    ensures l.next[s] < |l.next| && LinksOk(Inserted(l, s, x, r))
  {
    assert HeadOk(l, s);
    var l' := Inserted(l, s, x, r);
    forall z: nat | Node(l', z)
      ensures NodeOk(l', z)
    {
      InsertNode(l, s, x, r, z);
    }
    forall t: nat | t < HEADS
      ensures HeadOk(l', t)
    {
      InsertHead(l, s, x, r, t);
    }
  }

  // ---- detaching a slot for dispatch ----

  /** The nodes of slot `s` hang on the dump slot; the slot is empty. */
  function Detached(l: Links, s: nat): (l': Links)
    requires HEADS <= |l.next| == |l.prev| == |l.home| == |l.rank| && s < DUMP
    requires l.next[s] < |l.next| && l.prev[s] < |l.next|
  {
    l.(next := l.next[DUMP := l.next[s]][l.prev[s] := DUMP][s := s],
       prev := l.prev[l.next[s] := DUMP][s := s],
       home := seq(|l.home|, i requires 0 <= i < |l.home| => if l.home[i] == s then DUMP else l.home[i]))
  }

  lemma DetachNode(l: Links, s: nat, z: nat)
    requires LinksOk(l) && s < DUMP && l.prev[s] != s && Node(l, z) && l.home[z] == s
    requires Node(l, l.next[s]) && l.prev[s] < |l.next|
    ensures NodeOk(Detached(l, s), z)
  {
    assert HeadOk(l, s) && NodeOk(l, z);
    var l', y, p := Detached(l, s), l.next[z], l.prev[z];
    assert l'.home[z] == DUMP && (Node(l, y) ==> l'.home[y] == DUMP) && (Node(l, p) ==> l'.home[p] == DUMP);
    assert l'.next[z] == (if y == s then DUMP else y) && l'.prev[z] == (if p == s then DUMP else p);
    assert NextOk(l', DUMP, z);
    assert PrevOk(l', DUMP, z);
  }

  lemma DetachOther(l: Links, s: nat, z: nat)
    requires LinksOk(l) && s < DUMP && l.prev[s] != s && Node(l, z) && l.home[z] != s && l.home[z] != DUMP
    requires Node(l, l.next[s]) && l.prev[s] < |l.next|
    ensures NodeOk(Detached(l, s), z)
  {
    assert HeadOk(l, s) && NodeOk(l, z);
    var l' := Detached(l, s);
    assert l'.next[z] == l.next[z] && l'.prev[z] == l.prev[z] && l'.home[z] == l.home[z];
    if l.home[z] != NOWHERE {
      var y := l.next[z];
      assert l'.prev[y] == l.prev[y] && (Node(l, y) ==> l'.home[y] == l.home[y]);
      assert NextOk(l', l.home[z], z);
      var p := l.prev[z];
      assert l'.next[p] == l.next[p] && (Node(l, p) ==> l'.home[p] == l.home[p]);
      assert PrevOk(l', l.home[z], z);
    }
  }

  lemma DetachKeeps(l: Links, s: nat)
    requires LinksOk(l) && s < DUMP && l.prev[s] != s
    requires forall y: nat :: Node(l, y) ==> l.home[y] != DUMP
    ensures l.next[s] < |l.next| && l.prev[s] < |l.next| && LinksOk(Detached(l, s))
  {
    assert HeadOk(l, s);
    FirstIsHighest(l, s, l.prev[s]);
    var l' := Detached(l, s);
    forall z: nat | Node(l', z)
      ensures NodeOk(l', z)
    {
      if l.home[z] == s {
        DetachNode(l, s, z);
      } else {
        DetachOther(l, s, z);
      }
    }
    forall t: nat | t < HEADS
      ensures HeadOk(l', t)
    {
      assert HeadOk(l, t);
    }
  }

  // ---- moving a whole ring, node by node ----

  /** The ring of head `s` is being emptied from the front: its nodes are the one
      at `cur` and those after it, linked forward only as far as matters. */
  ghost predicate Emptying(l: Links, s: nat, cur: nat) {
    && Shape(l) && s < DUMP && cur < |l.next|
    && (forall x: nat :: Node(l, x) && l.home[x] != s ==> NodeOk(l, x))
    && (forall x: nat :: Node(l, x) ==> LeftOver(l, s, cur, x))
    && (forall t: nat :: t < HEADS && t != s ==> HeadOk(l, t))
    && (cur == s || (Node(l, cur) && l.home[cur] == s))
  }

  ghost predicate LeftOver(l: Links, s: nat, cur: nat, x: nat)
    requires Shape(l) && cur < |l.next| && Node(l, x)
  {
    l.home[x] == s ==>
      && cur != s && NextOk(l, s, x) && l.rank[x] <= l.rank[cur]
      && (x != cur ==> l.prev[x] != s && PrevOk(l, s, x))
  }

  lemma StartEmptying(l: Links, s: nat)
    requires LinksOk(l) && s < DUMP
    ensures l.next[s] < |l.next| && Emptying(l, s, l.next[s])
  {
    assert HeadOk(l, s);
    forall x: nat | Node(l, x)
      ensures LeftOver(l, s, l.next[s], x)
    {
      assert NodeOk(l, x);
      if l.home[x] == s {
        FirstIsHighest(l, s, x);
      }
    }
  }

  /** When the front is gone, whoever is left ranks no higher than its successor. */
  lemma SuccessorIsNext(l: Links, s: nat, cur: nat, x: nat)
    requires Emptying(l, s, cur) && cur != s && Node(l, x) && l.home[x] == s && x != cur
    ensures Node(l, l.next[cur]) && l.rank[x] <= l.rank[l.next[cur]]
    decreases l.rank[cur] - l.rank[x]
  {
    assert LeftOver(l, s, cur, x) && LeftOver(l, s, cur, cur);
    if l.prev[x] != cur {
      assert LeftOver(l, s, cur, l.prev[x]);
      SuccessorIsNext(l, s, cur, l.prev[x]);
    }
  }

  lemma MoveFront(l: Links, s: nat, cur: nat, t: nat, r: nat)
    requires Emptying(l, s, cur) && cur != s && t < DUMP && t != s && l.next[t] < |l.next| && l.rank[cur] < r
    requires forall y: nat :: Node(l, y) ==> l.rank[y] < r
    ensures NodeOk(Inserted(l, t, cur, r), cur)
  {
    assert HeadOk(l, t);
    assert NextOk(Inserted(l, t, cur, r), t, cur);
    assert PrevOk(Inserted(l, t, cur, r), t, cur);
  }

  lemma MoveOther(l: Links, s: nat, cur: nat, t: nat, r: nat, z: nat)
    requires Emptying(l, s, cur) && cur != s && t < DUMP && t != s && l.next[t] < |l.next|
    requires Node(l, z) && l.home[z] != s && forall y: nat :: Node(l, y) ==> l.rank[y] < r
    ensures NodeOk(Inserted(l, t, cur, r), z)
  {
    assert HeadOk(l, t) && NodeOk(l, z);
    if l.home[z] != NOWHERE {
      if l.home[z] == t { FirstIsHighest(l, t, z); }
      assert NextOk(Inserted(l, t, cur, r), l.home[z], z);
      assert PrevOk(Inserted(l, t, cur, r), l.home[z], z);
    }
  }

  lemma MoveLeftOver(l: Links, s: nat, cur: nat, t: nat, r: nat, z: nat)
    requires Emptying(l, s, cur) && cur != s && t < DUMP && t != s && l.next[t] < |l.next| && Node(l, z)
    ensures l.next[cur] < |l.next| && LeftOver(Inserted(l, t, cur, r), s, l.next[cur], z)
  {
    assert HeadOk(l, t) && LeftOver(l, s, cur, cur) && LeftOver(l, s, cur, z);
    if z != cur && l.home[z] == s {
      SuccessorIsNext(l, s, cur, z);
      var l' := Inserted(l, t, cur, r);
      assert NextOk(l', s, z);
      if z != l.next[cur] {
        assert LeftOver(l, s, cur, l.prev[z]);
        assert PrevOk(l', s, z);
      }
    }
  }

  /** Hooking the front node behind another head leaves the rest to be emptied. */
  lemma MoveKeeps(l: Links, s: nat, cur: nat, t: nat, r: nat)
    requires Emptying(l, s, cur) && cur != s && t < DUMP && t != s
    requires forall y: nat :: Node(l, y) ==> l.rank[y] < r
    ensures l.next[t] < |l.next| && Emptying(Inserted(l, t, cur, r), s, l.next[cur])
  {
    assert HeadOk(l, t) && LeftOver(l, s, cur, cur);
    var l' := Inserted(l, t, cur, r);
    forall x: nat | Node(l', x)
      ensures LeftOver(l', s, l.next[cur], x) && (l'.home[x] != s ==> NodeOk(l', x))
    {
      MoveLeftOver(l, s, cur, t, r, x);
      if x == cur {
        MoveFront(l, s, cur, t, r);
      } else if l.home[x] != s {
        MoveOther(l, s, cur, t, r, x);
      }
    }
    forall t': nat | t' < HEADS && t' != s
      ensures HeadOk(l', t')
    {
      MoveHead(l, s, cur, t, r, t');
    }
  }

  lemma MoveHead(l: Links, s: nat, cur: nat, t: nat, r: nat, t': nat)
    requires Emptying(l, s, cur) && cur != s && t < DUMP && t != s && l.next[t] < |l.next|
    requires t' < HEADS && t' != s
    ensures HeadOk(Inserted(l, t, cur, r), t')
  {
    assert HeadOk(l, t) && HeadOk(l, t');
  }

  /** With every node gone, resetting the head's own links restores the rings. */
  lemma EmptiedKeeps(l: Links, s: nat)
    requires Emptying(l, s, s)
    ensures LinksOk(l.(next := l.next[s := s], prev := l.prev[s := s]))
    ensures forall x: nat :: Node(l, x) ==> l.home[x] != s
  {
    var l' := l.(next := l.next[s := s], prev := l.prev[s := s]);
    forall x: nat | Node(l', x)
      ensures NodeOk(l', x) && l.home[x] != s
    {
      assert LeftOver(l, s, s, x) && NodeOk(l, x);
    }
    forall t: nat | t < HEADS
      ensures HeadOk(l', t)
    {
      assert t != s ==> HeadOk(l, t);
    }
  }
}
