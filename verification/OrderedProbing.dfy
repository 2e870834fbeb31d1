/** Ordered linear probing, on sequences of keys. A key starts at its home cell
    and passes every smaller key, so the cells between a key's home and its place
    hold smaller keys only. The free-cell marker is larger than every key. */
module OrderedProbing {
  import opened Words

  const EMPTY_KEY: nat := 0x8000_0000_0000_0000

  /** `key & tbl_mask`, where `size` is the mask plus one, a power of two. */
  function Home(key: nat, size: nat): (h: nat)
    requires size > 0
    ensures h < size
  {
    key % size
  }

  /** Every cell from the home of `key` up to `p` holds a smaller key. */
  ghost predicate Walked(keys: seq<nat>, size: nat, p: nat, key: nat)
    requires size > 0
  {
    && Home(key, size) <= p <= |keys|
    && forall q :: Home(key, size) <= q < p ==> keys[q] < key
  }

  /** Cell `p` is free, or its key may stand there. */
  ghost predicate WellPlaced(keys: seq<nat>, size: nat, p: nat)
    requires size > 0 && p < |keys|
  {
    keys[p] != EMPTY_KEY ==> keys[p] < EMPTY_KEY && Walked(keys, size, p, keys[p])
  }

  ghost predicate Ordered(keys: seq<nat>, size: nat) {
    size > 0 && forall p: nat :: p < |keys| ==> WellPlaced(keys, size, p)
  }

  /** `p` is where the walk for `key` stops. */
  ghost predicate IsSlot(keys: seq<nat>, size: nat, p: nat, key: nat)
    requires size > 0
  {
    p < |keys| && Walked(keys, size, p, key) && keys[p] >= key
  }

  ghost function KeysOf(keys: seq<nat>): (s: set<nat>) {
    set k | k in keys && k != EMPTY_KEY
  }

  /** Cell `p` is free, or holds a key of the map with its id. */
  ghost predicate CellReads(keys: seq<nat>, ids: seq<nat>, m: map<nat, nat>, p: nat)
    requires p < |keys| == |ids|
  {
    keys[p] != EMPTY_KEY ==> keys[p] in m && m[keys[p]] == ids[p]
  }

  ghost predicate Stored(keys: seq<nat>, k: nat) {
    k < EMPTY_KEY && k in keys
  }

  /** The table of cells stands for the map `m`. */
  ghost predicate Represents(keys: seq<nat>, ids: seq<nat>, m: map<nat, nat>) {
    && |keys| == |ids|
    && (forall p: nat :: p < |keys| ==> CellReads(keys, ids, m, p))
    && (forall k {:trigger Stored(keys, k)} :: k in m ==> Stored(keys, k))
  }

  // ---- lookups ----

  lemma SlotUnique(keys: seq<nat>, size: nat, p: nat, q: nat, key: nat)
    requires size > 0 && IsSlot(keys, size, p, key) && IsSlot(keys, size, q, key)
    ensures p == q
  {
  }

  /** The walk for a key stops on its own cell exactly when the key is stored. */
  lemma SlotFinds(keys: seq<nat>, size: nat, p: nat, key: nat)
    requires Ordered(keys, size) && key < EMPTY_KEY && IsSlot(keys, size, p, key)
    ensures keys[p] == key <==> key in keys
  {
    if key in keys {
      var q :| 0 <= q < |keys| && keys[q] == key;
      assert WellPlaced(keys, size, q);
      SlotUnique(keys, size, p, q, key);
    }
  }

  /** So a lookup reads the map. */
  lemma SlotReadsMap(keys: seq<nat>, ids: seq<nat>, size: nat, p: nat, key: nat, m: map<nat, nat>)
    requires Ordered(keys, size) && Represents(keys, ids, m) && key < EMPTY_KEY && IsSlot(keys, size, p, key)
    ensures keys[p] == key <==> key in m
    ensures key in m ==> ids[p] == m[key]
  {
    SlotFinds(keys, size, p, key);
    assert CellReads(keys, ids, m, p);
    assert key in m ==> Stored(keys, key);
    if key in keys {
      assert keys[p] == key;
    }
  }

  lemma KeysDistinct(keys: seq<nat>, size: nat, p: nat, q: nat)
    requires Ordered(keys, size) && p < |keys| && q < |keys|
    requires keys[p] == keys[q] != EMPTY_KEY
    ensures p == q
  {
    assert WellPlaced(keys, size, p) && WellPlaced(keys, size, q);
    SlotUnique(keys, size, p, q, keys[p]);
  }

  lemma SamePlace(a: seq<nat>, b: seq<nat>, size: nat, p: nat)
    requires Ordered(a, size) && Ordered(b, size) && |a| == |b|
    requires forall k :: k != EMPTY_KEY ==> (k in a <==> k in b)
    requires p < |a| && a[p] != EMPTY_KEY
    ensures b[p] == a[p]
    decreases a[p]
  {
    assert a[p] in a;
    var q :| 0 <= q < |b| && b[q] == a[p];
    if q < p {
      assert WellPlaced(a, size, p) && WellPlaced(b, size, q);
      SamePlace(a, b, size, q);
    } else if p < q {
      assert WellPlaced(a, size, p) && WellPlaced(b, size, q);
      SamePlace(b, a, size, p);
    }
  }

  /** The layout is a function of the set of stored keys alone: whatever the
      order of additions and deletions that led to two tables, if they hold the
      same keys they are equal cell by cell. */
  lemma UniqueLayout(a: seq<nat>, b: seq<nat>, size: nat)
    requires Ordered(a, size) && Ordered(b, size) && |a| == |b|
    requires KeysOf(a) == KeysOf(b)
    ensures a == b
  {
    assert forall k :: k != EMPTY_KEY ==> (k in a <==> k in KeysOf(a));
    assert forall k :: k != EMPTY_KEY ==> (k in b <==> k in KeysOf(b));
    forall p | 0 <= p < |a|
      ensures a[p] == b[p]
    {
      if a[p] != EMPTY_KEY {
        SamePlace(a, b, size, p);
      } else if b[p] != EMPTY_KEY {
        SamePlace(b, a, size, p);
      }
    }
  }

  // ---- counting occupied cells ----

  ghost function Occupied(keys: seq<nat>, n: nat): (c: nat)
    requires n <= |keys|
  {
    if n == 0 then 0
    else Occupied(keys, n - 1) + if keys[n - 1] != EMPTY_KEY then 1 else 0
  }

  lemma {:induction false} OccupiedRange(keys: seq<nat>, lo: nat, hi: nat)
    requires lo <= hi <= |keys|
    ensures 0 <= Occupied(keys, hi) - Occupied(keys, lo) <= hi - lo
    ensures (forall q :: lo <= q < hi ==> keys[q] != EMPTY_KEY)
            ==> Occupied(keys, hi) - Occupied(keys, lo) == hi - lo
    ensures (forall q :: lo <= q < hi ==> keys[q] == EMPTY_KEY)
            <==> Occupied(keys, hi) == Occupied(keys, lo)
  {
    if lo < hi {
      OccupiedRange(keys, lo, hi - 1);
    }
  }

  ghost predicate Run(keys: seq<nat>, lo: nat, hi: nat)
    requires hi <= |keys|
  {
    forall q :: lo <= q < hi ==> keys[q] != EMPTY_KEY
  }

  /** A run of occupied cells is no longer than the number of stored keys. */
  lemma RunBound(keys: seq<nat>, lo: nat, hi: nat)
    requires lo <= hi <= |keys| && Run(keys, lo, hi)
    ensures hi - lo <= Occupied(keys, |keys|)
  {
    OccupiedRange(keys, lo, hi);
    OccupiedRange(keys, hi, |keys|);
  }

  lemma {:induction false} OccupiedUpdate(keys: seq<nat>, p: nat, k: nat, n: nat)
    requires p < |keys| && n <= |keys|
    ensures Occupied(keys[p := k], n) ==
            Occupied(keys, n) + if p >= n || (keys[p] == EMPTY_KEY) == (k == EMPTY_KEY) then 0
                                else if k == EMPTY_KEY then -1 else 1
  {
    if n > 0 {
      OccupiedUpdate(keys, p, k, n - 1);
    }
  }

  lemma {:induction false} OccupiedSame(a: seq<nat>, b: seq<nat>, n: nat)
    requires n <= |a| && n <= |b| && a[..n] == b[..n]
    ensures Occupied(a, n) == Occupied(b, n)
  {
    if n > 0 {
      assert a[..n][n - 1] == b[..n][n - 1];
      assert a[..n - 1] == a[..n][..n - 1] == b[..n - 1];
      OccupiedSame(a, b, n - 1);
    }
  }

  lemma FirstOccurrence(keys: seq<nat>, size: nat, n: nat)
    requires Ordered(keys, size) && n < |keys| && keys[n] != EMPTY_KEY
    ensures keys[n] !in keys[..n]
  {
    forall q | 0 <= q < n
      ensures keys[q] != keys[n]
    {
      if keys[q] == keys[n] {
        KeysDistinct(keys, size, q, n);
      }
    }
  }

  lemma {:induction false} OccupiedIsCount(keys: seq<nat>, size: nat, n: nat)
    requires Ordered(keys, size) && n <= |keys|
    ensures Occupied(keys, n) == |KeysOf(keys[..n])|
  {
    if n == 0 {
      assert KeysOf(keys[..0]) == {};
    } else {
      OccupiedIsCount(keys, size, n - 1);
      assert keys[..n] == keys[..n - 1] + [keys[n - 1]];
      if keys[n - 1] == EMPTY_KEY {
        assert KeysOf(keys[..n]) == KeysOf(keys[..n - 1]);
      } else {
        assert KeysOf(keys[..n]) == KeysOf(keys[..n - 1]) + {keys[n - 1]};
        FirstOccurrence(keys, size, n - 1);
      }
    }
  }

  lemma StoredKeys(keys: seq<nat>, ids: seq<nat>, m: map<nat, nat>)
    requires Represents(keys, ids, m)
    ensures KeysOf(keys) == m.Keys
  {
    forall k | k in KeysOf(keys)
      ensures k in m
    {
      var p: nat :| p < |keys| && keys[p] == k;
      assert CellReads(keys, ids, m, p);
    }
    forall k | k in m
      ensures k in KeysOf(keys)
    {
      assert Stored(keys, k);
    }
  }

  /** The table has one occupied cell per entry of the map. */
  lemma EntryCount(keys: seq<nat>, ids: seq<nat>, size: nat, m: map<nat, nat>)
    requires Ordered(keys, size) && Represents(keys, ids, m)
    ensures Occupied(keys, |keys|) == |m|
  {
    OccupiedIsCount(keys, size, |keys|);
    assert keys[..|keys|] == keys;
    StoredKeys(keys, ids, m);
  }

  lemma MinusOne(m: map<nat, nat>, k: nat)
    requires k in m
    ensures |m - {k}| == |m| - 1
  {
    assert (m - {k}).Keys == m.Keys - {k};
  }

  /** A walk reaches a free cell within as many steps as there are keys. */
  lemma FreeCellAhead(keys: seq<nat>, h: nat) returns (stop: nat)
    requires h + Occupied(keys, |keys|) < |keys|
    ensures h <= stop <= h + Occupied(keys, |keys|) && keys[stop] == EMPTY_KEY
  {
    stop := h;
    while keys[stop] != EMPTY_KEY
      invariant h <= stop <= h + Occupied(keys, |keys|)
      invariant forall q :: h <= q < stop ==> keys[q] != EMPTY_KEY
      decreases |keys| - stop
    {
      RunBound(keys, h, stop + 1);
      stop := stop + 1;
    }
  }

  /** A cell that the walk for any key cannot pass. */
  lemma WalkStops(keys: seq<nat>, ids: seq<nat>, size: nat, m: map<nat, nat>, key: nat) returns (stop: nat)
    requires Ordered(keys, size) && Represents(keys, ids, m) && size + |m| <= |keys| && key < EMPTY_KEY
    ensures Home(key, size) <= stop < |keys| && keys[stop] >= key
  {
    EntryCount(keys, ids, size, m);
    stop := FreeCellAhead(keys, Home(key, size));
  }

  /** A stored key lies fewer cells from its home than there are keys. */
  lemma PlaceBound(keys: seq<nat>, size: nat, p: nat)
    requires Ordered(keys, size) && p < |keys| && keys[p] != EMPTY_KEY
    ensures p < Home(keys[p], size) + Occupied(keys, |keys|)
  {
    assert WellPlaced(keys, size, p);
    RunBound(keys, Home(keys[p], size), p + 1);
  }

  // ---- addition ----

  /** Writing an absent key where its walk stops keeps the table ordered, and the
      key that stood there can resume its own walk one cell further. */
  lemma PutKeepsOrder(keys: seq<nat>, size: nat, e: nat, key: nat)
    requires Ordered(keys, size) && key < EMPTY_KEY && key !in keys
    requires IsSlot(keys, size, e, key)
    ensures Ordered(keys[e := key], size)
    ensures keys[e] != EMPTY_KEY ==> Walked(keys[e := key], size, e + 1, keys[e])
    ensures keys[e] != EMPTY_KEY ==> keys[e] !in keys[e := key]
  {
    var after := keys[e := key];
    forall p: nat | p < |after|
      ensures WellPlaced(after, size, p)
    {
      if p != e {
        assert after[p] == keys[p];
        assert WellPlaced(keys, size, p);
      }
    }
    if keys[e] != EMPTY_KEY {
      assert WellPlaced(keys, size, e);
      forall q | 0 <= q < |after|
        ensures after[q] != keys[e]
      {
        if q != e && keys[q] == keys[e] {
          KeysDistinct(keys, size, e, q);
        }
      }
    }
  }

  /** One displacement step of an addition that is to end in `target`. */
  lemma PutKeepsMap(keys: seq<nat>, ids: seq<nat>, e: nat, key: nat, id: nat, target: map<nat, nat>)
    requires key < EMPTY_KEY && key in target && target[key] == id
    requires Represents(keys, ids, target - {key})
    requires e < |keys| && forall q :: 0 <= q < |keys| && keys[q] == keys[e] != EMPTY_KEY ==> q == e
    ensures Represents(keys[e := key], ids[e := id],
                       if keys[e] == EMPTY_KEY then target else target - {keys[e]})
    ensures keys[e] != EMPTY_KEY ==> keys[e] in target && target[keys[e]] == ids[e]
  {
    var keys', ids' := keys[e := key], ids[e := id];
    var m := if keys[e] == EMPTY_KEY then target else target - {keys[e]};
    assert CellReads(keys, ids, target - {key}, e);
    forall p: nat | p < |keys'|
      ensures CellReads(keys', ids', m, p)
    {
      assert CellReads(keys, ids, target - {key}, p);
      assert p != e ==> keys'[p] == keys[p];
    }
    forall k | k in m
      ensures Stored(keys', k)
    {
      if k == key {
        assert keys'[e] == key;
      } else {
        assert k in target - {key} && Stored(keys, k);
        var q :| 0 <= q < |keys| && keys[q] == k;
        assert keys'[q] == k;
      }
    }
  }

  // ---- deletion ----

  ghost predicate WellPlacedBut(keys: seq<nat>, size: nat, hole: nat, p: nat)
    requires size > 0 && p < |keys|
  {
    keys[p] != EMPTY_KEY ==>
      && keys[p] < EMPTY_KEY && Home(keys[p], size) <= p
      && forall q :: Home(keys[p], size) <= q < p && q != hole ==> keys[q] < keys[p]
  }

  /** Ordered, except that the cell `hole` counts as free whatever it holds. */
  ghost predicate OrderedBut(keys: seq<nat>, size: nat, hole: nat) {
    && size > 0 && hole < |keys|
    && forall p: nat :: p < |keys| && p != hole ==> WellPlacedBut(keys, size, hole, p)
  }

  /** No key strictly between the two cells may stand in the hole. */
  ghost predicate Passed(keys: seq<nat>, size: nat, hole: nat, next: nat)
    requires size > 0 && next <= |keys|
  {
    forall r :: hole < r < next ==> keys[r] != EMPTY_KEY && Home(keys[r], size) > hole
  }

  /** Moving the next key that may stand in the hole back into it. */
  lemma ShiftBack(keys: seq<nat>, size: nat, hole: nat, next: nat)
    requires OrderedBut(keys, size, hole)
    requires hole < next < |keys| && keys[next] != EMPTY_KEY && Home(keys[next], size) <= hole
    requires Passed(keys, size, hole, next)
    ensures OrderedBut(keys[hole := keys[next]], size, next)
  {
    var after := keys[hole := keys[next]];
    assert WellPlacedBut(keys, size, hole, next);
    forall p: nat | p < |after| && p != next
      ensures WellPlacedBut(after, size, next, p)
    {
      assert p != hole ==> WellPlacedBut(keys, size, hole, p) && after[p] == keys[p];
    }
  }

  /** Once the walk from the hole meets a free cell, freeing the hole is enough. */
  lemma CloseHole(keys: seq<nat>, size: nat, hole: nat, next: nat)
    requires OrderedBut(keys, size, hole)
    requires hole < next < |keys| && keys[next] == EMPTY_KEY && Passed(keys, size, hole, next)
    ensures Ordered(keys[hole := EMPTY_KEY], size)
  {
    var after := keys[hole := EMPTY_KEY];
    forall p: nat | p < |after|
      ensures WellPlaced(after, size, p)
    {
      if p != hole && keys[p] != EMPTY_KEY {
        assert WellPlacedBut(keys, size, hole, p);
        assert !(Home(keys[p], size) <= next < p);
      }
    }
  }

  /** The free-cell marker is at home in cell 0 of every table, so the search for
      a key to shift back never runs past a free cell. */
  lemma EmptyKeyAtHome(size: nat)
    requires IsPow2(size) && size <= EMPTY_KEY
    ensures Home(EMPTY_KEY, size) == 0
  {
    var e: nat :| e <= size && size == Pow2(e);
    Pow2Of63();
    if e > 63 {
      Pow2Monotone(63, e);
    } else {
      Pow2Divides(e, 63);
    }
  }

  lemma Pow2Of21()
    ensures Pow2(21) == 0x20_0000
  {
    Pow2Add(4, 3);
    Pow2Add(7, 7);
    Pow2Add(14, 7);
  }

  lemma Pow2Of63()
    ensures Pow2(63) == EMPTY_KEY
  {
    Pow2Of21();
    Pow2Add(21, 21);
    Pow2Add(42, 21);
  }

  /** The same step seen from the map: a key is copied into the hole, and the
      cell it came from becomes the hole. */
  lemma ShiftKeepsMap(keys: seq<nat>, ids: seq<nat>, hole: nat, next: nat, m: map<nat, nat>)
    requires hole < |keys| && next < |keys| && hole != next && |ids| == |keys|
    requires keys[next] != EMPTY_KEY
    requires Represents(keys[hole := EMPTY_KEY], ids, m)
    ensures Represents(keys[hole := keys[next]][next := EMPTY_KEY], ids[hole := ids[next]], m)
  {
    var before, after := keys[hole := EMPTY_KEY], keys[hole := keys[next]][next := EMPTY_KEY];
    var ids' := ids[hole := ids[next]];
    assert CellReads(before, ids, m, next);
    forall p: nat | p < |after|
      ensures CellReads(after, ids', m, p)
    {
      assert CellReads(before, ids, m, p);
      assert p != hole && p != next ==> after[p] == before[p];
    }
    forall k | k in m
      ensures Stored(after, k)
    {
      assert Stored(before, k);
      var q :| 0 <= q < |before| && before[q] == k;
      assert after[if q == next then hole else q] == k;
    }
  }
}
