/** Doubling an ordered table in place. The keys of the old table are rehashed
    one by one in the order of their old cells; the overflow tail, the keys that
    had run past the end of the old table, is first parked behind the new one.
    Cell indexes `q` and `p` below are cells of the old table. */
module TableGrowth {
  import opened Words
  import opened OrderedProbing

  /** Where the key of old cell `q` waits to be rehashed. */
  function Parked(size: nat, q: nat): (r: nat) {
    if q < size then q else q + size
  }

  /** Cell `r` holds a key not yet rehashed when the old cells below `p` are done. */
  predicate Pending(size: nat, p: nat, r: nat) {
    (p <= r < size) || (r >= 2 * size && r - size >= p)
  }

  function OldCell(size: nat, r: nat): (q: nat)
    requires r < size || r >= 2 * size
  {
    if r < size then r else r - size
  }

  /** The rehashed part of the table. */
  ghost function Done(cur: seq<nat>, size: nat, p: nat): (v: seq<nat>)
    ensures |v| == |cur|
    ensures forall r :: 0 <= r < |cur| ==> v[r] == if Pending(size, p, r) then EMPTY_KEY else cur[r]
  {
    seq(|cur|, r requires 0 <= r < |cur| => if Pending(size, p, r) then EMPTY_KEY else cur[r])
  }

  /** A key outside the tail never ends up further from its home than it was. */
  ghost predicate NotFurther(size: nat, q: nat, r: nat, key: nat)
    requires size > 0
  {
    q >= size || r <= q || (size <= Home(key, 2 * size) && r <= q + size)
  }

  ghost predicate IdsDistinct(keys: seq<nat>, ids: seq<nat>)
    requires |keys| == |ids|
  {
    forall q, q' :: 0 <= q < q' < |keys| && keys[q] != EMPTY_KEY && keys[q'] != EMPTY_KEY ==> ids[q] != ids[q']
  }

  ghost predicate OldTable(was: seq<nat>, wasIds: seq<nat>, size: nat) {
    && |was| == |wasIds| && Ordered(was, size) && 2 * size <= |was|
    && (forall q :: 0 <= q < |was| && was[q] != EMPTY_KEY ==> q + 1 < 2 * size && q + size < |was|)
    && IdsDistinct(was, wasIds)
  }

  ghost predicate PendingIntact(was: seq<nat>, wasIds: seq<nat>, cur: seq<nat>, ids: seq<nat>, size: nat, p: nat)
    requires |was| == |wasIds| == |cur| == |ids|
  {
    && (forall r :: 0 <= r < |cur| && Pending(size, p, r) ==> cur[r] == was[OldCell(size, r)])
    && (forall r :: 0 <= r < |cur| && Pending(size, p, r) && cur[r] != EMPTY_KEY
                    ==> ids[r] == wasIds[OldCell(size, r)])
  }

  /** Every rehashed key came, with its id, from the old cell `src` names. */
  ghost predicate Origins(was: seq<nat>, wasIds: seq<nat>, done: seq<nat>, ids: seq<nat>,
                          size: nat, p: nat, src: seq<nat>)
    requires size > 0 && |was| == |wasIds| == |done| == |ids| == |src| && p <= |was|
  {
    forall r :: 0 <= r < |done| && done[r] != EMPTY_KEY ==>
                  && src[r] < p && was[src[r]] == done[r] && ids[r] == wasIds[src[r]]
                  && NotFurther(size, src[r], r, done[r])
  }

  ghost predicate Kept(was: seq<nat>, done: seq<nat>, q: nat)
    requires q < |was|
  {
    was[q] != EMPTY_KEY ==> was[q] in done
  }

  /** The old cells below `p` are rehashed: their keys, with their ids, form an
      ordered table of the doubled size. `src` names the old cell of each key. */
  ghost predicate Rehashed(was: seq<nat>, wasIds: seq<nat>, cur: seq<nat>, ids: seq<nat>,
                           size: nat, p: nat, src: seq<nat>) {
    && OldTable(was, wasIds, size)
    && |cur| == |ids| == |was| == |src| && p <= |was|
    && PendingIntact(was, wasIds, cur, ids, size, p)
    && Ordered(Done(cur, size, p), 2 * size)
    && Origins(was, wasIds, Done(cur, size, p), ids, size, p, src)
    && (forall q: nat :: q < p ==> Kept(was, Done(cur, size, p), q))
  }

  /** Some key rehashed so far has lost its id: no cell pairs the two. */
  ghost predicate Lost(was: seq<nat>, wasIds: seq<nat>, cur: seq<nat>, ids: seq<nat>,
                       size: nat, p: nat, victim: nat) {
    && OldTable(was, wasIds, size)
    && |cur| == |ids| == |was| && size <= p <= |was|
    && PendingIntact(was, wasIds, cur, ids, size, p)
    && victim < p && was[victim] != EMPTY_KEY
    && (forall r :: 0 <= r < |cur| && cur[r] == was[victim] ==> ids[r] != wasIds[victim])
  }

  /** Adding the key of tail cell `t` to the table of the keys in front of it
      displaces nobody. That table is unique, see `UniqueLayout`. */
  ghost predicate SafeAt(was: seq<nat>, size: nat, t: nat)
    requires size > 0 && t < |was|
  {
    forall tbl: seq<nat>, e: nat |
      && |tbl| == |was| && Ordered(tbl, 2 * size) && KeysOf(tbl) == KeysOf(was[..t])
      && IsSlot(tbl, 2 * size, e, was[t])
      :: tbl[e] == EMPTY_KEY
  }

  ghost predicate SafeBelow(was: seq<nat>, size: nat, hi: nat)
    requires size > 0 && hi <= |was|
  {
    forall t {:trigger SafeAt(was, size, t)} :: size <= t < hi && was[t] != EMPTY_KEY ==> SafeAt(was, size, t)
  }

  /** The exact condition for doubling to be correct, on the table before it. */
  ghost predicate GrowSafe(was: seq<nat>, size: nat)
    requires size > 0
  {
    SafeBelow(was, size, |was|)
  }

  // ---- one lookup of the rehash ----

  /** The home in the doubled table is the old home or lies `size` cells above it. */
  lemma NewHome(key: nat, size: nat)
    requires size > 0
    ensures Home(key, 2 * size) == Home(key, size) || Home(key, 2 * size) == Home(key, size) + size
  {
    ModDoubled(key, size);
  }

  /** The old key in front of which a rehashed key stands is a smaller one. */
  lemma SmallerInFront(was: seq<nat>, wasIds: seq<nat>, cur: seq<nat>, ids: seq<nat>,
                       size: nat, p: nat, src: seq<nat>, r: nat)
    requires Rehashed(was, wasIds, cur, ids, size, p, src)
    requires p < |was| && was[p] != EMPTY_KEY
    requires r < |cur| && Done(cur, size, p)[r] != EMPTY_KEY && Home(was[p], 2 * size) <= r
    requires r < size || Home(was[p], 2 * size) >= size
    ensures cur[r] < was[p]
  {
    NewHome(was[p], size);
    var q := src[r];
    assert WellPlaced(Done(cur, size, p), 2 * size, r);
    assert Home(was[p], size) <= q < p;
    assert WellPlaced(was, size, p);
  }

  /** A place the walk for the key of old cell `p` cannot pass. */
  lemma StopAhead(was: seq<nat>, wasIds: seq<nat>, cur: seq<nat>, ids: seq<nat>,
                  size: nat, p: nat, src: seq<nat>) returns (stop: nat)
    requires Rehashed(was, wasIds, cur, ids, size, p, src)
    requires p < |was| && was[p] != EMPTY_KEY
    ensures Home(was[p], 2 * size) <= stop < |cur| && cur[stop] >= was[p]
    ensures stop == Parked(size, p) || (p < size <= Home(was[p], 2 * size) && stop == p + size)
  {
    NewHome(was[p], size);
    assert WellPlaced(was, size, p);
    if p < size && Home(was[p], 2 * size) >= size {
      stop := p + size;
      assert Done(cur, size, p)[stop] == EMPTY_KEY;
    } else {
      stop := Parked(size, p);
      assert Pending(size, p, stop) && OldCell(size, stop) == p;
    }
  }

  /** The walk sees only rehashed cells, stays in bounds, and outside the low
      tail it always ends on a free cell or on the key's own. */
  lemma LookupLands(was: seq<nat>, wasIds: seq<nat>, cur: seq<nat>, ids: seq<nat>,
                    size: nat, p: nat, src: seq<nat>, e: nat)
    requires Rehashed(was, wasIds, cur, ids, size, p, src)
    requires p < |was| && was[p] != EMPTY_KEY && IsSlot(cur, 2 * size, e, was[p])
    ensures IsSlot(Done(cur, size, p), 2 * size, e, was[p])
    ensures e == Parked(size, p) || !Pending(size, p, e)
    ensures p < size || e <= p + size
    ensures p < size || Home(was[p], 2 * size) >= size ==> Done(cur, size, p)[e] == EMPTY_KEY
    ensures NotFurther(size, p, e, was[p])
  {
    var done := Done(cur, size, p);
    var stop := StopAhead(was, wasIds, cur, ids, size, p, src);
    assert e <= stop;
    NewHome(was[p], size);
    assert WellPlaced(was, size, p);
    if done[e] != EMPTY_KEY && (p < size || Home(was[p], 2 * size) >= size) {
      SmallerInFront(was, wasIds, cur, ids, size, p, src, e);
    }
  }

  lemma DoneKeys(was: seq<nat>, wasIds: seq<nat>, cur: seq<nat>, ids: seq<nat>, size: nat, p: nat, src: seq<nat>)
    requires Rehashed(was, wasIds, cur, ids, size, p, src)
    ensures KeysOf(Done(cur, size, p)) == KeysOf(was[..p])
    ensures p < |was| && was[p] != EMPTY_KEY ==> was[p] !in Done(cur, size, p)
  {
    var done := Done(cur, size, p);
    forall k | k in KeysOf(done)
      ensures k in KeysOf(was[..p])
    {
      var r :| 0 <= r < |done| && done[r] == k;
      assert was[..p][src[r]] == k;
    }
    forall k | k in KeysOf(was[..p])
      ensures k in KeysOf(done)
    {
      var q :| 0 <= q < p && was[..p][q] == k;
      assert Kept(was, done, q);
    }
    if p < |was| && was[p] != EMPTY_KEY {
      forall r | 0 <= r < |done|
        ensures done[r] != was[p]
      {
        if done[r] == was[p] {
          KeysDistinct(was, size, src[r], p);
        }
      }
    }
  }

  // ---- one step of the rehash ----

  /** The two writes of a rehash step. */
  function StepKeys(cur: seq<nat>, o: nat, e: nat): (after: seq<nat>)
    requires o < |cur| && e < |cur|
    ensures |after| == |cur|
  {
    cur[o := cur[e]][e := cur[o]]
  }

  lemma SkipFree(was: seq<nat>, wasIds: seq<nat>, cur: seq<nat>, ids: seq<nat>,
                 size: nat, p: nat, p': nat, src: seq<nat>)
    requires Rehashed(was, wasIds, cur, ids, size, p, src) && p <= p' <= |was|
    requires forall q :: p <= q < p' ==> was[q] == EMPTY_KEY
    ensures Rehashed(was, wasIds, cur, ids, size, p', src)
  {
    assert Done(cur, size, p') == Done(cur, size, p);
  }

  lemma StepCells(was: seq<nat>, wasIds: seq<nat>, cur: seq<nat>, ids: seq<nat>, size: nat, p: nat, e: nat)
    requires |was| == |wasIds| == |cur| == |ids| && PendingIntact(was, wasIds, cur, ids, size, p)
    requires Parked(size, p) < |cur| && was[p] != EMPTY_KEY && e < |cur|
    requires e == Parked(size, p) || (!Pending(size, p, e) && cur[e] == EMPTY_KEY)
    ensures cur[Parked(size, p)] == was[p] && ids[Parked(size, p)] == wasIds[p]
    ensures Done(StepKeys(cur, Parked(size, p), e), size, p + 1) == Done(cur, size, p)[e := was[p]]
    ensures PendingIntact(was, wasIds, StepKeys(cur, Parked(size, p), e), ids[e := ids[Parked(size, p)]], size, p + 1)
  {
    var o := Parked(size, p);
    assert Pending(size, p, o) && OldCell(size, o) == p;
    var cur', ids' := StepKeys(cur, o, e), ids[e := ids[o]];
    forall r | 0 <= r < |cur| && Pending(size, p + 1, r)
      ensures cur'[r] == cur[r] && ids'[r] == ids[r]
    {
      assert Pending(size, p, r);
    }
    var after, expected := Done(cur', size, p + 1), Done(cur, size, p)[e := was[p]];
    forall r | 0 <= r < |cur|
      ensures after[r] == expected[r]
    {
      assert r != o ==> Pending(size, p, r) == Pending(size, p + 1, r);
    }
  }

  lemma CleanStep(was: seq<nat>, wasIds: seq<nat>, cur: seq<nat>, ids: seq<nat>,
                  size: nat, p: nat, src: seq<nat>, e: nat)
    requires Rehashed(was, wasIds, cur, ids, size, p, src)
    requires p < |was| && was[p] != EMPTY_KEY && IsSlot(cur, 2 * size, e, was[p])
    requires Done(cur, size, p)[e] == EMPTY_KEY
    ensures Parked(size, p) < |cur|
    ensures Rehashed(was, wasIds, StepKeys(cur, Parked(size, p), e), ids[e := ids[Parked(size, p)]],
                     size, p + 1, src[e := p])
  {
    LookupLands(was, wasIds, cur, ids, size, p, src, e);
    StepCells(was, wasIds, cur, ids, size, p, e);
    DoneKeys(was, wasIds, cur, ids, size, p, src);
    var done := Done(cur, size, p);
    var done' := done[e := was[p]];
    PutKeepsOrder(done, 2 * size, e, was[p]);
    OriginsExtended(was, wasIds, done, ids, size, p, src, e);
    forall q: nat | q < p + 1
      ensures Kept(was, done', q)
    {
      assert q < p ==> Kept(was, done, q);
      if was[q] != EMPTY_KEY {
        StillThere(done, e, was[p], was[q]);
      }
    }
  }

  lemma OriginsExtended(was: seq<nat>, wasIds: seq<nat>, done: seq<nat>, ids: seq<nat>,
                        size: nat, p: nat, src: seq<nat>, e: nat)
    requires size > 0 && |was| == |wasIds| == |done| == |ids| == |src| && p < |was|
    requires Origins(was, wasIds, done, ids, size, p, src)
    requires e < |done| && NotFurther(size, p, e, was[p])
    ensures Origins(was, wasIds, done[e := was[p]], ids[e := wasIds[p]], size, p + 1, src[e := p])
  {
  }

  lemma StillThere(done: seq<nat>, e: nat, key: nat, k: nat)
    requires e < |done| && done[e] == EMPTY_KEY && k != EMPTY_KEY
    requires k == key || k in done
    ensures k in done[e := key]
  {
    if k != key {
      var r :| 0 <= r < |done| && done[r] == k;
      assert done[e := key][r] == k;
    } else {
      assert done[e := key][e] == k;
    }
  }

  /** The walk of a low tail key stops on a larger key: that key is swapped away
      from its id, for good. */
  lemma CollidingStep(was: seq<nat>, wasIds: seq<nat>, cur: seq<nat>, ids: seq<nat>,
                      size: nat, p: nat, src: seq<nat>, e: nat)
    requires Rehashed(was, wasIds, cur, ids, size, p, src)
    requires p < |was| && was[p] != EMPTY_KEY && IsSlot(cur, 2 * size, e, was[p])
    requires Done(cur, size, p)[e] != EMPTY_KEY
    ensures Parked(size, p) < |cur| && !SafeAt(was, size, p)
    ensures Lost(was, wasIds, StepKeys(cur, Parked(size, p), e), ids[e := ids[Parked(size, p)]],
                 size, p + 1, src[e])
  {
    var o, done := Parked(size, p), Done(cur, size, p);
    LookupLands(was, wasIds, cur, ids, size, p, src, e);
    DoneKeys(was, wasIds, cur, ids, size, p, src);
    assert Pending(size, p, o) && OldCell(size, o) == p && cur[o] == was[p] && e != o;
    var cur', ids', victim := StepKeys(cur, o, e), ids[e := ids[o]], src[e];
    assert ids'[o] == wasIds[p] != wasIds[victim];
    forall r | 0 <= r < |cur'| && cur'[r] == was[victim]
      ensures ids'[r] != wasIds[victim]
    {
      if r != o && r != e {
        if Pending(size, p, r) {
          KeysDistinct(was, size, OldCell(size, r), victim);
        } else {
          KeysDistinct(done, 2 * size, r, e);
        }
      } else if r == e {
        KeysDistinct(was, size, p, victim);
      }
    }
  }

  /** Once lost, the pairing never comes back. */
  lemma LostStep(was: seq<nat>, wasIds: seq<nat>, cur: seq<nat>, ids: seq<nat>,
                 size: nat, p: nat, victim: nat, e: nat)
    requires Lost(was, wasIds, cur, ids, size, p, victim)
    requires p < |was| && was[p] != EMPTY_KEY && IsSlot(cur, 2 * size, e, was[p])
    ensures Parked(size, p) < |cur|
    ensures Lost(was, wasIds, StepKeys(cur, Parked(size, p), e), ids[e := ids[Parked(size, p)]],
                 size, p + 1, victim)
  {
    var o := Parked(size, p);
    assert Pending(size, p, o) && OldCell(size, o) == p && cur[o] == was[p] && ids[o] == wasIds[p];
    assert e <= o;
    if was[p] == was[victim] {
      KeysDistinct(was, size, p, victim);
    }
  }

  /** A clean step certifies its tail key, by uniqueness of the layout. */
  lemma CleanIsSafe(was: seq<nat>, wasIds: seq<nat>, cur: seq<nat>, ids: seq<nat>,
                    size: nat, p: nat, src: seq<nat>, e: nat)
    requires Rehashed(was, wasIds, cur, ids, size, p, src)
    requires p < |was| && was[p] != EMPTY_KEY && IsSlot(cur, 2 * size, e, was[p])
    requires Done(cur, size, p)[e] == EMPTY_KEY
    ensures SafeAt(was, size, p)
  {
    var done := Done(cur, size, p);
    LookupLands(was, wasIds, cur, ids, size, p, src, e);
    DoneKeys(was, wasIds, cur, ids, size, p, src);
    forall tbl: seq<nat>, e': nat | |tbl| == |was| && Ordered(tbl, 2 * size) && KeysOf(tbl) == KeysOf(was[..p])
                               && IsSlot(tbl, 2 * size, e', was[p])
      ensures tbl[e'] == EMPTY_KEY
    {
      UniqueLayout(tbl, done, 2 * size);
      SlotUnique(done, 2 * size, e, e', was[p]);
    }
  }

  // ---- the state between steps ----

  /** How the rehash stands: the rehashed keys form a faithful table and every
      tail key so far was safe; or some tail key was not, and a key has lost its
      id; and nothing else can happen. */
  datatype Progress = Faithful | Broken | Astray

  ghost function RehashState(was: seq<nat>, wasIds: seq<nat>, cur: seq<nat>, ids: seq<nat>,
                             size: nat, p: nat, src: seq<nat>, victim: nat): (s: Progress) {
    if size == 0 || p > |was| then Astray
    else if SafeBelow(was, size, p) && Rehashed(was, wasIds, cur, ids, size, p, src) then Faithful
    else if !SafeBelow(was, size, p) && Lost(was, wasIds, cur, ids, size, p, victim) then Broken
    else Astray
  }

  /** While keys are left, the scan stands on an old cell, in the tail on an occupied one. */
  lemma ScanPosition(was: seq<nat>, size: nat, p: nat, hi: nat)
    requires Ordered(was, size) && p <= hi <= |was| && Occupied(was, p) < Occupied(was, hi)
    ensures p < hi
    ensures p >= size ==> was[p] != EMPTY_KEY
    ensures Occupied(was, p + 1) == Occupied(was, p) + if was[p] != EMPTY_KEY then 1 else 0
  {
    if p >= size && was[p] == EMPTY_KEY {
      forall q | p <= q < hi
        ensures was[q] == EMPTY_KEY
      {
        TailIsRun(was, size, p, q);
      }
      OccupiedRange(was, p, hi);
    }
  }

  /** That cell, where the key waits, still holds what the old table held. */
  lemma NextPending(was: seq<nat>, wasIds: seq<nat>, cur: seq<nat>, ids: seq<nat>,
                    size: nat, p: nat, src: seq<nat>, victim: nat)
    requires RehashState(was, wasIds, cur, ids, size, p, src, victim) != Astray
    requires p < |was| && (p < size || was[p] != EMPTY_KEY)
    ensures Parked(size, p) < |cur| && cur[Parked(size, p)] == was[p]
  {
    assert Pending(size, p, Parked(size, p)) && OldCell(size, Parked(size, p)) == p;
  }

  ghost function StopSomewhere(was: seq<nat>, wasIds: seq<nat>, cur: seq<nat>, ids: seq<nat>,
                               size: nat, p: nat, src: seq<nat>, victim: nat): (stop: nat)
    requires RehashState(was, wasIds, cur, ids, size, p, src, victim) != Astray
    requires p < |was| && was[p] != EMPTY_KEY
    ensures Home(was[p], 2 * size) <= stop < |cur| && cur[stop] >= was[p]
  {
    NextPending(was, wasIds, cur, ids, size, p, src, victim);
    if !SafeBelow(was, size, p) then Parked(size, p)
    else
      assert exists s: nat :: Home(was[p], 2 * size) <= s < |cur| && cur[s] >= was[p] by {
        var s := StopAhead(was, wasIds, cur, ids, size, p, src);
      }
      var stop: nat :| Home(was[p], 2 * size) <= stop < |cur| && cur[stop] >= was[p];
      stop
  }

  lemma SafeBelowNext(was: seq<nat>, size: nat, p: nat)
    requires size > 0 && p < |was|
    ensures SafeBelow(was, size, p + 1) <==>
              SafeBelow(was, size, p) && (size <= p && was[p] != EMPTY_KEY ==> SafeAt(was, size, p))
  {
  }

  lemma RehashStep(was: seq<nat>, wasIds: seq<nat>, cur: seq<nat>, ids: seq<nat>,
                   size: nat, p: nat, src: seq<nat>, victim: nat, e: nat)
    returns (victim': nat, src': seq<nat>)
    requires RehashState(was, wasIds, cur, ids, size, p, src, victim) != Astray
    requires p < |was| && was[p] != EMPTY_KEY && IsSlot(cur, 2 * size, e, was[p])
    ensures Parked(size, p) < |cur|
    ensures RehashState(was, wasIds, StepKeys(cur, Parked(size, p), e), ids[e := ids[Parked(size, p)]],
                        size, p + 1, src', victim') != Astray
  {
    victim', src' := victim, src;
    SafeBelowNext(was, size, p);
    if !SafeBelow(was, size, p) {
      LostStep(was, wasIds, cur, ids, size, p, victim, e);
    } else {
      LookupLands(was, wasIds, cur, ids, size, p, src, e);
      if Done(cur, size, p)[e] == EMPTY_KEY {
        CleanStep(was, wasIds, cur, ids, size, p, src, e);
        CleanIsSafe(was, wasIds, cur, ids, size, p, src, e);
        src' := src[e := p];
      } else {
        CollidingStep(was, wasIds, cur, ids, size, p, src, e);
        victim' := src[e];
      }
    }
  }

  lemma SkipRest(was: seq<nat>, wasIds: seq<nat>, cur: seq<nat>, ids: seq<nat>,
                 size: nat, p: nat, hi: nat, src: seq<nat>, victim: nat)
    requires RehashState(was, wasIds, cur, ids, size, p, src, victim) != Astray && p <= hi <= |was|
    requires forall q :: p <= q < hi ==> was[q] == EMPTY_KEY
    ensures RehashState(was, wasIds, cur, ids, size, hi, src, victim) != Astray
  {
    if SafeBelow(was, size, p) {
      SkipFree(was, wasIds, cur, ids, size, p, hi, src);
    }
  }

  lemma SkipOne(was: seq<nat>, wasIds: seq<nat>, cur: seq<nat>, ids: seq<nat>,
                size: nat, p: nat, src: seq<nat>, victim: nat)
    requires RehashState(was, wasIds, cur, ids, size, p, src, victim) != Astray && p < |was| && was[p] == EMPTY_KEY
    ensures RehashState(was, wasIds, cur, ids, size, p + 1, src, victim) != Astray
  {
    SkipRest(was, wasIds, cur, ids, size, p, p + 1, src, victim);
  }

  // ---- the whole pass ----

  /** When every old cell is done, the table is ordered for the doubled size and
      stands for the same map. */
  lemma GrownTable(was: seq<nat>, wasIds: seq<nat>, cur: seq<nat>, ids: seq<nat>,
                   size: nat, p: nat, src: seq<nat>, m: map<nat, nat>)
    requires Rehashed(was, wasIds, cur, ids, size, p, src) && Represents(was, wasIds, m)
    requires size <= p && forall q :: p <= q < |was| ==> was[q] == EMPTY_KEY
    ensures Ordered(cur, 2 * size) && Represents(cur, ids, m)
  {
    assert Done(cur, size, p) == cur;
    forall r: nat | r < |cur|
      ensures CellReads(cur, ids, m, r)
    {
      assert cur[r] != EMPTY_KEY ==> CellReads(was, wasIds, m, src[r]);
    }
    forall k | k in m
      ensures Stored(cur, k)
    {
      assert Stored(was, k);
      var q :| 0 <= q < |was| && was[q] == k;
      assert Kept(was, Done(cur, size, p), q);
    }
  }

  lemma LostTable(was: seq<nat>, wasIds: seq<nat>, cur: seq<nat>, ids: seq<nat>,
                  size: nat, p: nat, victim: nat, m: map<nat, nat>)
    requires Lost(was, wasIds, cur, ids, size, p, victim) && Represents(was, wasIds, m)
    ensures !Represents(cur, ids, m)
  {
    assert CellReads(was, wasIds, m, victim);
    if Stored(cur, was[victim]) {
      var r: nat :| r < |cur| && cur[r] == was[victim];
      assert !CellReads(cur, ids, m, r);
    }
  }

  /** Cells past the end of the old table are filled from its end on. */
  lemma TailIsRun(was: seq<nat>, size: nat, end: nat, q: nat)
    requires Ordered(was, size) && size <= end <= q < |was| && was[end] == EMPTY_KEY
    ensures was[q] == EMPTY_KEY
  {
    assert WellPlaced(was, size, q);
  }

  /** The tail cells below `end` have been swapped with the free cells behind. */
  ghost predicate TailParked(was: seq<nat>, wasIds: seq<nat>, cur: seq<nat>, ids: seq<nat>, size: nat, end: nat)
    requires |was| == |wasIds|
  {
    && |cur| == |ids| == |was| && size <= end
    && (forall r :: size <= r < end && r < |was| ==> was[r] != EMPTY_KEY && cur[r] == EMPTY_KEY)
    && (forall r :: 0 <= r < |cur| && 2 * size <= r < end + size ==>
                      cur[r] == was[r - size] && ids[r] == wasIds[r - size])
    && (forall r :: 0 <= r < |cur| && (r < size || (end <= r && !(2 * size <= r < end + size))) ==>
                      cur[r] == was[r] && ids[r] == wasIds[r])
  }

  lemma ParkedIsIntact(was: seq<nat>, wasIds: seq<nat>, cur: seq<nat>, ids: seq<nat>, size: nat, end: nat)
    requires |was| == |wasIds| && TailParked(was, wasIds, cur, ids, size, end)
    requires end < 2 * size <= |was| && forall q :: end <= q < |was| ==> was[q] == EMPTY_KEY
    ensures PendingIntact(was, wasIds, cur, ids, size, 0)
    ensures forall r :: 0 <= r < |cur| ==> Done(cur, size, 0)[r] == EMPTY_KEY
  {
    forall r | 0 <= r < |cur| && Pending(size, 0, r)
      ensures cur[r] == was[OldCell(size, r)]
      ensures cur[r] != EMPTY_KEY ==> ids[r] == wasIds[OldCell(size, r)]
    {
      assert r >= end + size ==> was[r] == EMPTY_KEY && was[r - size] == EMPTY_KEY;
    }
  }

  /** Before the first lookup nothing is rehashed and everything is pending. */
  lemma TailIsParked(was: seq<nat>, wasIds: seq<nat>, cur: seq<nat>, ids: seq<nat>, size: nat, end: nat)
    requires OldTable(was, wasIds, size) && TailParked(was, wasIds, cur, ids, size, end)
    requires end < 2 * size && was[end] == EMPTY_KEY
    ensures Rehashed(was, wasIds, cur, ids, size, 0, seq(|was|, _ => 0))
    ensures end - size == Occupied(was, |was|) - Occupied(was, size)
  {
    forall q | end <= q < |was|
      ensures was[q] == EMPTY_KEY
    {
      TailIsRun(was, size, end, q);
    }
    OccupiedRange(was, size, end);
    OccupiedRange(was, end, |was|);
    ParkedIsIntact(was, wasIds, cur, ids, size, end);
  }

  /** The condition as a property of the keys alone: the layout they have. */
  ghost predicate SafeToGrow(ks: set<nat>, size: nat, cells: nat)
    requires size > 0
  {
    forall tbl: seq<nat> {:trigger GrowSafe(tbl, size)} |
      |tbl| == cells && Ordered(tbl, size) && KeysOf(tbl) == ks :: GrowSafe(tbl, size)
  }

  lemma SafeLayout(tbl: seq<nat>, size: nat)
    requires Ordered(tbl, size)
    ensures SafeToGrow(KeysOf(tbl), size, |tbl|) <==> GrowSafe(tbl, size)
  {
    forall t: seq<nat> | |t| == |tbl| && Ordered(t, size) && KeysOf(t) == KeysOf(tbl)
      ensures t == tbl
    {
      UniqueLayout(t, tbl, size);
    }
  }

  lemma SafeKeys(tbl: seq<nat>, ids: seq<nat>, size: nat, m: map<nat, nat>)
    requires Ordered(tbl, size) && Represents(tbl, ids, m)
    ensures SafeToGrow(m.Keys, size, |tbl|) <==> GrowSafe(tbl, size)
  {
    StoredKeys(tbl, ids, m);
    SafeLayout(tbl, size);
  }

  /** With no overflow tail, doubling is always safe. */
  lemma NoTailIsSafe(tbl: seq<nat>, size: nat)
    requires Ordered(tbl, size) && forall q :: size <= q < |tbl| ==> tbl[q] == EMPTY_KEY
    ensures SafeToGrow(KeysOf(tbl), size, |tbl|)
  {
    SafeLayout(tbl, size);
  }
}
