/** The connection table of the TCP core and the two pools of connection ids it
    shares with it. `contents` is the plain map the table has to agree with. */
module ConnTable {
  import opened Words
  import opened OrderedProbing
  import opened TableGrowth
  import opened IdPools

  function MaxTableSize(maxEntries: nat): (s: nat)
    ensures 2 <= s && 2 * maxEntries < s
  {
    Pow2(1 + Msb(maxEntries))
  }

  class Table {
    const maxConn: nat
    const maxTw: nat
    const maxSize: nat
    const keys: array<nat>
    const ids: array<nat>
    const conns: array<nat>
    const twIds: array<nat>
    var tblMask: nat
    var connCnt: nat
    var twCnt: nat
    ghost var contents: map<nat, nat>

    ghost predicate Shape()
      reads this
    {
      && keys != ids && keys != conns && keys != twIds && ids != conns && ids != twIds && conns != twIds
      && conns.Length == maxConn && twIds.Length == maxTw
      && 2 * (maxConn + maxTw) < maxSize && keys.Length == ids.Length == maxSize + maxConn + maxTw
      && IsPow2(maxSize) == true && IsPow2(tblMask + 1) == true && 2 <= tblMask + 1 <= maxSize <= EMPTY_KEY
    }

    /** The table agrees with the map, which has no more entries than there are ids.
        (Comparing with `true` keeps the verifier from taking predicates apart.) */
    ghost predicate TableOk()
      reads this, keys, ids
    {
      && Shape()
      && Ordered(keys[..], tblMask + 1) == true
      && Represents(keys[..], ids[..], contents) == true
      && Injective(contents) == true
      && |contents| <= maxConn + maxTw
    }

    ghost predicate Valid()
      reads this, keys, ids, conns, twIds
    {
      && TableOk() && 2 * (connCnt + twCnt) <= tblMask
      && PoolsOk(conns[..], connCnt, twIds[..], twCnt, contents) == true
    }

    /** The same, said with a quantifier: the verifier takes it apart only where `Valid` is
        asked for. */
    ghost predicate Sound()
      reads this, keys, ids, conns, twIds
    {
      forall t: Table {:trigger t.Valid()} | t in {this} :: t.Valid()
    }

    constructor (maxConn: nat, maxTw: nat)
      requires MaxTableSize(maxConn + maxTw) <= EMPTY_KEY
      ensures Sound() && this.maxConn == maxConn && this.maxTw == maxTw && maxSize == MaxTableSize(maxConn + maxTw)
      ensures contents == map[] && connCnt == twCnt == 0 && tblMask + 1 == Min(maxSize, 128)
      ensures keys.Length == maxSize + maxConn + maxTw && fresh(keys) && fresh(ids) && fresh(conns) && fresh(twIds)
    {
      this.maxConn, this.maxTw, maxSize := maxConn, maxTw, MaxTableSize(maxConn + maxTw);
      var total := MaxTableSize(maxConn + maxTw) + maxConn + maxTw;
      keys := new nat[total](_ => EMPTY_KEY);
      ids := new nat[total](_ => 0);
      conns := new nat[maxConn](i => i);
      twIds := new nat[maxTw](i => i);
      tblMask := Min(MaxTableSize(maxConn + maxTw), 128) - 1;
      connCnt, twCnt := 0, 0;
      contents := map[];
      new;
      FirstSize(maxConn + maxTw);
      NothingInUse(conns[..], twIds[..]);
      NothingStored(keys[..], ids[..], tblMask + 1);
    }

    // ---- lookup ----

    /** The probing loop. `stop` is a cell it cannot pass. */
    method Walk(key: nat, from: nat, ghost stop: nat) returns (e: nat)
      requires from <= stop < keys.Length && keys[stop] >= key
      ensures from <= e <= stop && keys[e] >= key
      ensures forall q :: from <= q < e ==> keys[q] < key
    {
      e := from;
      while keys[e] < key
        invariant from <= e <= stop
        invariant forall q :: from <= q < e ==> keys[q] < key
        decreases stop - e
      {
        e := e + 1;
      }
    }

    /** A lookup stays inside the table and ends on a cell holding the key exactly
        when the map has the key, with the id the map gives it. */
    method FindConnEntry(key: nat) returns (e: nat)
      requires Sound() && key < EMPTY_KEY
      ensures e < keys.Length == ids.Length && IsSlot(keys[..], tblMask + 1, e, key)
      ensures keys[e] == key <==> key in contents
      ensures key in contents ==> ids[e] == contents[key]
    {
      assert Valid();
      ghost var stop := WalkStops(keys[..], ids[..], tblMask + 1, contents, key);
      e := Walk(key, Home(key, tblMask + 1), stop);
      SlotReadsMap(keys[..], ids[..], tblMask + 1, e, key, contents);
    }

    // ---- addition ----

    /** The displacement loop: each key on the way that is larger than the one
        carried gives up its cell and is carried on. */
    method PlaceEntry(entry: nat, newKey: nat, newId: nat, ghost size: nat, ghost target: map<nat, nat>)
      requires keys != ids && keys.Length == ids.Length
      requires Carrying(keys[..], ids[..], size, entry, newKey, newId, target)
      modifies keys, ids
      ensures Ordered(keys[..], size) && Represents(keys[..], ids[..], target)
    {
      var e: nat, key: nat, id: nat := entry, newKey, newId;
      while keys[e] != EMPTY_KEY
        invariant Carrying(keys[..], ids[..], size, e, key, id, target)
        decreases keys.Length - e
      {
        ghost var ks, xs := keys[..], ids[..];
        ghost var from, stop := e, FreeCellBeyond(ks, xs, size, e, key, id, target);
        var k: nat, i: nat := keys[e], ids[e];
        keys[e], ids[e] := key, id;
        assert keys[..] == ks[from := key] && ids[..] == xs[from := id];
        assert forall q :: from < q < keys.Length ==> keys[q] == ks[q];
        e := Walk(k, e + 1, stop);
        Displace(ks, xs, size, from, key, id, target, e);
        key, id := k, i;
      }
      ghost var ks, xs := keys[..], ids[..];
      Settle(ks, xs, size, e, key, id, target);
      keys[e], ids[e] := key, id;
      assert keys[..] == ks[e := key] && ids[..] == xs[e := id];
    }

    /** An absent key is added under a fresh id. If that makes the table double,
        the result stands for the extended map exactly when the keys are safe. */
    method AddConnEntry(entry: nat, key: nat, id: nat)
      requires TableOk() && |contents| == connCnt + twCnt - 1
      requires connCnt + twCnt <= maxConn + maxTw && 2 * (connCnt + twCnt - 1) <= tblMask
      requires key < EMPTY_KEY && key !in contents && !InUse(contents, id)
      requires IsSlot(keys[..], tblMask + 1, entry, key)
      modifies keys, ids, `contents, `tblMask
      ensures contents == old(contents)[key := id] && 2 * (connCnt + twCnt) <= tblMask
      ensures tblMask == if 2 * (connCnt + twCnt) <= old(tblMask) then old(tblMask) else 2 * old(tblMask) + 1
      ensures tblMask == old(tblMask) || SafeToGrow(contents.Keys, old(tblMask) + 1, keys.Length) ==> TableOk()
      ensures !(tblMask == old(tblMask) || SafeToGrow(contents.Keys, old(tblMask) + 1, keys.Length)) ==>
                !Represents(keys[..], ids[..], contents)
    {
      InsertEntry(entry, key, id);
      TryExpandConnTbl();
    }

    /** The addition without the doubling. */
    method InsertEntry(entry: nat, key: nat, id: nat)
      requires TableOk() && |contents| < maxConn + maxTw
      requires key < EMPTY_KEY && key !in contents && !InUse(contents, id)
      requires IsSlot(keys[..], tblMask + 1, entry, key)
      modifies keys, ids, `contents
      ensures TableOk() && contents == old(contents)[key := id] && |contents| == |old(contents)| + 1
    {
      InjectiveExtended(contents, key, id);
      StartCarrying(keys[..], ids[..], tblMask + 1, entry, key, id, contents);
      PlaceEntry(entry, key, id, tblMask + 1, contents[key := id]);
      contents := contents[key := id];
    }

    // ---- deletion ----

    /** The search for the next key that may move back into the hole. */
    method NextToShift(hole: nat, ghost h: nat, ghost n: nat) returns (next: nat)
      requires Home(EMPTY_KEY, tblMask + 1) == 0 && Occupied(keys[..], keys.Length) == n
      requires h <= hole < keys.Length && h + n < keys.Length
      requires Run(keys[..], h, hole + 1)
      ensures hole < next < keys.Length && Home(keys[next], tblMask + 1) <= hole
      ensures Passed(keys[..], tblMask + 1, hole, next)
    {
      next := hole + 1;
      RunBound(keys[..], h, next);
      while Home(keys[next], tblMask + 1) > hole
        invariant hole < next <= h + n
        invariant forall r :: h <= r < next ==> keys[r] != EMPTY_KEY
        invariant forall r :: hole < r < next ==> Home(keys[r], tblMask + 1) > hole
        decreases keys.Length - next
      {
        RunBound(keys[..], h, next + 1);
        next := next + 1;
      }
    }

    /** Frees cell `entry` by shifting back the keys that had to pass it. */
    method ShiftKeysBack(entry: nat, ghost m: map<nat, nat>)
      requires keys != ids && keys.Length == ids.Length
      requires IsPow2(tblMask + 1) && tblMask + 1 <= EMPTY_KEY && tblMask + 1 + |m| <= keys.Length
      requires Ordered(keys[..], tblMask + 1) && Represents(keys[..], ids[..], m)
      requires entry < keys.Length && keys[entry] != EMPTY_KEY
      modifies keys, ids
      ensures Ordered(keys[..], tblMask + 1)
      ensures Represents(keys[..], ids[..], m - {old(keys[entry])})
    {
      ghost var size, h, n, key := tblMask + 1, Home(keys[entry], tblMask + 1), |m|, keys[entry];
      EmptyKeyAtHome(size);
      StartHole(keys[..], ids[..], size, entry, m);
      var hole: nat := entry;
      while true
        invariant Hole(keys[..], ids[..], size, hole, h, n, m - {key})
        decreases keys.Length - hole
      {
        var next := NextToShift(hole, h, n);
        ghost var ks, xs := keys[..], ids[..];
        if keys[next] == EMPTY_KEY {
          CloseHole(ks, size, hole, next);
          break;
        }
        MoveHole(ks, xs, size, hole, next, h, n, m - {key});
        keys[hole] := keys[next];
        ids[hole] := ids[next];
        assert keys[..] == ks[hole := ks[next]] && ids[..] == xs[hole := xs[next]];
        hole := next;
      }
      ghost var ks := keys[..];
      keys[hole] := EMPTY_KEY;
      assert keys[..] == ks[hole := EMPTY_KEY];
    }

    /** Takes the entry of a key out of the table and gives its id back. */
    method DelConnEntry(key: nat)
      requires Sound() && key in contents
      modifies this`connCnt, this`twCnt, this`contents, keys, ids, conns, twIds
      ensures Sound() && contents == old(contents) - {key}
      ensures connCnt == old(connCnt) - if old(contents)[key] < maxConn then 1 else 0
      ensures twCnt == old(twCnt) - if old(contents)[key] < maxConn then 0 else 1
    {
      assert Valid();
      assert Stored(keys[..], key);
      var entry := FindConnEntry(key);
      ReleaseId(ids[entry], key);
      ShiftKeysBack(entry, contents);
      InjectiveReduced(contents, key);
      contents := contents - {key};
    }

    /** Gives the id of a key back to its pool. */
    method ReleaseId(id: nat, ghost key: nat)
      requires conns != twIds && conns.Length == maxConn
      requires PoolsOk(conns[..], connCnt, twIds[..], twCnt, contents) && key in contents && contents[key] == id
      modifies `connCnt, `twCnt, conns, twIds
      ensures PoolsOk(conns[..], connCnt, twIds[..], twCnt, contents - {key})
      ensures connCnt == old(connCnt) - if id < maxConn then 1 else 0
      ensures twCnt == old(twCnt) - if id < maxConn then 0 else 1
    {
      ghost var cs, ts := conns[..], twIds[..];
      if id < maxConn {
        ConnReleased(cs, connCnt, ts, twCnt, contents, key);
        connCnt := connCnt - 1;
        conns[connCnt] := id;
        assert conns[..] == cs[connCnt := id];
      } else {
        TimeWaitReleased(cs, connCnt, ts, twCnt, contents, key);
        twCnt := twCnt - 1;
        var twId: nat := id - maxConn;
        twIds[twCnt] := twId;
        assert twIds[..] == ts[twCnt := twId];
      }
    }

    // ---- the steps of a server ----

    /** A new connection takes the next free id and enters the table under a key
        that the lookup ending at `entry` did not find. */
    method Admit(entry: nat, key: nat) returns (id: nat)
      requires Sound() && connCnt != maxConn
      requires key < EMPTY_KEY && key !in contents && IsSlot(keys[..], tblMask + 1, entry, key)
      modifies this`connCnt, this`contents, this`tblMask, keys, ids
      ensures id < maxConn && !InUse(old(contents), id) && contents == old(contents)[key := id]
      ensures connCnt == old(connCnt) + 1
      ensures tblMask == if 2 * (connCnt + twCnt) <= old(tblMask) then old(tblMask) else 2 * old(tblMask) + 1
      ensures tblMask == old(tblMask) || SafeToGrow(contents.Keys, old(tblMask) + 1, keys.Length) ==> Sound()
      ensures !(tblMask == old(tblMask) || SafeToGrow(contents.Keys, old(tblMask) + 1, keys.Length)) ==>
                !Represents(keys[..], ids[..], contents)
    {
      assert Valid();
      ConnTaken(conns[..], connCnt, twIds[..], twCnt, contents, key);
      id := conns[connCnt];
      connCnt := connCnt + 1;
      AddConnEntry(entry, key, id);
    }

    /** An open connection moves to TIME_WAIT, if there is an id left for that, and
        is deleted otherwise. */
    method EnterTw(key: nat) returns (twId: nat)
      requires Sound() && key in contents && contents[key] < maxConn
      modifies this`connCnt, this`twCnt, this`contents, keys, ids, conns, twIds
      ensures Sound() && connCnt == old(connCnt) - 1
      ensures old(twCnt) == maxTw ==> contents == old(contents) - {key} && twCnt == old(twCnt)
      ensures old(twCnt) != maxTw ==>
                && twId < maxTw && !InUse(old(contents), maxConn + twId)
                && contents == old(contents)[key := maxConn + twId] && twCnt == old(twCnt) + 1
    {
      twId := 0;
      if twCnt == maxTw {
        DelConnEntry(key);
        return;
      }
      assert Valid() && Stored(keys[..], key);
      var entry := FindConnEntry(key);
      twId := SwapId(ids[entry], key);
      ghost var xs := ids[..];
      var id: nat := maxConn + twId;
      ids[entry] := id;
      assert ids[..] == xs[entry := id];
      Renamed(keys[..], xs, tblMask + 1, entry, id, contents);
      contents := contents[key := id];
    }

    /** Trades a connection id for a TIME_WAIT id. */
    method SwapId(id: nat, ghost key: nat) returns (twId: nat)
      requires conns != twIds && conns.Length == maxConn && twIds.Length == maxTw && twCnt < maxTw
      requires PoolsOk(conns[..], connCnt, twIds[..], twCnt, contents)
      requires key in contents && contents[key] == id < maxConn
      modifies `connCnt, `twCnt, conns
      ensures twId < maxTw && connCnt == old(connCnt) - 1 && twCnt == old(twCnt) + 1
      ensures !InUse(contents, maxConn + twId)
      ensures PoolsOk(conns[..], connCnt, twIds[..], twCnt, contents[key := maxConn + twId])
    {
      ghost var cs, m := conns[..], contents - {key};
      ConnReleased(cs, connCnt, twIds[..], twCnt, contents, key);
      connCnt := connCnt - 1;
      conns[connCnt] := id;
      assert conns[..] == cs[connCnt := id];
      TimeWaitTaken(conns[..], connCnt, twIds[..], twCnt, m, key);
      twId := twIds[twCnt];
      twCnt := twCnt + 1;
      StillFree(contents, key, maxConn + twId);
    }

    // ---- doubling ----

    /** Parks the overflow tail behind the doubled table. */
    method ParkTail(size: nat, ghost was: seq<nat>, ghost wasIds: seq<nat>) returns (endCnt: nat)
      requires keys != ids && keys.Length == ids.Length
      requires was == keys[..] && wasIds == ids[..] && OldTable(was, wasIds, size)
      modifies keys, ids
      ensures Rehashed(was, wasIds, keys[..], ids[..], size, 0, seq(keys.Length, _ => 0))
      ensures endCnt == Occupied(was, |was|) - Occupied(was, size)
    {
      var end: nat, newEnd: nat := size, 2 * size;
      while keys[end] != EMPTY_KEY
        invariant size <= end < 2 * size && newEnd == end + size
        invariant TailParked(was, wasIds, keys[..], ids[..], size, end)
        decreases keys.Length - end
      {
        assert was[end] != EMPTY_KEY;
        keys[newEnd], keys[end] := keys[end], keys[newEnd];
        ids[newEnd], ids[end] := ids[end], ids[newEnd];
        newEnd := newEnd + 1;
        end := end + 1;
      }
      TailIsParked(was, wasIds, keys[..], ids[..], size, end);
      endCnt := newEnd - 2 * size;
    }

    /** If a key is parked at `entry`, the key of old cell `p`, looks it up again
        and swaps it to where its walk stops, taking the id along. */
    method RehashCell(entry: nat, ghost was: seq<nat>, ghost wasIds: seq<nat>, ghost size: nat, ghost p: nat,
                       ghost src: seq<nat>, ghost victim: nat)
      returns (found: bool, ghost victim': nat, ghost src': seq<nat>)
      requires keys != ids && keys.Length == ids.Length && tblMask + 1 == 2 * size
      requires RehashState(was, wasIds, keys[..], ids[..], size, p, src, victim) != Astray
      requires p < |was| && (p < size || was[p] != EMPTY_KEY) && entry == Parked(size, p)
      modifies keys, ids
      ensures found == (was[p] != EMPTY_KEY)
      ensures RehashState(was, wasIds, keys[..], ids[..], size, p + 1, src', victim') != Astray
    {
      ghost var ks, xs := keys[..], ids[..];
      NextPending(was, wasIds, ks, xs, size, p, src, victim);
      found := keys[entry] != EMPTY_KEY;
      if !found {
        SkipOne(was, wasIds, ks, xs, size, p, src, victim);
        victim', src' := victim, src;
        return;
      }
      ghost var stop := StopSomewhere(was, wasIds, ks, xs, size, p, src, victim);
      var e := Walk(keys[entry], Home(keys[entry], tblMask + 1), stop);
      victim', src' := RehashStep(was, wasIds, ks, xs, size, p, src, victim, e);
      keys[entry], keys[e] := keys[e], keys[entry];
      ids[e] := ids[entry];
      assert keys[..] == StepKeys(ks, entry, e) && ids[..] == xs[e := xs[entry]];
    }

    /** Rehashes the next `cntIn` keys from `start` on, that is from old cell `p`
        on; `hi` bounds the old cells concerned. The outcome is a table of the
        old cells below `hi`, or a victim if some lookup stopped on a foreign key. */
    method Rehash(start: nat, cntIn: nat, ghost was: seq<nat>, ghost wasIds: seq<nat>,
                  ghost size: nat, ghost p: nat, ghost hi: nat, ghost srcIn: seq<nat>,
                  ghost victimIn: nat)
      returns (ghost victim: nat, ghost src: seq<nat>)
      requires keys != ids && keys.Length == ids.Length && tblMask + 1 == 2 * size
      requires RehashState(was, wasIds, keys[..], ids[..], size, p, srcIn, victimIn) != Astray
      requires Ordered(was, size) && p <= hi <= |was| && start == Parked(size, p)
      requires hi == size || p == size
      requires cntIn == Occupied(was, hi) - Occupied(was, p)
      modifies keys, ids
      ensures RehashState(was, wasIds, keys[..], ids[..], size, hi, src, victim) != Astray
    {
      var entry: nat, cnt: nat := start, cntIn;
      ghost var q: nat := p;
      victim, src := victimIn, srcIn;
      OccupiedRange(was, p, hi);
      while cnt > 0
        invariant p <= q <= hi && entry == start + (q - p)
        invariant cnt == Occupied(was, hi) - Occupied(was, q)
        invariant RehashState(was, wasIds, keys[..], ids[..], size, q, src, victim) != Astray
        decreases hi - q
      {
        ScanPosition(was, size, q, hi);
        assert entry == Parked(size, q);
        var found;
        found, victim, src := RehashCell(entry, was, wasIds, size, q, src, victim);
        if found { cnt := cnt - 1; }
        entry := entry + 1;
        q := q + 1;
      }
      OccupiedRange(was, q, hi);
      SkipRest(was, wasIds, keys[..], ids[..], size, q, hi, src, victim);
    }

    /** Doubles the table when it is half full. The doubled table stands for the
        same map if and only if the layout before it was safe. */
    method TryExpandConnTbl()
      requires TableOk() && |contents| == connCnt + twCnt && 2 * (connCnt + twCnt) <= tblMask + 2
      modifies keys, ids, `tblMask
      ensures 2 * (connCnt + twCnt) <= old(tblMask) ==>
                tblMask == old(tblMask) && keys[..] == old(keys[..]) && ids[..] == old(ids[..])
      ensures 2 * (connCnt + twCnt) > old(tblMask) ==>
                && tblMask + 1 == 2 * (old(tblMask) + 1) && 2 * (connCnt + twCnt) <= tblMask
                && (SafeToGrow(contents.Keys, old(tblMask) + 1, keys.Length) ==> TableOk())
                && (!SafeToGrow(contents.Keys, old(tblMask) + 1, keys.Length) ==>
                      !Represents(keys[..], ids[..], contents))
    {
      if 2 * (connCnt + twCnt) <= tblMask {
        return;
      }
      ReadyToDouble();
      SafeKeys(keys[..], ids[..], tblMask + 1, contents);
      DoubleTable(contents);
    }

    lemma ReadyToDouble()
      requires TableOk() && |contents| == connCnt + twCnt && tblMask < 2 * (connCnt + twCnt) <= tblMask + 2
      ensures IsPow2(2 * (tblMask + 1)) && 2 * (tblMask + 1) <= maxSize
      ensures OldTable(keys[..], ids[..], tblMask + 1)
      ensures Occupied(keys[..], keys.Length) == connCnt + twCnt
    {
      RoomToDouble(tblMask + 1, maxSize);
      BeforeDoubling(keys[..], ids[..], tblMask + 1, maxConn + maxTw, contents);
    }

    method DoubleTable(ghost m: map<nat, nat>)
      requires keys != ids && keys.Length == ids.Length
      requires OldTable(keys[..], ids[..], tblMask + 1) && Represents(keys[..], ids[..], m)
      requires Occupied(keys[..], keys.Length) == connCnt + twCnt
      modifies keys, ids, `tblMask
      ensures tblMask + 1 == 2 * (old(tblMask) + 1)
      ensures GrowSafe(old(keys[..]), old(tblMask) + 1) <==> Represents(keys[..], ids[..], m)
      ensures GrowSafe(old(keys[..]), old(tblMask) + 1) ==> Ordered(keys[..], tblMask + 1)
    {
      ghost var was, wasIds, size := keys[..], ids[..], tblMask + 1;
      var oldSize: nat := tblMask + 1;
      var endCnt := ParkTail(oldSize, was, wasIds);
      tblMask := tblMask * 2 + 1;
      ghost var src := seq(keys.Length, _ => 0);
      assert RehashState(was, wasIds, keys[..], ids[..], size, 0, src, 0) != Astray;
      ghost var victim;
      victim, src := Rehash(0, connCnt + twCnt - endCnt, was, wasIds, size, 0, size, src, 0);
      victim, src := Rehash(2 * oldSize, endCnt, was, wasIds, size, size, |was|, src, victim);
      AfterDoubling(was, wasIds, keys[..], ids[..], size, src, victim, m);
    }
  }

  /** The cell `hole` is to be vacated; the rest of the table stands for `m`. The
      stale key in the hole keeps the run of occupied cells from `h` unbroken. */
  ghost predicate Hole(ks: seq<nat>, xs: seq<nat>, size: nat, hole: nat, h: nat, n: nat, m: map<nat, nat>) {
    && OrderedBut(ks, size, hole) && |xs| == |ks|
    && Represents(ks[hole := EMPTY_KEY], xs, m)
    && Occupied(ks, |ks|) == n && h <= hole && h + n < |ks|
    && Run(ks, h, hole + 1)
  }

  lemma StartHole(ks: seq<nat>, xs: seq<nat>, size: nat, e: nat, m: map<nat, nat>)
    requires Ordered(ks, size) && Represents(ks, xs, m) && size + |m| <= |ks|
    requires e < |ks| && ks[e] != EMPTY_KEY
    ensures Hole(ks, xs, size, e, Home(ks[e], size), |m|, m - {ks[e]})
  {
    EntryCount(ks, xs, size, m);
    assert WellPlaced(ks, size, e);
    forall p: nat | p < |ks| && p != e
      ensures WellPlacedBut(ks, size, e, p)
    {
      assert WellPlaced(ks, size, p);
    }
    EntryRemoved(ks, xs, size, e, m);
  }

  lemma EntryRemoved(ks: seq<nat>, xs: seq<nat>, size: nat, e: nat, m: map<nat, nat>)
    requires Ordered(ks, size) && Represents(ks, xs, m) && e < |ks| && ks[e] != EMPTY_KEY
    ensures Represents(ks[e := EMPTY_KEY], xs, m - {ks[e]})
  {
    var after, m' := ks[e := EMPTY_KEY], m - {ks[e]};
    forall p: nat | p < |after|
      ensures CellReads(after, xs, m', p)
    {
      assert CellReads(ks, xs, m, p);
      if p != e && ks[p] == ks[e] { KeysDistinct(ks, size, p, e); }
    }
    forall k | k in m'
      ensures Stored(after, k)
    {
      assert Stored(ks, k);
      var q :| 0 <= q < |ks| && ks[q] == k;
      assert after[q] == k;
    }
  }

  lemma MoveHole(ks: seq<nat>, xs: seq<nat>, size: nat, hole: nat, next: nat, h: nat, n: nat, m: map<nat, nat>)
    requires Hole(ks, xs, size, hole, h, n, m)
    requires hole < next < |ks| && ks[next] != EMPTY_KEY && Home(ks[next], size) <= hole
    requires Passed(ks, size, hole, next)
    ensures Hole(ks[hole := ks[next]], xs[hole := xs[next]], size, next, h, n, m)
  {
    ShiftBack(ks, size, hole, next);
    ShiftKeepsMap(ks, xs, hole, next, m);
    OccupiedUpdate(ks, hole, ks[next], |ks|);
  }

  lemma StillFree(m: map<nat, nat>, k: nat, v: nat)
    requires k in m && m[k] != v && !InUse(m - {k}, v)
    ensures !InUse(m, v) && (m - {k})[k := v] == m[k := v]
  {
    assert forall k' :: k' in m && m[k'] == v ==> k' in m - {k} && (m - {k})[k'] == v;
  }

  /** Overwriting the id of a stored key changes the map at that key. */
  lemma Renamed(ks: seq<nat>, xs: seq<nat>, size: nat, e: nat, v: nat, m: map<nat, nat>)
    requires Ordered(ks, size) && Represents(ks, xs, m) && e < |ks| && ks[e] != EMPTY_KEY
    requires Injective(m) && !InUse(m, v)
    ensures Represents(ks, xs[e := v], m[ks[e] := v]) && Injective(m[ks[e] := v])
    ensures ks[e] in m && |m[ks[e] := v]| == |m|
  {
    var xs', m' := xs[e := v], m[ks[e] := v];
    assert CellReads(ks, xs, m, e);
    assert m'.Keys == m.Keys;
    forall p: nat | p < |ks|
      ensures CellReads(ks, xs', m', p)
    {
      assert CellReads(ks, xs, m, p);
      if p != e && ks[p] == ks[e] { KeysDistinct(ks, size, p, e); }
    }
    forall k | k in m'
      ensures Stored(ks, k) && Sole(m', k)
    {
      assert Stored(ks, k) && Sole(m, k);
      assert forall k' :: k' in m && m[k'] == v ==> InUse(m, v);
    }
  }

  lemma NothingStored(ks: seq<nat>, xs: seq<nat>, size: nat)
    requires size > 0 && |ks| == |xs| && forall p :: 0 <= p < |ks| ==> ks[p] == EMPTY_KEY
    ensures Ordered(ks, size) && Represents(ks, xs, map[]) && Injective(map[])
  {
  }

  lemma FirstSize(maxEntries: nat)
    ensures IsPow2(MaxTableSize(maxEntries)) && IsPow2(128)
  {
    var e := 1 + Msb(maxEntries);
    Pow2Exceeds(e);
    Pow2Add(4, 3);
    assert Pow2(7) == 128;
  }

  lemma RoomToDouble(size: nat, maxSize: nat)
    requires IsPow2(size) && IsPow2(maxSize) && size < maxSize
    ensures IsPow2(2 * size) && 2 * size <= maxSize
  {
    DoubledPow2(size);
    var e: nat :| e <= size && size == Pow2(e);
    var f: nat :| f <= maxSize && maxSize == Pow2(f);
    Pow2Monotone(f, e);
    Pow2Monotone(e, f);
  }

  /** A table at half load has all its keys well below twice its size. */
  lemma BeforeDoubling(ks: seq<nat>, xs: seq<nat>, size: nat, maxEntries: nat, m: map<nat, nat>)
    requires Ordered(ks, size) && Represents(ks, xs, m) && Injective(m)
    requires |m| <= size && |m| <= maxEntries && 2 * size + maxEntries <= |ks|
    ensures OldTable(ks, xs, size) && Occupied(ks, |ks|) == |m|
  {
    EntryCount(ks, xs, size, m);
    forall q | 0 <= q < |ks| && ks[q] != EMPTY_KEY
      ensures q + 1 < 2 * size && q + size < |ks|
    {
      PlaceBound(ks, size, q);
    }
    forall q, q' | 0 <= q < q' < |ks| && ks[q] != EMPTY_KEY && ks[q'] != EMPTY_KEY
      ensures xs[q] != xs[q']
    {
      assert CellReads(ks, xs, m, q) && CellReads(ks, xs, m, q') && Sole(m, ks[q]);
      if ks[q] == ks[q'] {
        KeysDistinct(ks, size, q, q');
      }
    }
  }

  lemma AfterDoubling(was: seq<nat>, wasIds: seq<nat>, cur: seq<nat>, ids: seq<nat>,
                      size: nat, src: seq<nat>, victim: nat, m: map<nat, nat>)
    requires RehashState(was, wasIds, cur, ids, size, |was|, src, victim) != Astray && Represents(was, wasIds, m)
    ensures GrowSafe(was, size) <==> Represents(cur, ids, m)
    ensures GrowSafe(was, size) ==> Ordered(cur, 2 * size)
  {
    if GrowSafe(was, size) {
      GrownTable(was, wasIds, cur, ids, size, |was|, src, m);
    } else {
      LostTable(was, wasIds, cur, ids, size, |was|, victim, m);
    }
  }

  /** The table lacks exactly the key carried, whose walk stands at cell `e`. */
  ghost predicate Carrying(ks: seq<nat>, xs: seq<nat>, size: nat, e: nat, key: nat, id: nat,
                           target: map<nat, nat>) {
    && Ordered(ks, size) && key < EMPTY_KEY && key !in ks && IsSlot(ks, size, e, key)
    && key in target && target[key] == id && Represents(ks, xs, target - {key})
    && size + |target| <= |ks|
  }

  ghost function FreeCellBeyond(ks: seq<nat>, xs: seq<nat>, size: nat, e: nat, key: nat, id: nat,
                                target: map<nat, nat>): (stop: nat)
    requires Carrying(ks, xs, size, e, key, id, target) && ks[e] != EMPTY_KEY
    ensures e < stop < |ks| && ks[stop] == EMPTY_KEY > ks[e]
  {
    assert exists p: nat :: e < p < |ks| && ks[p] == EMPTY_KEY by {
      assert WellPlaced(ks, size, e);
      EntryCount(ks, xs, size, target - {key});
      MinusOne(target, key);
      var p := FreeCellAhead(ks, Home(ks[e], size));
    }
    var stop: nat :| e < stop < |ks| && ks[stop] == EMPTY_KEY;
    stop
  }

  lemma StartCarrying(ks: seq<nat>, xs: seq<nat>, size: nat, e: nat, key: nat, id: nat, m: map<nat, nat>)
    requires Ordered(ks, size) && Represents(ks, xs, m) && size + |m| < |ks|
    requires key < EMPTY_KEY && key !in m && IsSlot(ks, size, e, key)
    ensures Carrying(ks, xs, size, e, key, id, m[key := id])
  {
    StoredKeys(ks, xs, m);
    assert key !in KeysOf(ks);
    assert m[key := id] - {key} == m;
    assert m[key := id].Keys == m.Keys + {key};
  }

  /** One turn of the displacement loop: the larger key is carried on from the
      next cell, to the cell `next` where its walk stops. */
  lemma Displace(ks: seq<nat>, xs: seq<nat>, size: nat, e: nat, key: nat, id: nat,
                 target: map<nat, nat>, next: nat)
    requires Carrying(ks, xs, size, e, key, id, target) && ks[e] != EMPTY_KEY
    requires e < next < |ks| && ks[next] >= ks[e] && forall q :: e < q < next ==> ks[q] < ks[e]
    ensures Carrying(ks[e := key], xs[e := id], size, next, ks[e], xs[e], target)
  {
    PutKeepsOrder(ks, size, e, key);
    forall q | 0 <= q < |ks| && ks[q] == ks[e]
      ensures q == e
    {
      KeysDistinct(ks, size, q, e);
    }
    PutKeepsMap(ks, xs, e, key, id, target);
    assert WellPlaced(ks, size, e);
    assert Walked(ks[e := key], size, e + 1, ks[e]);
  }

  lemma Settle(ks: seq<nat>, xs: seq<nat>, size: nat, e: nat, key: nat, id: nat, target: map<nat, nat>)
    requires Carrying(ks, xs, size, e, key, id, target) && ks[e] == EMPTY_KEY
    ensures Ordered(ks[e := key], size) && Represents(ks[e := key], xs[e := id], target)
  {
    PutKeepsOrder(ks, size, e, key);
    PutKeepsMap(ks, xs, e, key, id, target);
  }
}
