/** The two-level timer wheel: 256 slots of one tick each and 256 slots of 256
    ticks each, on intrusive rings. It refines the map of due ticks. */
module TimerWheel {
  import opened Words
  import opened TimerSpec
  import opened TimerLinks

  /** The slot `addTimer` chooses, and the ring head that stands for it. */
  function SlotFor(now: uint32, duration: uint32): (s: nat)
    ensures s < DUMP
  {
    if duration <= SLOTS then U32(now + duration) % SLOTS
    else SLOTS + ExpireFor(now, duration) / SLOTS % SLOTS
  }

  function ExpireFor(now: uint32, duration: uint32): (e: uint32)
    requires duration > SLOTS
  {
    var limit := SLOTS * (SLOTS + 1) - 1 - now % SLOTS;
    U32(now + if duration < limit then duration else limit)
  }

  /** Where a node with a given due tick may be at tick `time`. While a tick is
      being entered (`early`) the nodes due at this very tick are still in their
      slots; when dispatching they hang on the dump slot. */
  ghost predicate Placed(home: int, due: nat, expire: uint32, time: nat, early: bool) {
    if home == NOWHERE then true
    else if 0 <= home < SLOTS then
      && due % SLOTS == home
      && if early then time <= due < time + SLOTS else time < due <= time + SLOTS
    else if SLOTS <= home < DUMP then
      && due / SLOTS % SLOTS == home - SLOTS && expire == U32(due)
      && time / SLOTS < due / SLOTS <= time / SLOTS + SLOTS
    else home == DUMP && !early && due == time
  }

  lemma LowBits(x: int)
    ensures U32(x) % SLOTS == x % SLOTS
  {
  }

  lemma ShortIsRight(time: nat, duration: uint32)
    requires duration <= SLOTS
    ensures var due := time + Wait(time, duration);
            Placed(SlotFor(U32(time), duration), due, U32(due), time, false)
  {
    WrapAdd(time, duration);
    LowBits(time + Wait(time, duration));
    LowBits(time + duration);
    ModShift(time, 1, SLOTS);
  }

  lemma LongIsRight(time: nat, duration: uint32)
    requires duration > SLOTS
    ensures var due := time + Wait(time, duration);
            && Placed(SlotFor(U32(time), duration), due, U32(due), time, false)
            && ExpireFor(U32(time), duration) == U32(due)
  {
    LowBits(time);
    var due := time + Wait(time, duration);
    WrapAdd(time, Wait(time, duration));
    LongSlot(due);
    LongReach(time, due);
  }

  lemma LongReach(time: nat, due: nat)
    requires time + SLOTS < due <= time + SLOTS * (SLOTS + 1) - 1 - time % SLOTS
    ensures time / SLOTS < due / SLOTS <= time / SLOTS + SLOTS
  {
  }

  lemma LongSlot(due: nat)
    ensures U32(due) / SLOTS % SLOTS == due / SLOTS % SLOTS
  {
    var q, r := due / TWO32, U32(due);
    assert due == 256 * (0x100_0000 * q + r / 256) + r % 256;
    ModUnique(due, 0x100_0000 * q + r / 256, r % 256, 256);
    ModShift(r / 256, 0x1_0000 * q, 256);
  }

  /** A node in the slot that comes up has 0 to 255 ticks left, and the 32-bit
      difference the code forms is that number. */
  lemma CascadeLeft(time: nat, due: nat, expire: uint32, b: nat, q: nat)
    requires time + 1 == SLOTS * b && SLOTS * q <= due < SLOTS * q + SLOTS
    requires b <= q < b + SLOTS && q % SLOTS == b % SLOTS && expire == U32(due)
    ensures 0 <= due - (time + 1) < SLOTS
    ensures U32(expire - U32(time + 1)) == due - (time + 1)
  {
    SameBlock(q, b);
    SignedDistance(due, time + 1);
  }

  lemma SameBlock(q: nat, b: nat)
    requires b <= q < b + SLOTS && q % SLOTS == b % SLOTS
    ensures q == b
  {
  }

  /** Nodes elsewhere are placed for the next tick as they are. */
  lemma PlacedNext(home: int, due: nat, expire: uint32, time: nat)
    requires Placed(home, due, expire, time, false) && home != DUMP
    ensures !((time + 1) % SLOTS == 0 && home == SLOTS + (time + 1) / SLOTS % SLOTS)
            ==> Placed(home, due, expire, time + 1, true)
  {
  }

  ghost predicate PlacedAt(home: seq<int>, due: seq<nat>, expire: seq<uint32>, time: nat, early: bool, x: nat)
    requires x < |home| && |home| == |due| == |expire|
  {
    Placed(home[x], due[x], expire[x], time, early)
  }

  ghost predicate AllPlaced(home: seq<int>, due: seq<nat>, expire: seq<uint32>, time: nat, early: bool) {
    && |home| == |due| == |expire|
    && (forall x: nat :: HEADS <= x < |home| ==> PlacedAt(home, due, expire, time, early, x))
  }

  /** The armed timers and the ticks they are due at. Timers go by the number of
      their node. */
  ghost function ArmedOf(home: seq<int>, due: seq<nat>): (m: map<Timer, nat>)
    requires |home| == |due|
  {
    map x: nat | HEADS <= x < |home| && home[x] != NOWHERE :: due[x]
  }

  class Wheel {
    const next: array<nat>
    const prev: array<nat>
    const expire: array<uint32>
    var now: uint32
    ghost var time: nat
    ghost var home: seq<int>
    ghost var rank: seq<nat>
    ghost var clock: nat
    ghost var due: seq<nat>

    ghost function View(): (l: Links)
      reads this, next, prev
    {
      Links(next[..], prev[..], home, rank)
    }

    ghost predicate Sized()
      reads this
    {
      && next != prev && HEADS <= next.Length == prev.Length == expire.Length
      && |home| == |rank| == |due| == next.Length && now == U32(time)
      && (forall x: nat :: x < |rank| ==> rank[x] < clock)
    }

    ghost predicate Inv(early: bool)
      reads this, next, prev, expire
    {
      && Sized() && LinksOk(View()) == true
      && AllPlaced(home, due, expire[..], time, early) == true
    }

    /** Between ticks: the rings are sound, every armed timer is in the slot of its
        due tick, and nothing is left to dispatch. */
    ghost predicate Valid()
      reads this, next, prev, expire
    {
      Inv(false) && NoneAt(home, DUMP)
    }

    /** `Inv(false)`, said with a quantifier: the verifier takes it apart only where `Inv` is
        asked for. */
    ghost predicate Sound()
      reads this, next, prev, expire
    {
      HEADS <= |home| == |due| == next.Length && forall w: Wheel {:trigger w.Inv(false)} | w in {this} :: w.Inv(false)
    }

    ghost function Armed(): (m: map<Timer, nat>)
      requires |home| == |due|
      reads this
    {
      ArmedOf(home, due)
    }

    /** `TimerNode::unlink`. */
    method Unlink(x: nat)
      requires Sized() && LinksOk(View()) && HEADS <= x < next.Length
      modifies this`home, next, prev
      ensures Sized() && LinksOk(View()) && home == old(home)[x := NOWHERE]
    {
      ghost var l := View();
      UnlinkKeeps(l, x);
      var n, p := next[x], prev[x];
      next[p] := n;
      prev[n] := p;
      prev[x], next[x] := x, x;
      home := home[x := NOWHERE];
      assert View() == Unlinked(l, x);
    }

    /** The linking part of `addTimer`, and the stored expiry of long timers. */
    method AddTimer(duration: uint32, x: nat)
      requires Sized() && HEADS <= x < next.Length && next[SlotFor(now, duration)] < next.Length
      modifies this`home, this`rank, this`clock, next, prev, expire
      ensures Sized() && View() == Inserted(old(View()), SlotFor(now, duration), x, old(clock))
      ensures expire[..] == if duration <= SLOTS then old(expire[..])
                            else old(expire[..])[x := ExpireFor(now, duration)]
    {
      ghost var l := View();
      var slot: nat;
      if duration <= SLOTS {
        slot := U32(now + duration) % SLOTS;
      } else {
        var limit := SLOTS * (SLOTS + 1) - 1 - now % SLOTS;
        var d := if duration < limit then duration else limit;
        expire[x] := U32(now + d);
        slot := SLOTS + expire[x] / SLOTS % SLOTS;
      }
      next[x] := next[slot];
      prev[x] := slot;
      prev[next[slot]] := x;
      next[slot] := x;
      home, rank, clock := home[x := slot], rank[x := clock], clock + 1;
      assert View() == Inserted(l, slot, x, clock - 1);
    }

    /** Stops a timer, whether it runs or not. */
    method Stop(x: nat)
      requires Sound() && HEADS <= x < next.Length
      modifies this`home, next, prev
      ensures Sound() && Armed() == old(Armed()) - {x} && |home| == |old(home)|
      ensures DumpSet(home) <= DumpSet(old(home)) - {x}
    {
      assert Inv(false);
      Unlink(x);
      StillPlaced(old(home), home, due, expire[..], time, x);
    }

    /** Stops the timers of `n` consecutive nodes. */
    method StopRange(first: nat, n: nat)
      requires Sound() && HEADS <= first && first + n <= next.Length
      modifies this`home, next, prev
      ensures Sound() && Armed() == Without(old(Armed()), first, first + n) && |home| == |old(home)|
      ensures DumpSet(home) <= DumpSet(old(home))
    {
      assert Inv(false);
      var j := 0;
      while j < n
        invariant j <= n && Sound() && |home| == |old(home)| && DumpSet(home) <= DumpSet(old(home))
        invariant Armed() == Without(old(Armed()), first, first + j)
      {
        Stop(first + j);
        j := j + 1;
      }
    }

    /** `addTimer`, for a timer that does not run. */
    method Arm(x: nat, duration: uint32)
      requires Sound() && HEADS <= x < next.Length && x !in Armed()
      modifies this`home, this`rank, this`clock, this`due, next, prev, expire
      ensures Sound() && Armed() == old(Armed())[x := time + Wait(time, duration)]
      ensures |home| == |old(home)| && DumpSet(home) <= DumpSet(old(home))
    {
      assert Inv(false);
      ghost var l, xs, slot, w := View(), expire[..], SlotFor(now, duration), time + Wait(time, duration);
      InsertKeeps(l, slot, x, clock);
      AddTimer(duration, x);
      due := due[x := w];
      SlotIsRight(time, duration, xs[x]);
      NewlyPlaced(l.home, home, old(due), due, xs, expire[..], time, x);
    }

    /** `setUserTimer`: the due tick of one timer changes, nothing else. */
    method SetTimer(x: nat, duration: uint32)
      requires Sound() && HEADS <= x < next.Length
      modifies this`home, this`rank, this`clock, this`due, next, prev, expire
      ensures Sound() && Armed() == Apply(old(Armed()), time, Set(x, duration))
      ensures |home| == |old(home)| && DumpSet(home) <= DumpSet(old(home))
    {
      assert Inv(false);
      Stop(x);
      if duration != 0 {
        Arm(x, duration);
      }
    }

    method PerformOps(ops: seq<Op>)
      requires Inv(false) && OpsOk(ops, next.Length)
      modifies this`home, this`rank, this`clock, this`due, next, prev, expire
      ensures Inv(false) && Armed() == ApplyAll(old(Armed()), time, ops)
      ensures DumpSet(home) <= DumpSet(old(home))
    {
      var i := 0;
      while i < |ops|
        invariant 0 <= i <= |ops| && Inv(false) && DumpSet(home) <= DumpSet(old(home))
        invariant ApplyAll(Armed(), time, ops[i..]) == ApplyAll(old(Armed()), time, ops)
      {
        assert OpOk(ops[i], next.Length);
        assert Sound();
        SetTimer(ops[i].timer, ops[i].duration);
        assert ops[i..][1..] == ops[i + 1..];
        i := i + 1;
      }
    }

    // ---- one tick ----

    /** Spreads the nodes of a long slot that comes up over the short slots. */
    method Cascade(s: nat)
      requires Sized() && LinksOk(View()) && SLOTS <= s < DUMP
      requires PlacedBut(home, due, expire[..], time, s)
      modifies this`home, this`rank, this`clock, next, prev, expire
      ensures Inv(true) && Armed() == old(Armed())
    {
      StartEmptying(View(), s);
      var node := next[s];
      while node != s
        invariant Sized() && Emptying(View(), s, node) == true
        invariant PlacedBut(home, due, expire[..], time, s) == true
        invariant ArmedOf(home, due) == old(Armed())
        decreases if node == s then 0 else rank[node] + 1
      {
        node := CascadeNode(s, node);
      }
      ghost var l := View();
      EmptiedKeeps(l, s);
      prev[s] := s;
      next[s] := s;
      assert View() == l.(next := l.next[s := s], prev := l.prev[s := s]);
      NothingLeft(home, due, expire[..], time, s);
    }

    /** Adds a node of the second wheel, with less than 256 ticks left, to the first. */
    method AddAgain(node: nat, ghost slot: nat)
      requires Sized() && HEADS <= node < next.Length && time <= due[node] < time + SLOTS
      requires expire[node] == U32(due[node]) && slot == due[node] % SLOTS && next[slot] < next.Length
      modifies this`home, this`rank, this`clock, next, prev, expire
      ensures Sized() && View() == Inserted(old(View()), slot, node, old(clock)) && expire[..] == old(expire[..])
    {
      LeftTicks(time, due[node], expire[node]);
      AddTimer(U32(expire[node] - now), node);
    }

    /** Re-adds one node with the ticks it has left, 0 to 255, and goes on. */
    method CascadeNode(s: nat, node: nat) returns (nx: nat)
      requires Sized() && SLOTS <= s < DUMP && node != s && Emptying(View(), s, node)
      requires PlacedBut(home, due, expire[..], time, s)
      modifies this`home, this`rank, this`clock, next, prev, expire
      ensures Sized() && Emptying(View(), s, nx) == true
      ensures PlacedBut(home, due, expire[..], time, s) == true
      ensures ArmedOf(home, due) == old(ArmedOf(home, due))
      ensures nx == s || (nx < |rank| && rank[nx] < old(rank)[node])
    {
      ghost var l := View();
      assert LeftOver(l, s, node, node) && PlacedButAt(home, due, expire[..], time, s, node);
      nx := next[node];
      ghost var slot: nat := due[node] % SLOTS;
      MoveKeeps(l, s, node, slot, clock);
      AddAgain(node, slot);
      MovedDown(l.home, home, due, expire[..], time, s, node);
    }

    /** Hangs the nodes due now on the dump slot. */
    method DetachDue()
      requires Inv(true)
      modifies this`home, next, prev
      ensures Inv(false) && Armed() == old(Armed())
    {
      var s := now % SLOTS;
      ghost var l := View();
      assert HeadOk(l, s);
      NoDumpEarly(home, due, expire[..], time);
      if prev[s] == s {
        forall x: nat | Node(l, x)
          ensures l.home[x] != s
        {
          if l.home[x] == s { LastIsLinked(l, s, x); }
        }
        DueDetached(home, home, due, expire[..], time);
        return;
      }
      DetachKeeps(l, s);
      DetachSlot(s);
      assert s == time % SLOTS by { LowBits(time); }
      DueDetached(l.home, home, due, expire[..], time);
    }

    /** Hangs the ring of slot `s` on the dump slot. */
    method DetachSlot(s: nat)
      requires Sized() && s < DUMP && next[s] < next.Length && prev[s] < next.Length && prev[s] != s
      modifies this`home, next, prev
      ensures Sized() && View() == Detached(old(View()), s)
    {
      ghost var l := View();
      next[DUMP] := next[s];
      var first, last := next[s], prev[s];
      next[last] := DUMP;
      prev[first] := DUMP;
      prev[s], next[s] := s, s;
      home := Detached(l, s).home;
      assert View() == Detached(l, s);
    }

    /** The part of `pollTime` before the dispatch: the clock moves on by one tick, and
        what is due hangs on the dump slot. */
    method BeginTick()
      requires Sound() && NoneAt(home, DUMP)
      modifies this`now, this`time, this`home, this`rank, this`clock, next, prev, expire
      ensures Sound() && time == old(time) + 1 && Armed() == old(Armed()) && |home| == |old(home)|
    {
      assert Inv(false);
      ghost var was := time;
      now := U32(now + 1);
      time := time + 1;
      WrapAdd(was, 1);
      LowBits(time);
      LongSlot(time);
      if now % SLOTS == 0 {
        EnterBlock(home, due, expire[..], was);
        Cascade(SLOTS + now / SLOTS % SLOTS);
      } else {
        EnterTick(home, due, expire[..], was);
      }
      DetachDue();
    }

    /** The next timer of the dump slot fires: it was due now, and no longer runs. */
    method FireNext() returns (x: nat)
      requires Sound() && next[DUMP] != DUMP
      modifies this`home, next, prev
      ensures Sound() && |home| == |old(home)| && HEADS <= x < |home|
      ensures x in old(Armed()) && old(Armed())[x] == time && Armed() == old(Armed()) - {x}
      ensures x in DumpSet(old(home)) && DumpSet(home) <= DumpSet(old(home)) - {x}
    {
      assert Inv(false);
      assert HeadOk(View(), DUMP);
      x := next[DUMP];
      assert PlacedAt(home, due, expire[..], time, false, x);
      assert x in DumpSet(home);
      Stop(x);
    }

    /** When the dump slot is empty, everything due has fired. */
    lemma AllFired()
      requires Sound() && next[DUMP] == DUMP
      ensures Valid() && forall t :: t in Armed() ==> time < Armed()[t]
    {
      assert Inv(false);
      forall x: nat | Node(View(), x)
        ensures home[x] != DUMP
      {
        if home[x] == DUMP { FirstIsHighest(View(), DUMP, x); }
      }
      AllLater(home, due, expire[..], time);
    }

    /** Between ticks, every timer is due later. */
    lemma NoneDue()
      requires Sound() && NoneAt(home, DUMP)
      ensures forall t :: t in Armed() ==> time < Armed()[t]
    {
      assert Inv(false);
      AllLater(home, due, expire[..], time);
    }

    /** Fires what hangs on the dump slot, one node at a time; `plan(i)` is what the
        handler of the i-th firing does to the timers. */
    method Dispatch(plan: nat -> seq<Op>) returns (fired: seq<Timer>)
      requires Inv(false) && forall i: nat :: OpsOk(plan(i), next.Length)
      modifies this`home, this`rank, this`clock, this`due, next, prev, expire
      ensures Valid() && Tick(old(Armed()), time, fired, Script(plan, |fired|), Armed())
    {
      fired := [];
      while next[DUMP] != DUMP
        invariant Inv(false) == true
        invariant Replay(old(Armed()), time, fired, Script(plan, |fired|)) == TimerSpec.Armed(Armed())
        decreases DumpSet(home)
      {
        ghost var mid := Armed();
        assert Sound();
        var x := FireNext();
        PerformOps(plan(|fired|));
        ReplayAppend(old(Armed()), time, fired, Script(plan, |fired|), mid, x, plan(|fired|));
        assert Script(plan, |fired| + 1) == Script(plan, |fired|) + [plan(|fired|)];
        fired := fired + [x];
      }
      AllFired();
    }

    /** `pollTime` with the current time reading `ts`: nothing if the clock already
        shows it, otherwise the clock moves on by one tick and what is due is fired. */
    method PollTime(ts: uint32, plan: nat -> seq<Op>) returns (fired: seq<Timer>)
      requires Valid() && forall i: nat :: OpsOk(plan(i), next.Length)
      modifies this, next, prev, expire
      ensures Valid()
      ensures ts == old(now) ==> fired == [] && time == old(time) && Armed() == old(Armed())
      ensures ts != old(now) ==>
                time == old(time) + 1 && Tick(old(Armed()), time, fired, Script(plan, |fired|), Armed())
    {
      if ts == now {
        return [];
      }
      BeginTick();
      fired := Dispatch(plan);
    }

    constructor (nodes: nat, start: uint32)
      ensures Sound() && NoneAt(home, DUMP) && now == start && Armed() == map[] && next.Length == HEADS + nodes
      ensures fresh(next) && fresh(prev) && fresh(expire)
    {
      next := new nat[HEADS + nodes](i => i);
      prev := new nat[HEADS + nodes](i => i);
      expire := new uint32[HEADS + nodes](_ => 0);
      now := start;
      time := start;
      home := seq(HEADS + nodes, _ => NOWHERE);
      rank := seq(HEADS + nodes, _ => 0);
      clock := 1;
      due := seq(HEADS + nodes, _ => 0);
      new;
      NothingLinked(View(), due, expire[..], time);
    }
  }

  lemma NothingLinked(l: Links, due: seq<nat>, expire: seq<uint32>, time: nat)
    requires HEADS <= |l.next| == |l.prev| == |l.home| == |l.rank| == |due| == |expire|
    requires forall x :: 0 <= x < |l.next| ==> l.next[x] == x && l.prev[x] == x && l.home[x] == NOWHERE
    ensures LinksOk(l) && AllPlaced(l.home, due, expire, time, false) && ArmedOf(l.home, due) == map[]
  {
  }

  predicate OpOk(op: Op, n: nat) {
    HEADS <= op.timer < n && op.duration < TWO32
  }

  predicate OpsOk(ops: seq<Op>, n: nat) {
    forall i :: 0 <= i < |ops| ==> OpOk(ops[i], n)
  }

  /** What the handlers of the first `n` firings do. */
  ghost function Script(plan: nat -> seq<Op>, n: nat): (script: seq<seq<Op>>)
    ensures |script| == n && forall i: nat :: i < n ==> script[i] == plan(i)
  {
    if n == 0 then [] else Script(plan, n - 1) + [plan(n - 1)]
  }

  ghost function DumpSet(home: seq<int>): (s: set<nat>) {
    set x: nat | HEADS <= x < |home| && home[x] == DUMP
  }

  ghost predicate PlacedButAt(home: seq<int>, due: seq<nat>, expire: seq<uint32>, time: nat, s: nat, x: nat)
    requires x < |home| && |home| == |due| == |expire|
  {
    if home[x] == s then time <= due[x] < time + SLOTS && expire[x] == U32(due[x])
    else PlacedAt(home, due, expire, time, true, x)
  }

  /** All nodes are placed, but those of slot `s` have less than 256 ticks left. */
  ghost predicate PlacedBut(home: seq<int>, due: seq<nat>, expire: seq<uint32>, time: nat, s: nat) {
    && |home| == |due| == |expire|
    && (forall x: nat :: HEADS <= x < |home| ==> PlacedButAt(home, due, expire, time, s, x))
  }

  lemma LeftTicks(time: nat, due: nat, expire: uint32)
    requires time <= due < time + SLOTS && expire == U32(due)
    ensures U32(expire - U32(time)) == due - time
    ensures SlotFor(U32(time), U32(expire - U32(time))) == due % SLOTS
  {
    SignedDistance(due, time);
    LowBits(due);
    WrapAdd(time, due - time);
  }

  lemma MovedDown(home: seq<int>, home': seq<int>, due: seq<nat>, expire: seq<uint32>, time: nat, s: nat, x: nat)
    requires PlacedBut(home, due, expire, time, s) && HEADS <= x < |home| && home[x] == s && s >= SLOTS
    requires home' == home[x := due[x] % SLOTS]
    ensures PlacedBut(home', due, expire, time, s) && ArmedOf(home', due) == ArmedOf(home, due)
  {
    forall y: nat | HEADS <= y < |home'|
      ensures PlacedButAt(home', due, expire, time, s, y)
    {
      assert PlacedButAt(home, due, expire, time, s, y);
    }
  }

  lemma NothingLeft(home: seq<int>, due: seq<nat>, expire: seq<uint32>, time: nat, s: nat)
    requires PlacedBut(home, due, expire, time, s) && NoneAt(home, s)
    ensures AllPlaced(home, due, expire, time, true)
  {
    forall y: nat | HEADS <= y < |home|
      ensures PlacedAt(home, due, expire, time, true, y)
    {
      assert PlacedButAt(home, due, expire, time, s, y);
    }
  }

  lemma NoDumpEarly(home: seq<int>, due: seq<nat>, expire: seq<uint32>, time: nat)
    requires AllPlaced(home, due, expire, time, true)
    ensures NoneAt(home, DUMP)
  {
    forall y: nat | HEADS <= y < |home|
      ensures home[y] != DUMP
    {
      assert PlacedAt(home, due, expire, time, true, y);
    }
  }

  /** What hung in the slot of this tick is exactly what is due now. */
  lemma DueDetached(home: seq<int>, home': seq<int>, due: seq<nat>, expire: seq<uint32>, time: nat)
    requires AllPlaced(home, due, expire, time, true) && |home'| == |home|
    requires forall x: nat :: HEADS <= x < |home| ==>
                                home'[x] == if home[x] == time % SLOTS then DUMP else home[x]
    ensures AllPlaced(home', due, expire, time, false) && ArmedOf(home', due) == ArmedOf(home, due)
  {
    forall y: nat | HEADS <= y < |home'|
      ensures PlacedAt(home', due, expire, time, false, y)
    {
      assert PlacedAt(home, due, expire, time, true, y);
      if 0 <= home[y] < SLOTS { SameSlot(due[y], time); }
    }
  }

  lemma AllLater(home: seq<int>, due: seq<nat>, expire: seq<uint32>, time: nat)
    requires AllPlaced(home, due, expire, time, false) && NoneAt(home, DUMP)
    ensures forall t :: t in ArmedOf(home, due) ==> time < ArmedOf(home, due)[t]
  {
    forall t | t in ArmedOf(home, due)
      ensures time < due[t]
    {
      assert PlacedAt(home, due, expire, time, false, t);
    }
  }

  lemma EnterBlock(home: seq<int>, due: seq<nat>, expire: seq<uint32>, time: nat)
    requires AllPlaced(home, due, expire, time, false) && NoneAt(home, DUMP) && (time + 1) % SLOTS == 0
    ensures PlacedBut(home, due, expire, time + 1, SLOTS + (time + 1) / SLOTS % SLOTS)
  {
    var time', s := time + 1, SLOTS + (time + 1) / SLOTS % SLOTS;
    forall x: nat | HEADS <= x < |home|
      ensures PlacedButAt(home, due, expire, time', s, x)
    {
      assert PlacedAt(home, due, expire, time, false, x);
      if home[x] == s {
        CascadeLeft(time, due[x], expire[x], (time + 1) / SLOTS, due[x] / SLOTS);
      } else {
        PlacedNext(home[x], due[x], expire[x], time);
      }
    }
  }

  lemma EnterTick(home: seq<int>, due: seq<nat>, expire: seq<uint32>, time: nat)
    requires AllPlaced(home, due, expire, time, false) && NoneAt(home, DUMP) && (time + 1) % SLOTS != 0
    ensures AllPlaced(home, due, expire, time + 1, true)
  {
    var time' := time + 1;
    forall x: nat | HEADS <= x < |home|
      ensures PlacedAt(home, due, expire, time', true, x)
    {
      assert PlacedAt(home, due, expire, time, false, x);
      PlacedNext(home[x], due[x], expire[x], time);
    }
  }

  lemma SameSlot(due: nat, time: nat)
    requires time <= due < time + SLOTS
    ensures due % SLOTS == time % SLOTS <==> due == time
  {
  }

  /** Unlinking a node takes one timer out of the map. */
  lemma StillPlaced(home: seq<int>, home': seq<int>, due: seq<nat>, expire: seq<uint32>, time: nat, x: nat)
    requires AllPlaced(home, due, expire, time, false) && HEADS <= x < |home| && home' == home[x := NOWHERE]
    ensures AllPlaced(home', due, expire, time, false)
    ensures ArmedOf(home', due) == ArmedOf(home, due) - {x}
  {
    forall y: nat | HEADS <= y < |home'|
      ensures PlacedAt(home', due, expire, time, false, y)
    {
      assert PlacedAt(home, due, expire, time, false, y);
    }
  }

  /** Linking it where `addTimer` does puts it back with the new due tick. */
  lemma NewlyPlaced(home: seq<int>, home': seq<int>, due: seq<nat>, due': seq<nat>, expire: seq<uint32>,
                    expire': seq<uint32>, time: nat, x: nat)
    requires AllPlaced(home, due, expire, time, false) && HEADS <= x < |home| == |home'| == |due'| == |expire'|
    requires home' == home[x := home'[x]] && due' == due[x := due'[x]] && expire' == expire[x := expire'[x]]
    requires home'[x] != NOWHERE && Placed(home'[x], due'[x], expire'[x], time, false)
    ensures AllPlaced(home', due', expire', time, false)
    ensures ArmedOf(home', due') == ArmedOf(home, due)[x := due'[x]]
  {
    forall y: nat | HEADS <= y < |home'|
      ensures PlacedAt(home', due', expire', time, false, y)
    {
      assert PlacedAt(home, due, expire, time, false, y);
    }
  }

  /** The slot and the expiry that `addTimer` chooses are right. */
  lemma SlotIsRight(time: nat, duration: uint32, expire: uint32)
    ensures Placed(SlotFor(U32(time), duration), time + Wait(time, duration),
                   if duration <= SLOTS then expire else ExpireFor(U32(time), duration), time, false)
  {
    if duration <= SLOTS {
      ShortIsRight(time, duration);
    } else {
      LongIsRight(time, duration);
    }
  }

  lemma NoneDumped(home: seq<int>, home': seq<int>)
    requires NoneAt(home, DUMP) && DumpSet(home') <= DumpSet(home)
    ensures NoneAt(home', DUMP)
  {
    forall x: nat | HEADS <= x < |home'|
      ensures home'[x] != DUMP
    {
      assert x !in DumpSet(home);
    }
  }

  ghost predicate NoneAt(home: seq<int>, s: int) {
    forall x: nat :: HEADS <= x < |home| ==> home[x] != s
  }
}
