/** What the timer wheel is for: a map from armed timers to the tick they are due
    at, one tick of dispatching, and whole runs of ticks. */
module TimerSpec {
  const SLOTS: nat := 256

  type Timer = nat

  /** `setUserTimer`: (re-)arm for `duration` ticks, or cancel with 0. */
  datatype Op = Set(timer: Timer, duration: nat)

  /** The number of ticks `addTimer` really waits when called at tick `now`. */
  function Wait(now: nat, duration: nat): (w: nat)
    ensures 1 <= w
    ensures 1 <= duration <= SLOTS * SLOTS ==> w == duration
    ensures duration > SLOTS * SLOTS ==> SLOTS * SLOTS <= w <= duration && w < SLOTS * (SLOTS + 1)
  {
    if duration == 0 then SLOTS
    else if duration <= SLOTS then duration
    else
      var limit := SLOTS * (SLOTS + 1) - 1 - now % SLOTS;
      if duration < limit then duration else limit
  }

  function Apply(armed: map<Timer, nat>, now: nat, op: Op): (armed': map<Timer, nat>) {
    if op.duration == 0 then armed - {op.timer}
    else armed[op.timer := now + Wait(now, op.duration)]
  }

  function ApplyAll(armed: map<Timer, nat>, now: nat, ops: seq<Op>): (armed': map<Timer, nat>)
    decreases |ops|
  {
    if ops == [] then armed else ApplyAll(Apply(armed, now, ops[0]), now, ops[1..])
  }

  /** The timers that are not among those from `lo` up to `hi`. */
  function Without(armed: map<Timer, nat>, lo: nat, hi: nat): (armed': map<Timer, nat>) {
    map x | x in armed && !(lo <= x < hi) :: armed[x]
  }

  /** Dispatching at tick `now`: the timers of `fired` fire in this order, and the
      handler of the i-th performs `script[i]`. Each must be due when its turn
      comes; `None` if one is not. */
  datatype Result = None | Armed(armed: map<Timer, nat>)

  function Replay(armed: map<Timer, nat>, now: nat, fired: seq<Timer>, script: seq<seq<Op>>): (r: Result)
    requires |script| == |fired|
    decreases |fired|
  {
    if fired == [] then Armed(armed)
    else if fired[0] !in armed || armed[fired[0]] != now then None
    else Replay(ApplyAll(armed - {fired[0]}, now, script[0]), now, fired[1..], script[1..])
  }

  /** One whole tick: what is due is fired until nothing due is left. */
  predicate Tick(armed: map<Timer, nat>, now: nat, fired: seq<Timer>, script: seq<seq<Op>>, armed': map<Timer, nat>) {
    && |script| == |fired|
    && Replay(armed, now, fired, script) == Armed(armed')
    && forall t :: t in armed' ==> now < armed'[t]
  }

  predicate Touches(ops: seq<Op>, t: Timer) {
    exists i :: 0 <= i < |ops| && ops[i].timer == t
  }

  predicate ScriptTouches(script: seq<seq<Op>>, t: Timer) {
    exists i :: 0 <= i < |script| && Touches(script[i], t)
  }

  /** A handler that runs before `t` fires (or in a tick in which it does not) touches it. */
  predicate TouchedBefore(fired: seq<Timer>, script: seq<seq<Op>>, t: Timer) {
    exists i :: 0 <= i < |fired| && i < |script| && t !in fired[..i + 1] && Touches(script[i], t)
  }

  // ---- within one tick ----

  lemma {:induction false} ApplyAllKeeps(armed: map<Timer, nat>, now: nat, ops: seq<Op>, t: Timer)
    requires !Touches(ops, t)
    ensures t in ApplyAll(armed, now, ops) <==> t in armed
    ensures t in armed ==> ApplyAll(armed, now, ops)[t] == armed[t]
    decreases |ops|
  {
    if ops != [] {
      assert ops[0].timer != t;
      forall i | 0 <= i < |ops[1..]|
        ensures ops[1..][i].timer != t
      {
        assert ops[1..][i] == ops[i + 1];
      }
      ApplyAllKeeps(Apply(armed, now, ops[0]), now, ops[1..], t);
    }
  }

  /** Handlers can only arm for later ticks. */
  lemma {:induction false} ApplyAllArmsLater(armed: map<Timer, nat>, now: nat, ops: seq<Op>, t: Timer)
    requires t in armed ==> armed[t] != now
    ensures t in ApplyAll(armed, now, ops) ==> ApplyAll(armed, now, ops)[t] != now
    decreases |ops|
  {
    if ops != [] {
      ApplyAllArmsLater(Apply(armed, now, ops[0]), now, ops[1..], t);
    }
  }

  function Count(fired: seq<Timer>, t: Timer): (n: nat) {
    if fired == [] then 0 else Count(fired[1..], t) + if fired[0] == t then 1 else 0
  }

  /** A timer that is not due now is not fired in this tick, whatever the handlers
      do to it: re-arming never fires in the same tick. */
  lemma {:induction false} NotDueNotFired(armed: map<Timer, nat>, now: nat, fired: seq<Timer>,
                                          script: seq<seq<Op>>, t: Timer)
    requires |script| == |fired| && Replay(armed, now, fired, script).Armed?
    requires t in armed ==> armed[t] != now
    ensures Count(fired, t) == 0
    decreases |fired|
  {
    if fired != [] {
      ApplyAllArmsLater(armed - {fired[0]}, now, script[0], t);
      NotDueNotFired(ApplyAll(armed - {fired[0]}, now, script[0]), now, fired[1..], script[1..], t);
    }
  }

  /** No timer fires twice in a tick. */
  lemma {:induction false} FiresAtMostOnce(armed: map<Timer, nat>, now: nat, fired: seq<Timer>,
                                           script: seq<seq<Op>>, t: Timer)
    requires |script| == |fired| && Replay(armed, now, fired, script).Armed?
    ensures Count(fired, t) <= 1
    decreases |fired|
  {
    if fired != [] {
      var rest := ApplyAll(armed - {fired[0]}, now, script[0]);
      if fired[0] == t {
        ApplyAllArmsLater(armed - {t}, now, script[0], t);
        NotDueNotFired(rest, now, fired[1..], script[1..], t);
      } else {
        FiresAtMostOnce(rest, now, fired[1..], script[1..], t);
      }
    }
  }

  /** A due timer fires exactly once, unless an earlier handler of the tick touches it. What
      its own handler, and later ones, do to it makes no difference. */
  lemma DueFiresOnce(armed: map<Timer, nat>, now: nat, fired: seq<Timer>,
                     script: seq<seq<Op>>, armed': map<Timer, nat>, t: Timer)
    requires Tick(armed, now, fired, script, armed')
    requires t in armed && armed[t] == now && !TouchedBefore(fired, script, t)
    ensures Count(fired, t) == 1
  {
    FiresAtMostOnce(armed, now, fired, script, t);
    if Count(fired, t) == 0 {
      NeverFired(fired, t);
      forall i | 0 <= i < |script|
        ensures !Touches(script[i], t)
      {
        assert t !in fired[..i + 1];
      }
      UntouchedStays(armed, now, fired, script, armed', t);
    }
  }

  lemma {:induction false} NeverFired(fired: seq<Timer>, t: Timer)
    ensures Count(fired, t) == 0 <==> t !in fired
  {
    if fired != [] { NeverFired(fired[1..], t); }
  }

  /** A timer that neither fires nor is touched keeps its due tick. */
  lemma {:induction false} UntouchedStays(armed: map<Timer, nat>, now: nat, fired: seq<Timer>,
                                          script: seq<seq<Op>>, armed': map<Timer, nat>, t: Timer)
    requires |script| == |fired| && Replay(armed, now, fired, script) == Armed(armed')
    requires !ScriptTouches(script, t) && Count(fired, t) == 0
    ensures t in armed' <==> t in armed
    ensures t in armed ==> armed'[t] == armed[t]
    decreases |fired|
  {
    if fired != [] {
      var rest := ApplyAll(armed - {fired[0]}, now, script[0]);
      assert !Touches(script[0], t);
      ApplyAllKeeps(armed - {fired[0]}, now, script[0], t);
      forall i | 0 <= i < |script[1..]|
        ensures !Touches(script[1..][i], t)
      {
        assert script[1..][i] == script[i + 1];
      }
      UntouchedStays(rest, now, fired[1..], script[1..], armed', t);
    }
  }

  /** Replaying one more firing at the end. */
  lemma {:induction false} ReplayAppend(armed: map<Timer, nat>, now: nat, fired: seq<Timer>, script: seq<seq<Op>>,
                                        mid: map<Timer, nat>, t: Timer, ops: seq<Op>)
    requires |script| == |fired| && Replay(armed, now, fired, script) == Armed(mid)
    requires t in mid && mid[t] == now
    ensures Replay(armed, now, fired + [t], script + [ops]) == Armed(ApplyAll(mid - {t}, now, ops))
    decreases |fired|
  {
    if fired != [] {
      var rest := ApplyAll(armed - {fired[0]}, now, script[0]);
      ReplayAppend(rest, now, fired[1..], script[1..], mid, t, ops);
      assert (fired + [t])[1..] == fired[1..] + [t] && (script + [ops])[1..] == script[1..] + [ops];
    } else {
      assert (fired + [t])[1..] == [] && (script + [ops])[1..] == [];
    }
  }

  // ---- runs ----

  /** Between ticks a timer may be set; a tick moves the clock on by one. */
  datatype Step = Outside(op: Op) | Ticked(fired: seq<Timer>, script: seq<seq<Op>>)

  predicate StepTouches(step: Step, t: Timer) {
    match step
    case Outside(op) => op.timer == t
    case Ticked(_, script) => ScriptTouches(script, t)
  }

  /** The step sets `t` from outside, or by a handler that runs before `t` fires. */
  predicate Disturbs(step: Step, t: Timer) {
    match step
    case Outside(op) => op.timer == t
    case Ticked(fired, script) => TouchedBefore(fired, script, t)
  }

  datatype State = State(now: nat, armed: map<Timer, nat>)

  predicate Next(s: State, step: Step, s': State) {
    match step
    case Outside(op) => s'.now == s.now && s'.armed == Apply(s.armed, s.now, op)
    case Ticked(fired, script) => s'.now == s.now + 1 && Tick(s.armed, s'.now, fired, script, s'.armed)
  }

  predicate Run(states: seq<State>, steps: seq<Step>) {
    && |states| == |steps| + 1
    && forall i :: 0 <= i < |steps| ==> Next(states[i], steps[i], states[i + 1])
  }

  /** How often a timer fires in the first `n` steps of a run. */
  function FiredIn(states: seq<State>, steps: seq<Step>, t: Timer, n: nat): (c: nat)
    requires n <= |steps|
  {
    if n == 0 then 0
    else FiredIn(states, steps, t, n - 1) + if steps[n - 1].Ticked? then Count(steps[n - 1].fired, t) else 0
  }

  /** Time only moves forward, and nothing armed is ever overdue. */
  lemma {:induction false} NothingOverdue(states: seq<State>, steps: seq<Step>, n: nat)
    requires Run(states, steps) && n <= |steps|
    requires forall t :: t in states[0].armed ==> states[0].now < states[0].armed[t]
    ensures states[0].now <= states[n].now
    ensures forall t :: t in states[n].armed ==> states[n].now < states[n].armed[t]
  {
    if n > 0 {
      NothingOverdue(states, steps, n - 1);
      assert Next(states[n - 1], steps[n - 1], states[n]);
    }
  }

  /** The law of the wheel, over any run: a timer due at tick `due` that is not disturbed
      before it fires stays armed for exactly that tick until the clock reaches it, has not
      fired before, and fires once in that tick. From then on anything may be done to it,
      by its own handler to begin with. */
  lemma {:induction false} FiresExactlyWhenDue(states: seq<State>, steps: seq<Step>, t: Timer, due: nat, n: nat)
    requires Run(states, steps) && n <= |steps|
    requires forall t' :: t' in states[0].armed ==> states[0].now < states[0].armed[t']
    requires t in states[0].armed && states[0].armed[t] == due
    requires forall i :: 0 <= i < n && states[i].now < due ==> !Disturbs(steps[i], t)
    ensures states[n].now < due ==>
              t in states[n].armed && states[n].armed[t] == due && FiredIn(states, steps, t, n) == 0
    ensures 0 < n && states[n - 1].now < due <= states[n].now ==>
              states[n].now == due && FiredIn(states, steps, t, n) == 1
    ensures states[n].now >= due ==> FiredIn(states, steps, t, n) >= 1
  {
    if n > 0 {
      FiresExactlyWhenDue(states, steps, t, due, n - 1);
      var s, step, s' := states[n - 1], steps[n - 1], states[n];
      assert Next(s, step, s');
      if s.now < due && step.Ticked? {
        OneTick(s, step, s', t);
      }
    }
  }

  /** One tick of an armed timer that is not disturbed: it fires if it is due, and stays as
      it is if not. */
  lemma OneTick(s: State, step: Step, s': State, t: Timer)
    requires Next(s, step, s') && step.Ticked? && t in s.armed && !Disturbs(step, t)
    ensures s.armed[t] == s'.now ==> Count(step.fired, t) == 1
    ensures s.armed[t] != s'.now ==> Count(step.fired, t) == 0 && t in s'.armed && s'.armed[t] == s.armed[t]
  {
    var fired, script := step.fired, step.script;
    if s.armed[t] == s'.now {
      DueFiresOnce(s.armed, s'.now, fired, script, s'.armed, t);
    } else {
      NotDueNotFired(s.armed, s'.now, fired, script, t);
      NeverFired(fired, t);
      forall i | 0 <= i < |script|
        ensures !Touches(script[i], t)
      {
        assert t !in fired[..i + 1];
      }
      UntouchedStays(s.armed, s'.now, fired, script, s'.armed, t);
    }
  }

  /** If nothing touches it then either, it fires only this once. */
  lemma {:induction false} LeftAloneStops(states: seq<State>, steps: seq<Step>, t: Timer, due: nat, n: nat)
    requires Run(states, steps) && n <= |steps|
    requires forall t' :: t' in states[0].armed ==> states[0].now < states[0].armed[t']
    requires t in states[0].armed && states[0].armed[t] == due
    requires forall i :: 0 <= i < n ==> !StepTouches(steps[i], t)
    ensures if states[n].now < due then t in states[n].armed && states[n].armed[t] == due
            else t !in states[n].armed && FiredIn(states, steps, t, n) == 1
  {
    if n > 0 {
      LeftAloneStops(states, steps, t, due, n - 1);
      forall i | 0 <= i < n
        ensures !Disturbs(steps[i], t)
      {
        assert !StepTouches(steps[i], t);
      }
      FiresExactlyWhenDue(states, steps, t, due, n);
      var s, step, s' := states[n - 1], steps[n - 1], states[n];
      assert Next(s, step, s') && !StepTouches(step, t);
      if step.Ticked? {
        if s.now < due <= s'.now {
          FiresExactlyWhenDue(states, steps, t, due, n - 1);
          FiredIsGone(s.armed, s'.now, step.fired, step.script, s'.armed, t);
        } else if due <= s.now {
          NotDueNotFired(s.armed, s'.now, step.fired, step.script, t);
          UntouchedStays(s.armed, s'.now, step.fired, step.script, s'.armed, t);
        }
      }
    }
  }

  /** A timer that fires and is not re-armed is no longer armed. */
  lemma {:induction false} FiredIsGone(armed: map<Timer, nat>, now: nat, fired: seq<Timer>,
                                       script: seq<seq<Op>>, armed': map<Timer, nat>, t: Timer)
    requires |script| == |fired| && Replay(armed, now, fired, script) == Armed(armed')
    requires !ScriptTouches(script, t) && Count(fired, t) == 1
    ensures t !in armed'
    decreases |fired|
  {
    var rest := ApplyAll(armed - {fired[0]}, now, script[0]);
    assert !Touches(script[0], t);
    ApplyAllKeeps(armed - {fired[0]}, now, script[0], t);
    forall i | 0 <= i < |script[1..]|
      ensures !Touches(script[1..][i], t)
    {
      assert script[1..][i] == script[i + 1];
    }
    if fired[0] == t {
      UntouchedStays(rest, now, fired[1..], script[1..], armed', t);
    } else {
      FiredIsGone(rest, now, fired[1..], script[1..], armed', t);
    }
  }

  /** So a timer set for 1 to 65536 ticks, and not disturbed, fires exactly that many
      ticks later; a longer duration fires at the clamped tick instead. */
  lemma SetFiresAfterItsDuration(states: seq<State>, steps: seq<Step>, before: map<Timer, nat>,
                                 t: Timer, duration: nat, n: nat)
    requires Run(states, steps) && n <= |steps| && duration > 0
    requires states[0].armed == Apply(before, states[0].now, Set(t, duration))
    requires forall t' :: t' in before ==> states[0].now < before[t']
    requires forall i :: 0 <= i < n && states[i].now - states[0].now < Wait(states[0].now, duration) ==>
                           !Disturbs(steps[i], t)
    ensures duration <= 65536 ==> Wait(states[0].now, duration) == duration
    ensures var w, passed := Wait(states[0].now, duration), states[n].now - states[0].now;
            && (passed < w ==> FiredIn(states, steps, t, n) == 0)
            && (0 < n && states[n - 1].now - states[0].now < w <= passed ==>
                  passed == w && FiredIn(states, steps, t, n) == 1)
            && (passed >= w ==> FiredIn(states, steps, t, n) >= 1)
  {
    FiresExactlyWhenDue(states, steps, t, states[0].now + Wait(states[0].now, duration), n);
  }

  // ---- timers that restart themselves ----

  /** The last thing `ops` does to `t` is to set it for `d` ticks. */
  predicate EndsWithSet(ops: seq<Op>, t: Timer, d: nat) {
    exists k :: 0 <= k < |ops| && ops[k] == Set(t, d) && forall l :: k < l < |ops| ==> ops[l].timer != t
  }

  /** When `t` fires, its own handler sets it again, and no later one touches it. */
  predicate RestartedBy(fired: seq<Timer>, script: seq<seq<Op>>, t: Timer, d: nat) {
    exists i :: && 0 <= i < |fired| && i < |script| && fired[i] == t && EndsWithSet(script[i], t, d)
                && forall j :: i < j < |script| ==> !Touches(script[j], t)
  }

  lemma {:induction false} ApplyAllSets(armed: map<Timer, nat>, now: nat, ops: seq<Op>, t: Timer, d: nat)
    requires EndsWithSet(ops, t, d) && d > 0
    ensures t in ApplyAll(armed, now, ops) && ApplyAll(armed, now, ops)[t] == now + Wait(now, d)
    decreases |ops|
  {
    var k :| 0 <= k < |ops| && ops[k] == Set(t, d) && forall l :: k < l < |ops| ==> ops[l].timer != t;
    var rest := Apply(armed, now, ops[0]);
    if k == 0 {
      forall i | 0 <= i < |ops[1..]|
        ensures ops[1..][i].timer != t
      {
        assert ops[1..][i] == ops[i + 1];
      }
      ApplyAllKeeps(rest, now, ops[1..], t);
    } else {
      assert ops[1..][k - 1] == Set(t, d);
      ApplyAllSets(rest, now, ops[1..], t, d);
    }
  }

  lemma {:induction false} Restarted(armed: map<Timer, nat>, now: nat, fired: seq<Timer>, script: seq<seq<Op>>,
                                     armed': map<Timer, nat>, t: Timer, d: nat)
    requires |script| == |fired| && Replay(armed, now, fired, script) == Armed(armed')
    requires RestartedBy(fired, script, t, d) && d > 0
    ensures t in armed' && armed'[t] == now + Wait(now, d)
    decreases |fired|
  {
    var i :| && 0 <= i < |fired| && fired[i] == t && EndsWithSet(script[i], t, d)
             && forall j :: i < j < |script| ==> !Touches(script[j], t);
    var rest := ApplyAll(armed - {fired[0]}, now, script[0]);
    if i == 0 {
      ApplyAllSets(armed - {t}, now, script[0], t, d);
      forall j | 0 <= j < |script[1..]|
        ensures !Touches(script[1..][j], t)
      {
        assert script[1..][j] == script[j + 1];
      }
      NotDueNotFired(rest, now, fired[1..], script[1..], t);
      UntouchedStays(rest, now, fired[1..], script[1..], armed', t);
    } else {
      assert fired[1..][i - 1] == t && script[1..][i - 1] == script[i];
      Restarted(rest, now, fired[1..], script[1..], armed', t, d);
    }
  }

  /** A periodic timer, one whose own handler sets it again for `d` ticks: over any run it
      fires in the ticks due, due + d, due + 2 * d and so on, once in each, and in no other. */
  lemma {:induction false} FiresPeriodically(states: seq<State>, steps: seq<Step>, t: Timer, due: nat, d: nat, n: nat)
    requires Run(states, steps) && n <= |steps| && 1 <= d <= 65536
    requires forall t' :: t' in states[0].armed ==> states[0].now < states[0].armed[t']
    requires t in states[0].armed && states[0].armed[t] == due
    requires forall i :: 0 <= i < n ==> !Disturbs(steps[i], t)
    requires forall i :: 0 <= i < n && steps[i].Ticked? && t in steps[i].fired ==>
                           RestartedBy(steps[i].fired, steps[i].script, t, d)
    ensures var count := FiredIn(states, steps, t, n);
            && t in states[n].armed && states[n].armed[t] == due + d * count && states[n].now < due + d * count
            && (count > 0 ==> due + d * (count - 1) <= states[n].now)
  {
    if n > 0 {
      FiresPeriodically(states, steps, t, due, d, n - 1);
      var s, step, s' := states[n - 1], steps[n - 1], states[n];
      assert Next(s, step, s');
      if step.Ticked? {
        OnePeriod(s, step, s', t, d);
        var count := FiredIn(states, steps, t, n - 1);
        assert d * (count + 1) == d * count + d;
      }
    }
  }

  lemma OnePeriod(s: State, step: Step, s': State, t: Timer, d: nat)
    requires Next(s, step, s') && step.Ticked? && t in s.armed && s.now < s.armed[t] && !Disturbs(step, t)
    requires 1 <= d <= 65536 && (t in step.fired ==> RestartedBy(step.fired, step.script, t, d))
    ensures t in s'.armed && s'.now < s'.armed[t]
    ensures var c := Count(step.fired, t);
            c == (if s.armed[t] == s'.now then 1 else 0) && s'.armed[t] == s.armed[t] + if c == 1 then d else 0
  {
    OneTick(s, step, s', t);
    NeverFired(step.fired, t);
    if s.armed[t] == s'.now {
      Restarted(s.armed, s'.now, step.fired, step.script, s'.armed, t, d);
    }
  }
}
