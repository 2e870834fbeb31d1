/** Round-trip time estimation and the retransmission timeout, in milliseconds. */
module Rto {
  import opened Words

  /** What arrives: a measured round-trip time, or an expired resend timer. */
  datatype Event = Sample(rtt: int) | Expired

  datatype Estimate = Estimate(srtt: int, rttvar: int, rto: int)

  function Abs(a: int): (m: nat) {
    if a < 0 then -a else a
  }

  /** The first measurement, from the handshake. */
  function First(elapsed: int, minRto: int): (e: Estimate) {
    var srtt := Max(1, elapsed);
    WithRto(srtt, srtt / 2, minRto)
  }

  function WithRto(srtt: int, rttvar: int, minRto: int): (e: Estimate) {
    Estimate(srtt, rttvar, Max(minRto, srtt + Max(1, 4 * rttvar)))
  }

  /** One m-th of the way towards `goal`; the shift of a negative difference rounds
      down, as division does here. */
  function Mean(x: int, goal: int, m: int): (r: int)
    requires m > 0
  {
    x - (x - goal) / m
  }

  function Next(e: Estimate, event: Event, minRto: int, maxRto: int): (e': Estimate) {
    match event
    case Sample(elapsed) =>
      var rtt := Max(1, elapsed);
      WithRto(Mean(e.srtt, rtt, 8), Mean(e.rttvar, Abs(rtt - e.srtt), 4), minRto)
    case Expired => e.(rto := if 2 * e.rto > maxRto then maxRto else 2 * e.rto)
  }

  ghost function After(e: Estimate, events: seq<Event>, minRto: int, maxRto: int): (e': Estimate)
    decreases |events|
  {
    if events == [] then e
    else Next(After(e, events[..|events| - 1], minRto, maxRto), events[|events| - 1], minRto, maxRto)
  }

  /** With measurements up to `top`, the estimate stays in range: the smoothed time is
      positive, so dividing by it is safe, and nothing becomes negative or overflows. */
  ghost predicate InRange(e: Estimate, top: int, minRto: int, maxRto: int) {
    1 <= e.srtt <= top && 0 <= e.rttvar <= top && minRto <= e.rto && e.rto <= Max(maxRto, Max(minRto, 5 * top + 1))
  }

  lemma {:induction false} AlwaysInRange(e: Estimate, events: seq<Event>, top: int, minRto: int, maxRto: int)
    requires InRange(e, top, minRto, maxRto) && 0 <= minRto <= maxRto
    requires forall i :: 0 <= i < |events| && events[i].Sample? ==> events[i].rtt <= top
    ensures InRange(After(e, events, minRto, maxRto), top, minRto, maxRto)
    decreases |events|
  {
    if events != [] {
      var before := events[..|events| - 1];
      AlwaysInRange(e, before, top, minRto, maxRto);
      NextInRange(After(e, before, minRto, maxRto), events[|events| - 1], top, minRto, maxRto);
    }
  }

  lemma NextInRange(e: Estimate, event: Event, top: int, minRto: int, maxRto: int)
    requires InRange(e, top, minRto, maxRto) && 0 <= minRto <= maxRto && (event.Sample? ==> event.rtt <= top)
    ensures InRange(Next(e, event, minRto, maxRto), top, minRto, maxRto)
  {
    match event
    case Sample(elapsed) =>
      var rtt := Max(1, elapsed);
      MeanInRange(e.srtt, rtt, 8, 1, top);
      MeanInRange(e.rttvar, Abs(rtt - e.srtt), 4, 0, top);
      RtoInRange(Mean(e.srtt, rtt, 8), Mean(e.rttvar, Abs(rtt - e.srtt), 4), top, minRto, maxRto);
    case Expired =>
  }

  lemma MeanInRange(x: int, goal: int, m: int, lo: int, hi: int)
    requires (m == 4 || m == 8) && lo <= x <= hi && lo <= goal <= hi
    ensures lo <= Mean(x, goal, m) <= hi
  {
    Between(x, goal, m);
  }

  lemma RtoInRange(srtt: int, rttvar: int, top: int, minRto: int, maxRto: int)
    requires 1 <= srtt <= top && 0 <= rttvar <= top
    ensures InRange(WithRto(srtt, rttvar, minRto), top, minRto, maxRto)
  {
  }

  lemma FirstInRange(elapsed: int, top: int, minRto: int, maxRto: int)
    requires 1 <= top && elapsed <= top && 0 <= minRto <= maxRto
    ensures InRange(First(elapsed, minRto), top, minRto, maxRto)
  {
  }

  /** So it is over every run, from the handshake on. */
  lemma EveryRunInRange(elapsed: int, events: seq<Event>, top: int, minRto: int, maxRto: int)
    requires 1 <= top && elapsed <= top && 0 <= minRto <= maxRto
    requires forall i :: 0 <= i < |events| && events[i].Sample? ==> events[i].rtt <= top
    ensures InRange(After(First(elapsed, minRto), events, minRto, maxRto), top, minRto, maxRto)
  {
    FirstInRange(elapsed, top, minRto, maxRto);
    AlwaysInRange(First(elapsed, minRto), events, top, minRto, maxRto);
  }

  /** Moving a fraction of the way towards a value does not overshoot it. */
  lemma Between(x: int, goal: int, m: int)
    requires m == 4 || m == 8
    ensures x <= goal ==> x <= Mean(x, goal, m) <= goal
    ensures x >= goal ==> goal <= Mean(x, goal, m) <= x
    ensures x < goal ==> x < Mean(x, goal, m)
    ensures Mean(x, goal, m) == x <==> goal <= x < goal + m
  {
    if m == 4 {
      assert (x - goal) / 4 * 4 <= x - goal < (x - goal) / 4 * 4 + 4;
    } else {
      assert (x - goal) / 8 * 8 <= x - goal < (x - goal) / 8 * 8 + 8;
    }
  }

  /** A constant round-trip time is approached: once the smoothed time is less than
      eight above it, it stays there, and every other time it moves closer. */
  lemma Settles(e: Estimate, rtt: int, minRto: int, maxRto: int)
    requires rtt >= 1 && e.srtt >= 1
    ensures var e' := Next(e, Sample(rtt), minRto, maxRto);
            && (e'.srtt == e.srtt <==> rtt <= e.srtt < rtt + 8)
            && (e'.srtt != e.srtt ==> Abs(e'.srtt - rtt) < Abs(e.srtt - rtt))
  {
    Between(e.srtt, rtt, 8);
  }

  /** So after enough equal measurements it is right, to within seven milliseconds. */
  lemma {:induction false} Converges(e: Estimate, rtt: int, count: nat, minRto: int, maxRto: int)
    requires rtt >= 1 && e.srtt >= 1 && count >= Abs(e.srtt - rtt)
    ensures rtt <= After(e, Repeated(rtt, count), minRto, maxRto).srtt < rtt + 8
  {
    Approaches(e, rtt, count, minRto, maxRto);
  }

  ghost function Repeated(rtt: int, count: nat): (events: seq<Event>) {
    seq(count, _ => Sample(rtt))
  }

  lemma {:induction false} Approaches(e: Estimate, rtt: int, count: nat, minRto: int, maxRto: int)
    requires rtt >= 1 && e.srtt >= 1
    ensures var s := After(e, Repeated(rtt, count), minRto, maxRto).srtt;
            s >= 1 && (rtt <= s < rtt + 8 || Abs(s - rtt) + count <= Abs(e.srtt - rtt))
  {
    if count > 0 {
      Approaches(e, rtt, count - 1, minRto, maxRto);
      assert Repeated(rtt, count)[..count - 1] == Repeated(rtt, count - 1);
      var before := After(e, Repeated(rtt, count - 1), minRto, maxRto);
      Settles(before, rtt, minRto, maxRto);
      Between(before.srtt, rtt, 8);
    }
  }

  /** `x -= (int)(x - goal) >> 2` or `>> 3` in 32 bits: the weighted mean, rounded up. */
  method Blend(x: uint32, goal: uint32, m: int) returns (r: uint32)
    requires (m == 4 || m == 8) && x <= MAX_RTT && goal <= MAX_RTT
    ensures r == Mean(x, goal, m) <= MAX_RTT && 0 <= m * r - ((m - 1) * x + goal) < m
  {
    SignedSmall(x - goal, x - goal);
    Between(x, goal, m);
    r := U32(x - S32(x - goal) / m);
  }

  /** `abs(rtt - (int)srtt)`, and the round-trip time itself, at least one. */
  method Deviation(elapsed: uint32, srtt: uint32) returns (rtt: uint32, err: uint32)
    requires elapsed <= MAX_RTT && srtt <= MAX_RTT
    ensures rtt == Max(1, elapsed) && err == Abs(rtt - srtt) <= MAX_RTT
  {
    rtt := Max(1, S32(elapsed));
    err := Abs(rtt - S32(srtt));
  }

  lemma Sampled(e: Estimate, elapsed: uint32, e': Estimate, top: int, minRto: int, maxRto: int)
    requires var rtt := Max(1, elapsed);
             e' == WithRto(Mean(e.srtt, rtt, 8), Mean(e.rttvar, Abs(rtt - e.srtt), 4), minRto)
    requires InRange(e, top, minRto, maxRto) && 0 <= minRto <= maxRto && elapsed <= top
    ensures e' == Next(e, Sample(elapsed), minRto, maxRto) && InRange(e', top, minRto, maxRto)
  {
    NextInRange(e, Sample(elapsed), top, minRto, maxRto);
  }

  /** Measurements up to this many milliseconds, three days, cannot make 32 bits overflow. */
  const MAX_RTT: int := 0x1000_0000

  /** The estimator with its 32-bit fields. */
  class Estimator {
    const minRto: uint32
    const maxRto: uint32
    var srtt: uint32
    var rttvar: uint32
    var rto: uint32
    ghost var top: int

    ghost function Value(): (e: Estimate)
      reads this
    {
      Estimate(srtt, rttvar, rto)
    }

    /** `top` is the largest measurement so far. */
    ghost predicate Valid()
      reads this
    {
      1 <= top <= MAX_RTT && minRto <= maxRto < TWO31 && InRange(Value(), top, minRto, maxRto)
    }

    /** Rule 2.2 of RFC 6298, from the time the handshake took. */
    constructor (minRto: uint32, maxRto: uint32, elapsed: uint32)
      requires minRto <= maxRto < TWO31 && elapsed <= MAX_RTT
      ensures Valid() && Value() == First(elapsed, minRto) && this.minRto == minRto && this.maxRto == maxRto
      ensures top == Max(1, elapsed) == srtt && 2 * rttvar <= srtt <= 2 * rttvar + 1
    {
      this.minRto, this.maxRto := minRto, maxRto;
      srtt, rttvar, rto := Max(1, elapsed), Max(1, elapsed) / 2, 0;
      top := Max(1, elapsed);
      new;
      UpdateRto();
      FirstInRange(elapsed, top, minRto, maxRto);
    }

    method UpdateRto()
      requires srtt <= MAX_RTT && rttvar <= MAX_RTT
      modifies this`rto
      ensures Value() == WithRto(srtt, rttvar, minRto)
    {
      rto := Max(minRto, U32(srtt + Max(1, U32(4 * rttvar))));
    }

    /** Rule 2.3 of RFC 6298 with its weights 1/8 and 1/4: the 32-bit arithmetic of the
        code gives the weighted means, rounded up, the variation with the old mean. */
    method OnSample(elapsed: uint32)
      requires Valid() && elapsed <= MAX_RTT
      modifies this
      ensures Valid() && top == Max(old(top), elapsed)
      ensures var rtt := Max(1, elapsed);
              && 0 <= 8 * srtt - (7 * old(srtt) + rtt) < 8
              && 0 <= 4 * rttvar - (3 * old(rttvar) + Abs(old(srtt) - rtt)) < 4
      ensures rto >= minRto && rto > srtt && rto >= srtt + 4 * rttvar
      ensures Value() == Next(old(Value()), Sample(elapsed), minRto, maxRto)
    {
      ghost var was := Value();
      var rtt, err := Deviation(elapsed, srtt);
      rttvar := Blend(rttvar, err, 4);
      srtt := Blend(srtt, rtt, 8);
      UpdateRto();
      top := Max(top, elapsed);
      Sampled(was, elapsed, Value(), top, minRto, maxRto);
    }

    /** Rule 5.5 of RFC 6298: backing off. */
    method OnExpired()
      requires Valid()
      modifies this`rto
      ensures Valid() && rto == Min(2 * old(rto), maxRto)
      ensures Value() == Next(old(Value()), Expired, minRto, maxRto)
    {
      rto := U32(2 * rto);
      if rto > maxRto {
        rto := maxRto;
      }
    }
  }
}
