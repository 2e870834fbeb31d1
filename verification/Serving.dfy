/** The server and one of its connections: what the connection makes of a packet decides
    what becomes of its entry, and its resend timer is a node of the server's wheel. */
module Serving {
  import opened Words
  import opened TimerSpec
  import opened SendWire
  import opened TcpSend
  import opened ServerSpec
  import opened TcpServer
  import opened TcpConn

  /** The connection shares nothing with the server's own bookkeeping. */
  ghost predicate Separate(sv: Server, c: Connection)
    reads sv, c, c.rcv
  {
    && {sv as object, sv.table as object, sv.wheel as object} !!
       {c as object, c.snd as object, c.rcv as object, c.rcv.buf as object}
    && {sv.table.keys as object, sv.table.ids as object, sv.table.conns as object, sv.table.twIds as object,
        sv.wheel.next as object, sv.wheel.prev as object, sv.wheel.expire as object,
        sv.conns as object, sv.tws as object} !!
       {c.snd.heads as object, c.snd.mem as object, c.rcv.buf.segs as object, c.rcv.buf.bytes as object}
  }

  /** The server is sound; for the verifier to take apart on demand. */
  ghost predicate Runs(sv: Server)
    reads sv, sv.table, sv.table.keys, sv.table.ids, sv.table.conns, sv.table.twIds,
          sv.wheel, sv.wheel.next, sv.wheel.prev, sv.wheel.expire, sv.conns, sv.tws
  {
    forall s: Server {:trigger s.Running()} | s in {sv} :: s.Running()
  }

  /** The server has an established connection `id`. */
  ghost predicate Serves(sv: Server, id: nat)
    reads sv.conns
  {
    id < |sv.nodes| && id < sv.conns.Length && sv.conns[id].open && sv.conns[id].established
  }

  /** It has `c` for it: the node of the resend timer is linked exactly while something is
      unacknowledged. */
  ghost predicate InStep(sv: Server, id: nat, c: Connection)
    reads sv, sv.conns, c.snd
  {
    Serves(sv, id) && id < |sv.st.nodes| && (ConnNode(sv.st, id, 0) in sv.st.armed <==> c.snd.una != c.snd.next)
  }

  /** The key has become that of TIME_WAIT record `tw`. */
  ghost predicate Parked(sv: Server, key: nat, tw: nat, ackNum: uint32)
    reads sv, sv.tws
  {
    tw < sv.tws.Length && Lookup(sv.st, key) == Waiting(tw) && sv.tws[tw].ackNum == ackNum
  }

  // ---- the resend timer ----

  /** The server after one call. */
  ghost function Called(s: Srv, id: nat, call: TimerCall): (s': Srv)
    requires id < |s.nodes|
  {
    var x := ConnNode(s, id, 0);
    match call
    case Unlink => s.(armed := s.armed - {x})
    case Link(d) => s.(armed := s.armed[x := s.time + Wait(s.time, d)])
  }

  /** The server after the calls from `from` on: only the last one of them matters. */
  ghost function Timed(s: Srv, id: nat, calls: seq<TimerCall>, from: nat): (s': Srv)
    requires id < |s.nodes| && from <= |calls|
    ensures s'.nodes == s.nodes && s'.time == s.time
  {
    if from == |calls| then s else Called(s, id, calls[|calls| - 1])
  }

  /** The server after the calls and then the verdict. */
  ghost predicate Settled(s: Srv, s': Srv, id: nat, calls: seq<TimerCall>, from: nat, verdict: Verdict, tw: nat) {
    && from <= |calls| && id < |s.open| == |s.connKeys| == |s.nodes| && |s.twKeys| == s.maxTw
    && Concluded(Timed(s, id, calls, from), s', id, verdict, tw)
  }

  /** One call more. */
  lemma TimedNext(s: Srv, id: nat, calls: seq<TimerCall>, from: nat, i: nat)
    requires id < |s.nodes| && from <= i < |calls| && Proper(calls)
    ensures Timed(s, id, calls[..i + 1], from) == Called(Timed(s, id, calls[..i], from), id, calls[i])
    ensures Linked(calls[..i + 1]) <==> calls[i].Link?
    ensures calls[i].Link? ==> !Linked(calls[..i])
  {
    var x := ConnNode(s, id, 0);
    assert calls[..i + 1][i] == calls[i];
    if from < i {
      assert calls[..i][i - 1] == calls[i - 1];
      if calls[i].Unlink? {
        assert Timed(s, id, calls[..i], from).armed - {x} == s.armed - {x};
      } else {
        var w := s.time + Wait(s.time, calls[i].duration);
        assert Timed(s, id, calls[..i], from).armed[x := w] == s.armed[x := w];
      }
    }
  }

  method RunCall(sv: Server, id: nat, call: TimerCall)
    requires Runs(sv) == true && Serves(sv, id) && id < |sv.st.nodes|
    requires call.Link? ==> ConnNode(sv.st, id, 0) !in sv.st.armed
    modifies sv`st,
             sv.wheel`home, sv.wheel`rank, sv.wheel`clock, sv.wheel`due, sv.wheel.next, sv.wheel.prev, sv.wheel.expire
    ensures Runs(sv) == true && sv.st == Called(old(sv.st), id, call)
  {
    assert sv.Running();
    match call {
      case Unlink => sv.UnlinkTimer(id, 0);
      case Link(d) => sv.LinkTimer(id, 0, d);
    }
  }

  /** What the connection does to the timer, done on the wheel. */
  method RunCalls(sv: Server, id: nat, calls: seq<TimerCall>, from: nat)
    requires Runs(sv) == true && Serves(sv, id) && id < |sv.st.nodes| && from <= |calls| && Proper(calls)
    requires ConnNode(sv.st, id, 0) in sv.st.armed <==> Linked(calls[..from])
    modifies sv`st,
             sv.wheel`home, sv.wheel`rank, sv.wheel`clock, sv.wheel`due, sv.wheel.next, sv.wheel.prev, sv.wheel.expire
    ensures Runs(sv) == true && sv.st == Timed(old(sv.st), id, calls, from)
    ensures ConnNode(sv.st, id, 0) in sv.st.armed <==> Linked(calls)
  {
    ghost var s := sv.st;
    var i := from;
    while i < |calls|
      invariant from <= i <= |calls| && Runs(sv) == true && sv.st == Timed(s, id, calls[..i], from)
      invariant ConnNode(sv.st, id, 0) in sv.st.armed <==> Linked(calls[..i])
    {
      TimedNext(s, id, calls, from, i);
      RunCall(sv, id, calls[i]);
      i := i + 1;
    }
    assert calls[..|calls|] == calls;
  }

  /** A connection between two operations. */
  ghost predicate Live(c: Connection)
    reads c, c.snd, c.snd.heads, c.snd.mem, c.rcv, c.rcv.buf, c.rcv.buf.segs, c.rcv.buf.bytes
  {
    c.Valid() == true && c.open
  }

  /** The calls of a connection: those before an operation, and those after it. */
  ghost predicate Calls(was: seq<TimerCall>, busy: bool, calls: seq<TimerCall>, busy': bool) {
    was <= calls && Proper(calls) && (Linked(was) <==> busy) && (Linked(calls) <==> busy')
  }

  /** The connection's verdict is carried out. */
  method Carry(sv: Server, id: nat, verdict: Verdict, ackNum: uint32) returns (ghost tw: nat)
    requires Runs(sv) == true && Serves(sv, id)
    modifies sv`st, sv.conns, sv.tws,
             sv.wheel`home, sv.wheel`rank, sv.wheel`clock, sv.wheel`due, sv.wheel.next, sv.wheel.prev, sv.wheel.expire,
             sv.table, sv.table.keys, sv.table.ids, sv.table.conns, sv.table.twIds
    ensures Runs(sv) == true && Settled(old(sv.st), sv.st, id, [], 0, verdict, tw) == true
    ensures sv.conns[id].open == verdict.Going? && (verdict.Going? ==> Serves(sv, id))
    ensures verdict.TimeWait? && old(sv.table.twCnt) != sv.table.maxTw ==>
              Parked(sv, old(sv.conns[id]).key, tw, ackNum) == true
  {
    assert sv.Running();
    tw := sv.Conclude(id, verdict, ackNum);
  }

  /** The wheel catches up with what the connection has done since `from`, and its verdict is
      carried out. */
  method Settle(sv: Server, id: nat, c: Connection, from: nat, verdict: Verdict, ackNum: uint32, ghost busy: bool)
    returns (ghost tw: nat)
    requires Runs(sv) == true && Serves(sv, id) && Separate(sv, c) && from <= |c.snd.calls|
    requires Calls(c.snd.calls[..from], busy, c.snd.calls, c.snd.una != c.snd.next) == true
    requires id < |sv.st.nodes| && (ConnNode(sv.st, id, 0) in sv.st.armed <==> busy)
    modifies sv`st, sv.conns, sv.tws,
             sv.wheel`home, sv.wheel`rank, sv.wheel`clock, sv.wheel`due, sv.wheel.next, sv.wheel.prev, sv.wheel.expire,
             sv.table, sv.table.keys, sv.table.ids, sv.table.conns, sv.table.twIds
    ensures Runs(sv) == true && Settled(old(sv.st), sv.st, id, c.snd.calls, from, verdict, tw) == true
    ensures id < sv.conns.Length && sv.conns[id].open == verdict.Going?
    ensures verdict.Going? ==> InStep(sv, id, c) == true
    ensures verdict.TimeWait? && old(sv.table.twCnt) != sv.table.maxTw ==>
              Parked(sv, old(sv.conns[id]).key, tw, ackNum) == true
  {
    RunCalls(sv, id, c.snd.calls, from);
    tw := Carry(sv, id, verdict, ackNum);
  }

  // ---- packets ----

  /** What the connection has decided: it goes on exactly as long as it is open; and it enters
      TIME_WAIT exactly when it is over, expecting what comes after the peer's FIN. */
  ghost predicate Judged(c: Connection, was: Moment, ctl: Control, a: int, how: Handling, verdict: Verdict,
                         ackNum: uint32)
    reads c, c.snd, c.rcv, c.rcv.buf, c.rcv.buf.segs
  {
    && c.rcv.buf.segs.Length > 0
    && c.open == verdict.Going? && (verdict.TimeWait? ==> how.Handled? && !how.out.Overrun?)
    && (how.Handled? && !how.out.Overrun? ==>
          Ends(verdict, true, was, ctl, a, c.snd.st, c.rcv.finReceived, c.rcv.buf.Received(), |c.rcv.buf.stream|))
    && (verdict.TimeWait? ==> ackNum == U32(c.rcv.buf.isn + c.rcv.buf.Received()))
  }

  /** The same, for the verifier to take apart on demand. */
  ghost predicate Decided(c: Connection, was: Moment, ctl: Control, a: int, how: Handling, verdict: Verdict,
                          ackNum: uint32)
    reads c, c.snd, c.rcv, c.rcv.buf, c.rcv.buf.segs
  {
    forall x: Connection {:trigger Judged(x, was, ctl, a, how, verdict, ackNum)} | x in {c} ::
      Judged(x, was, ctl, a, how, verdict, ackNum)
  }

  /** The packet is one the connection can place. */
  ghost predicate Ready(c: Connection, p: Pack, handler: seq<byte> -> nat, ctl: Control, pos: nat, a: int)
    reads c.snd, c.rcv, c.rcv.buf, c.rcv.buf.segs
  {
    && c.Reachable(p, pos) && (forall d: seq<byte> :: handler(d) <= |d|)
    && c.rcv.buf.segs.Length > 0 && (c.Acknowledges(p, pos) ==> c.snd.AckInRange(p.ackNum, a))
    && p.window <= 0x4000_0000 && ctl.cwnd < 0x7fff_ffff && ctl.later < 0x7fff_ffff
  }

  /** The connection's part. */
  method Judge(c: Connection, p: Pack, handler: seq<byte> -> nat, ctl: Control, prompt: bool,
               avail: nat -> bool, tsVal: uint32, tsEcr: uint32, ghost pos: nat, ghost a: int)
    returns (how: Handling, verdict: Verdict, ackNum: uint32)
    requires Live(c) == true && Ready(c, p, handler, ctl, pos, a) == true
    modifies c`open, c`pendingAck, c`acks, c.snd, c.snd.heads, c.rcv`finReceived, c.rcv.buf`cnt, c.rcv.buf`taken,
             c.rcv.buf`seqNum, c.rcv.buf`base, c.rcv.buf.segs, c.rcv.buf.bytes
    ensures Decided(c, old(c.snd.Now()), ctl, a, how, verdict, ackNum) == true
    ensures Calls(old(c.snd.calls), old(c.snd.una != c.snd.next), c.snd.calls, c.snd.una != c.snd.next) == true
    ensures verdict.Going? ==> Live(c) == true
  {
    assert c.snd.Valid();
    ghost var limit;
    how, verdict, limit := c.OnPack(p, handler, ctl, prompt, avail, tsVal, tsEcr, pos, a);
    assert c.snd.Valid();
    ackNum := 0;
    if verdict.TimeWait? {
      var stamp := c.Stamp(tsVal, tsEcr);
      ackNum := stamp.ackNum;
    }
  }
  /** A packet is delivered to the established connection `id` of the server. */
  method Deliver(sv: Server, id: nat, c: Connection, p: Pack, handler: seq<byte> -> nat, ctl: Control, prompt: bool,
                 avail: nat -> bool, tsVal: uint32, tsEcr: uint32, ghost pos: nat, ghost a: int)
    returns (how: Handling, verdict: Verdict, ackNum: uint32, ghost tw: nat)
    requires Runs(sv) == true && InStep(sv, id, c) && Separate(sv, c)
    requires Live(c) == true && Ready(c, p, handler, ctl, pos, a) == true
    modifies sv`st, sv.conns, sv.tws,
             sv.wheel`home, sv.wheel`rank, sv.wheel`clock, sv.wheel`due, sv.wheel.next, sv.wheel.prev, sv.wheel.expire,
             sv.table, sv.table.keys, sv.table.ids, sv.table.conns, sv.table.twIds,
             c`open, c`pendingAck, c`acks, c.snd, c.snd.heads, c.rcv`finReceived, c.rcv.buf`cnt, c.rcv.buf`taken,
             c.rcv.buf`seqNum, c.rcv.buf`base, c.rcv.buf.segs, c.rcv.buf.bytes
    // first the calls to the timer are carried out, then the verdict
    ensures Runs(sv) == true && old(c.snd.calls) <= c.snd.calls
    ensures Settled(old(sv.st), sv.st, id, c.snd.calls, |old(c.snd.calls)|, verdict, tw) == true
    // the entry is there exactly as long as the connection is open
    ensures Decided(c, old(c.snd.Now()), ctl, a, how, verdict, ackNum) == true
    ensures id < sv.conns.Length && sv.conns[id].open == verdict.Going?
    // and so long, its resend timer runs exactly while something is unacknowledged
    ensures verdict.Going? ==> InStep(sv, id, c) == true && Live(c) == true
    // and becomes that of a TIME_WAIT record, if there is one left, when the connection is over
    ensures verdict.TimeWait? && old(sv.table.twCnt) != sv.table.maxTw ==>
              Parked(sv, old(sv.conns[id]).key, tw, ackNum) == true
  {
    var from := |c.snd.calls|;
    ghost var busy := c.snd.una != c.snd.next;
    how, verdict, ackNum := Judge(c, p, handler, ctl, prompt, avail, tsVal, tsEcr, pos, a);
    assert c.snd.calls[..from] == old(c.snd.calls);
    tw := Settle(sv, id, c, from, verdict, ackNum, busy);
  }
  // ---- what the application sends, and the expiry of the timer ----

  method Push(c: Connection, d: seq<byte>, more: bool, tsVal: uint32, tsEcr: uint32) returns (done: nat)
    requires Live(c) == true
    modifies c`acks, c`pendingAck, c.snd`next, c.snd`data, c.snd`dataSize, c.snd`dataSum, c.snd`st, c.snd`calls,
             c.snd`wire, c.snd`packets, c.snd.heads, c.snd.mem
    ensures Live(c) == true && done == Min(|d|, old(c.snd.Sendable()))
    ensures c.snd.st.stream == old(c.snd.st.stream) + d[..done]
    ensures Calls(old(c.snd.calls), old(c.snd.una != c.snd.next), c.snd.calls, c.snd.una != c.snd.next) == true
  {
    assert c.snd.Valid();
    done := c.Send(d, more, tsVal, tsEcr);
    assert c.snd.Valid();
  }

  /** The application sends on connection `id`. */
  method Send(sv: Server, id: nat, c: Connection, d: seq<byte>, more: bool, tsVal: uint32, tsEcr: uint32)
    returns (done: nat)
    requires Runs(sv) == true && InStep(sv, id, c) && Separate(sv, c) && Live(c) == true
    modifies sv`st,
             sv.wheel`home, sv.wheel`rank, sv.wheel`clock, sv.wheel`due, sv.wheel.next, sv.wheel.prev, sv.wheel.expire,
             c`acks, c`pendingAck, c.snd`next, c.snd`data, c.snd`dataSize, c.snd`dataSum, c.snd`st, c.snd`calls,
             c.snd`wire, c.snd`packets, c.snd.heads, c.snd.mem
    ensures Runs(sv) == true && InStep(sv, id, c) == true && Live(c) == true
    ensures old(c.snd.calls) <= c.snd.calls && sv.st == Timed(old(sv.st), id, c.snd.calls, |old(c.snd.calls)|)
    ensures done == Min(|d|, old(c.snd.Sendable())) && c.snd.st.stream == old(c.snd.st.stream) + d[..done]
  {
    var from := |c.snd.calls|;
    done := Push(c, d, more, tsVal, tsEcr);
    assert c.snd.calls[..from] == old(c.snd.calls);
    RunCalls(sv, id, c.snd.calls, from);
  }

  method PushFin(c: Connection, tsVal: uint32, tsEcr: uint32) returns (verdict: Verdict)
    requires Live(c) == true
    modifies c`open, c`acks, c`pendingAck, c.snd`next, c.snd`data, c.snd`dataSize, c.snd`dataSum, c.snd`finSent,
             c.snd`st, c.snd`calls, c.snd`wire, c.snd`packets, c.snd.heads
    ensures c.open == verdict.Going? && !verdict.TimeWait? && (verdict.Going? ==> Live(c) == true && c.snd.finSent)
    ensures Calls(old(c.snd.calls), old(c.snd.una != c.snd.next), c.snd.calls, c.snd.una != c.snd.next) == true
  {
    assert c.snd.Valid();
    verdict := c.SendFin(tsVal, tsEcr);
    assert c.snd.Valid();
  }

  /** The application sends its FIN. */
  method SendFin(sv: Server, id: nat, c: Connection, tsVal: uint32, tsEcr: uint32) returns (verdict: Verdict)
    requires Runs(sv) == true && InStep(sv, id, c) && Separate(sv, c) && Live(c) == true
    modifies sv`st, sv.conns, sv.tws,
             sv.wheel`home, sv.wheel`rank, sv.wheel`clock, sv.wheel`due, sv.wheel.next, sv.wheel.prev, sv.wheel.expire,
             sv.table, sv.table.keys, sv.table.ids, sv.table.conns, sv.table.twIds,
             c`open, c`acks, c`pendingAck, c.snd`next, c.snd`data, c.snd`dataSize, c.snd`dataSum, c.snd`finSent,
             c.snd`st, c.snd`calls, c.snd`wire, c.snd`packets, c.snd.heads
    ensures Runs(sv) == true && !verdict.TimeWait? && old(c.snd.calls) <= c.snd.calls
    ensures Settled(old(sv.st), sv.st, id, c.snd.calls, |old(c.snd.calls)|, verdict, 0) == true
    ensures id < sv.conns.Length && sv.conns[id].open == c.open == verdict.Going?
    ensures verdict.Going? ==> InStep(sv, id, c) == true && Live(c) == true && c.snd.finSent
  {
    var from := |c.snd.calls|;
    ghost var busy := c.snd.una != c.snd.next;
    verdict := PushFin(c, tsVal, tsEcr);
    assert c.snd.calls[..from] == old(c.snd.calls);
    ghost var tw := Settle(sv, id, c, from, verdict, 0, busy);
  }

  method Retry(c: Connection, limit: nat, maxRto: uint32, congestion: bool, cwnd: uint32, tsVal: uint32, tsEcr: uint32)
    returns (verdict: Verdict)
    requires Live(c) == true && c.snd.una != c.snd.next && cwnd < 0x7fff_ffff
    modifies c`open, c`acks, c`pendingAck, c.snd, c.snd.heads
    ensures verdict == if old(c.snd.retries) >= Min(31, limit) then Closing else Going
    ensures c.open == verdict.Going?
    ensures verdict.Going? ==>
              && Live(c) == true && c.snd.una != c.snd.next && c.snd.rto == Min(U32(2 * old(c.snd.rto)), maxRto)
              && SentAgain(old(c.snd.wire), c.snd.wire, old(c.snd.st), c.snd.una) == true
              && c.snd.calls == old(c.snd.calls) + [Unlink, Link(c.snd.rto)] && Proper(c.snd.calls) == true
  {
    assert c.snd.Valid();
    verdict := c.OnResendTimer(limit, maxRto, congestion, cwnd, tsVal, tsEcr);
    if verdict.Going? {
      assert c.snd.Valid();
    }
  }

  /** The resend timer has fired: the oldest piece is sent again and the timer is set to the
      doubled timeout, or the connection is closed and its entry is gone. */
  method Expire(sv: Server, id: nat, c: Connection, limit: nat, maxRto: uint32, congestion: bool, cwnd: uint32,
                tsVal: uint32, tsEcr: uint32) returns (verdict: Verdict)
    requires Runs(sv) == true && Serves(sv, id) && Separate(sv, c) && Live(c) == true && cwnd < 0x7fff_ffff
    requires id < |sv.st.nodes| && ConnNode(sv.st, id, 0) !in sv.st.armed && c.snd.una != c.snd.next
    modifies sv`st, sv.conns, sv.tws,
             sv.wheel`home, sv.wheel`rank, sv.wheel`clock, sv.wheel`due, sv.wheel.next, sv.wheel.prev, sv.wheel.expire,
             sv.table, sv.table.keys, sv.table.ids, sv.table.conns, sv.table.twIds,
             c`open, c`acks, c`pendingAck, c.snd, c.snd.heads
    ensures Runs(sv) == true && verdict == if old(c.snd.retries) >= Min(31, limit) then Closing else Going
    ensures id < sv.conns.Length && sv.conns[id].open == c.open == verdict.Going?
    ensures verdict.Closing? ==> id < |old(sv.st).open| == |old(sv.st).connKeys| == |old(sv.st).nodes|
                                 && sv.st == Closed(old(sv.st), id)
    ensures verdict.Going? ==>
              && InStep(sv, id, c) == true && Live(c) == true
              && SentAgain(old(c.snd.wire), c.snd.wire, old(c.snd.st), c.snd.una) == true
              && c.snd.rto == Min(U32(2 * old(c.snd.rto)), maxRto) && sv.st == Called(old(sv.st), id, Link(c.snd.rto))
  {
    verdict := Retry(c, limit, maxRto, congestion, cwnd, tsVal, tsEcr);
    if verdict.Going? {
      RunCall(sv, id, Link(c.snd.rto));
    } else {
      ghost var tw := Carry(sv, id, Closing, 0);
    }
  }
}
