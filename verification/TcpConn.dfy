/** A connection: the send path and the receive path behind one handler of packets, and
    how it ends. */
module TcpConn {
  import opened Words
  import opened SegmentChecksum
  import opened Segments
  import opened Reassembly
  import opened RecvWindow
  import opened RecvSpec
  import opened TcpReceive
  import opened SendSpec
  import opened SendWire
  import opened SendRuns
  import opened TcpSend
  import S = ServerSpec

  /** A packet for an established connection. `seqNum` is that of its text; `stale` says
      that its timestamp is older than the last one. */
  datatype Pack = Pack(seqNum: uint32, ackNum: uint32, window: nat, ack: bool, rst: bool, fin: bool, stale: bool,
                       payload: seq<byte>)

  /** What congestion control and the round-trip estimate say: whether to resend, the window
      before and after sending, and the new timeout. */
  datatype Control = Control(resend: bool, congestion: bool, cwnd: uint32, later: uint32, rto: uint32)

  /** How far a packet got. */
  datatype Handling = Refused | WasReset | NoAck | Handled(out: Outcome)

  /** All accepted bytes and the FIN are acknowledged. */
  ghost predicate AllAcked(st: State) {
    st.finSent && st.una < |st.cuts| && st.cuts[st.una] == |st.stream| + 2
  }

  /** It means that nothing is left in the ring. */
  lemma AllAckedIff(m: Moment)
    requires SenderOk(m) && m.st.finSent
    ensures AllAcked(m.st) <==> m.st.una == m.st.data && m.st.dataSize == 0
  {
    assert Right(m);
    CutsMonotone(m.st, m.st.una, m.st.data);
  }

  /** Whether a packet that acknowledges everything before `a` leaves no complete piece in the
      ring, as far as the state before it tells: all pieces have been sent and are acknowledged
      now, and a last one that is still waiting does not fit the windows. */
  ghost predicate Ending(st: State, wnd: int, c: Control, a: int) {
    && st.finSent && st.next == st.data < |st.cuts| && (st.una == st.data || st.cuts[st.data] <= a)
    && (st.dataSize == 0 || st.cuts[st.data] + st.dataSize > SendEdge(st, st.data, wnd, c.congestion, c.cwnd))
  }

  /** It does: `m'` is the sender after the acknowledgement. What waits then has waited before. */
  lemma EndsWhen(m: Moment, m': Moment, c: Control, a: int, edge: int)
    requires SenderOk(m) == true && SenderOk(m') == true && Later(m, m') == true && m.st.finSent
    requires AckTaken(m.st, m.st.(una := m'.st.una), a) == true && m'.st.una < |m.st.cuts|
    requires edge == SendEdge(m.st, m'.st.una, m'.wnd, c.congestion, c.cwnd) && Idle(m'.st, edge)
    requires m'.st.next == m.st.next || Within(m'.st, edge)
    ensures m'.st.una == m'.st.data <==> Ending(m.st, m.wnd, c, a)
    ensures m'.st.una == m'.st.data ==> m'.st.dataSize == m.st.dataSize
  {
    assert Right(m) && Right(m');
    var st, st' := m.st, m'.st;
    if st'.una == st'.data && st.una < st'.una {
      assert Covered(st.cuts, st'.una - 1, a);
    }
    if Ending(st, m.wnd, c, a) {
      if st'.una < st.next {
        CutsMonotone(st, st'.una + 1, st.next);
        assert Covered(st.cuts, st'.una, a);
      }
    }
  }

  /** When a packet ends the connection: our FIN is queued, the peer's has arrived, and no
      complete piece is left in the ring, which the state before the packet tells. The peer's
      stream is then complete and all that was sent is acknowledged. All that was accepted,
      and the FIN, is acknowledged if and only if no last piece was waiting before the packet:
      otherwise TIME_WAIT is entered too soon. */
  ghost predicate Ends(verdict: S.Verdict, wasOpen: bool, was: Moment, c: Control, a: int, st: State,
                       finReceived: bool, got: nat, total: nat) {
    && !verdict.Closing?
    && (verdict.TimeWait? <==> wasOpen && finReceived && Ending(was.st, was.wnd, c, a))
    && (verdict.TimeWait? ==> got == total + 1 && st.una == st.next && (AllAcked(st) <==> was.st.dataSize == 0))
    && (wasOpen && finReceived && AllAcked(st) ==> verdict.TimeWait?)
  }

  /** What an acknowledgement leaves in the ring, once our FIN is queued. */
  ghost predicate Leaves(was: Moment, c: Control, a: int, finSent: bool, una: nat, data: nat, dataSize: nat) {
    && finSent == was.st.finSent
    && (finSent ==> (una == data <==> Ending(was.st, was.wnd, c, a)) && (una == data ==> dataSize == was.st.dataSize))
  }

  // ---- what packets say about the receive path ----

  /** Packet `i` acknowledges the first `acks[i]` positions of the peer's stream, which were in
      order, with a window that ends before the edge; it is open unless the FIN had arrived. */
  ghost predicate AckOk(wire: seq<Packet>, acks: seq<nat>, isn: int, got: nat, edge: nat, total: nat, i: nat)
    requires i < |wire| == |acks|
  {
    var stamp := wire[i].stamp;
    && stamp.ackNum == U32(isn + acks[i]) && acks[i] <= got && acks[i] + stamp.window <= edge
    && (acks[i] <= total ==> stamp.window > 0)
  }

  /** Neither the number nor the right edge of the window moves left. */
  ghost predicate InTurn(wire: seq<Packet>, acks: seq<nat>, i: nat, j: nat)
    requires i < |wire| == |acks| && j < |wire|
  {
    acks[i] <= acks[j] && acks[i] + wire[i].stamp.window <= acks[j] + wire[j].stamp.window
  }

  /** All packets but the SYN are such. */
  ghost predicate AcksTrue(wire: seq<Packet>, acks: seq<nat>, isn: int, got: nat, edge: nat, total: nat) {
    && |wire| == |acks| > 0
    && (forall i: nat :: 0 < i < |wire| ==> AckOk(wire, acks, isn, got, edge, total, i))
    && (forall i: nat, j: nat :: 0 < i < j < |wire| ==> InTurn(wire, acks, i, j))
  }

  /** The same, for the verifier to take apart on demand. */
  ghost predicate Truthful(wire: seq<Packet>, acks: seq<nat>, isn: int, got: nat, edge: nat, total: nat) {
    forall w: seq<Packet> {:trigger AcksTrue(w, acks, isn, got, edge, total)} ::
      w == wire ==> AcksTrue(w, acks, isn, got, edge, total)
  }

  ghost function Extended(acks: seq<nat>, n: nat, got: nat): (acks': seq<nat>) {
    if n <= |acks| then acks else acks + seq(n - |acks|, _ => got)
  }

  /** Packets are added that say what holds now. */
  lemma AcksAdded(wire: seq<Packet>, wire': seq<Packet>, acks: seq<nat>, isn: int, got: nat, edge: nat, total: nat,
                  stamp: Refresh)
    requires Truthful(wire, acks, isn, got, edge, total) && Stamped(wire, wire', stamp)
    requires stamp.ackNum == U32(isn + got) && got + stamp.window == edge && (got <= total ==> stamp.window > 0)
    ensures Truthful(wire', Extended(acks, |wire'|, got), isn, got, edge, total)
  {
    var acks' := Extended(acks, |wire'|, got);
    assert AcksTrue(wire, acks, isn, got, edge, total);
    forall i: nat | 0 < i < |wire'|
      ensures AckOk(wire', acks', isn, got, edge, total, i)
    {
      if i < |wire| { assert AckOk(wire, acks, isn, got, edge, total, i) && wire'[i] == wire[i]; }
    }
    forall i: nat, j: nat | 0 < i < j < |wire'|
      ensures InTurn(wire', acks', i, j)
    {
      if i < |wire| { assert AckOk(wire, acks, isn, got, edge, total, i) && wire'[i] == wire[i]; }
      if j < |wire| { assert InTurn(wire, acks, i, j) && wire'[j] == wire[j]; }
    }
    assert AcksTrue(wire', acks', isn, got, edge, total);
  }

  /** What was true stays true when more arrives. */
  lemma AcksStay(wire: seq<Packet>, acks: seq<nat>, isn: int, got: nat, edge: nat, got': nat, edge': nat, total: nat)
    requires Truthful(wire, acks, isn, got, edge, total) == true && got <= got' && edge <= edge'
    ensures Truthful(wire, acks, isn, got', edge', total)
  {
    assert AcksTrue(wire, acks, isn, got, edge, total);
    forall i: nat | 0 < i < |wire|
      ensures AckOk(wire, acks, isn, got', edge', total, i)
    {
      assert AckOk(wire, acks, isn, got, edge, total, i);
    }
    forall i: nat, j: nat | 0 < i < j < |wire|
      ensures InTurn(wire, acks, i, j)
    {
    }
    assert AcksTrue(wire, acks, isn, got', edge', total);
  }

  /** A packet says that `got` positions are in order and the window ends at `edge`. */
  ghost predicate Says(p: Packet, r: nat, got: nat, edge: nat) {
    r == got && got + p.stamp.window == edge
  }

  /** Every packet after those that `had` is about says one of two things. */
  ghost predicate Said(wire: seq<Packet>, had: seq<nat>, acks: seq<nat>, got: nat, edge: nat, got': nat, edge': nat) {
    && had <= acks && |wire| == |acks|
    && forall i :: |had| <= i < |wire| ==> Says(wire[i], acks[i], got, edge) || Says(wire[i], acks[i], got', edge')
  }

  lemma SaidAdded(wire: seq<Packet>, wire': seq<Packet>, acks: seq<nat>, got: nat, edge: nat, stamp: Refresh)
    requires |wire| == |acks| && Stamped(wire, wire', stamp) && got + stamp.window == edge
    ensures Said(wire', acks, Extended(acks, |wire'|, got), got, edge, got, edge)
  {
  }

  /** First packets that say the one thing, then packets that say the other. */
  lemma SaidTwice(m: Moment, m': Moment, m'': Moment, had: seq<nat>, acks: seq<nat>, acks': seq<nat>, got: nat,
                  edge: nat, got': nat, edge': nat)
    requires Later(m, m') == true && Later(m', m'') == true
    requires Said(m'.wire, had, acks, got, edge, got, edge) == true
    requires Said(m''.wire, acks, acks', got', edge', got', edge') == true
    ensures Later(m, m'') == true && Said(m''.wire, had, acks', got, edge, got', edge') == true
  {
    LaterAgain(m, m', m'');
    forall i | |had| <= i < |m''.wire|
      ensures Says(m''.wire[i], acks'[i], got, edge) || Says(m''.wire[i], acks'[i], got', edge')
    {
      if i < |m'.wire| { assert m''.wire[i] == m'.wire[i] && acks'[i] == acks[i]; }
    }
  }

  class Connection {
    const snd: Sender
    const rcv: Receiver
    var open: bool
    var pendingAck: bool
    // how many positions each packet sent acknowledges
    ghost var acks: seq<nat>

    ghost predicate Apart() {
      && snd.n > 0 && (snd as object) != (rcv as object) && (snd as object) != (rcv.buf as object)
      && {snd.heads as object, snd.mem as object} !! {rcv.buf.segs as object, rcv.buf.bytes as object}
    }

    /** The send path is sound; for the verifier to take apart on demand. */
    ghost predicate SndOk()
      reads snd, snd.heads, snd.mem
    {
      forall s: Sender {:trigger s.Valid()} | s in {snd} :: s.Valid()
    }

    ghost predicate RcvOk()
      reads rcv, rcv.buf, rcv.buf.segs, rcv.buf.bytes
    {
      rcv.buf.Shape() && forall r: Receiver {:trigger r.Valid()} | r in {rcv} :: r.Valid()
    }

    /** All packets sent say about the receive path what was true. */
    ghost predicate Honest()
      requires rcv.buf.segs.Length > 0
      reads this`acks, snd, rcv, rcv.buf, rcv.buf.segs
    {
      |snd.wire| == |acks| > 0
      && Truthful(snd.wire, acks, rcv.buf.isn, rcv.buf.Received(), rcv.RightEdge(), |rcv.buf.stream|)
    }

    /** The last packet sent acknowledges exactly what is in order. */
    ghost predicate Acked()
      requires rcv.buf.segs.Length > 0
      reads this`acks, snd, rcv, rcv.buf, rcv.buf.segs
    {
      |snd.wire| == |acks| > 0 && acks[|acks| - 1] == rcv.buf.Received()
    }

    /** Unless an acknowledgement is pending, everything in order is acknowledged. */
    ghost predicate Owing()
      requires rcv.buf.segs.Length > 0
      reads this`acks, this`pendingAck, snd, rcv, rcv.buf, rcv.buf.segs
    {
      pendingAck || Acked()
    }

    ghost predicate Valid()
      reads this`acks, this`pendingAck, snd, snd.heads, snd.mem, rcv, rcv.buf, rcv.buf.segs, rcv.buf.bytes
    {
      Apart() && SndOk() == true && RcvOk() == true && Honest() == true && Owing() == true
    }

    /** The same of a connection that may have been overrun. */
    ghost predicate Kept(overrun: bool)
      reads this`acks, this`pendingAck, snd, snd.heads, snd.mem, rcv, rcv.buf, rcv.buf.segs, rcv.buf.bytes
    {
      && Apart() && SndOk() == true && rcv.buf.Shape() == true && Honest() == true && Owing() == true
      && (if overrun then rcv.Stuck() else RcvOk()) == true
    }

    /** Right after the handshake, when nothing but the SYN has been sent. */
    constructor (snd: Sender, rcv: Receiver)
      requires snd.Valid() && rcv.Valid() && rcv.buf.Shape() && |snd.wire| == 1 && rcv.buf.Received() == 0
      requires {snd.heads as object, snd.mem as object} !! {rcv.buf.segs as object, rcv.buf.bytes as object}
      ensures Valid() && open && this.snd == snd && this.rcv == rcv
    {
      this.snd, this.rcv, open, pendingAck := snd, rcv, true, false;
      acks := [0];
    }

    /** What a packet says about the receive path: it acknowledges what is in order, and the
        window is what is left of the buffer. */
    method Stamp(tsVal: uint32, tsEcr: uint32) returns (stamp: Refresh)
      requires RcvOk()
      ensures stamp.ackNum == U32(rcv.buf.isn + rcv.buf.Received())
      ensures rcv.buf.Received() + stamp.window == rcv.RightEdge()
      ensures rcv.buf.Received() <= |rcv.buf.stream| ==> stamp.window > 0
    {
      assert rcv.Valid();
      stamp := Refresh(rcv.AckNumber(), rcv.AdvertisedWindow(), tsVal, tsEcr);
    }

    /** Packets with the stamp have been added to those of `wire`, of which there were `before`:
        nothing is pending any more. */
    method Note(before: nat, ghost wire: seq<Packet>, ghost stamp: Refresh)
      requires rcv.buf.segs.Length > 0 && Stamped(wire, snd.wire, stamp) == true
      requires Truthful(wire, acks, rcv.buf.isn, rcv.buf.Received(), rcv.RightEdge(), |rcv.buf.stream|) == true
      requires stamp.ackNum == U32(rcv.buf.isn + rcv.buf.Received())
      requires rcv.buf.Received() + stamp.window == rcv.RightEdge()
      requires rcv.buf.Received() <= |rcv.buf.stream| ==> stamp.window > 0
      requires before == |wire| == |acks| > 0 && snd.packets == |snd.wire|
      requires pendingAck || acks[|acks| - 1] == rcv.buf.Received()
      modifies this`acks, this`pendingAck
      ensures Honest() == true && SaidNow(old(acks)) == true && Owing() == true
      ensures pendingAck == (old(pendingAck) && |snd.wire| == |wire|)
    {
      ghost var got, edge := rcv.buf.Received(), rcv.RightEdge();
      AcksAdded(wire, snd.wire, acks, rcv.buf.isn, got, edge, |rcv.buf.stream|, stamp);
      SaidAdded(wire, snd.wire, acks, got, edge, stamp);
      acks := Extended(acks, |snd.wire|, got);
      if snd.packets != before {
        pendingAck := false;
      }
    }

    /** The packets after those that `had` is about say what holds now. */
    ghost predicate SaidNow(had: seq<nat>)
      requires rcv.buf.segs.Length > 0
      reads this`acks, snd, rcv, rcv.buf, rcv.buf.segs
    {
      Said(snd.wire, had, acks, rcv.buf.Received(), rcv.RightEdge(), rcv.buf.Received(), rcv.RightEdge())
    }

    /** The card is done with one of the buffers that are free. */
    ghost predicate HasBuffer(avail: nat -> bool)
      requires snd.n > 0
      reads snd
    {
      exists k: nat :: snd.data <= k < snd.una + snd.n && avail(k % snd.n)
    }

    /** `sendAck`, when it is not delayed. */
    method SendAck(avail: nat -> bool, tsVal: uint32, tsEcr: uint32) returns (sent: bool)
      requires Valid()
      modifies this`pendingAck, this`acks, snd`st, snd`wire, snd`packets, snd.heads
      ensures Valid() && Later(old(snd.Now()), snd.Now()) == true && (sent ==> !pendingAck)
      ensures snd.st.stream == old(snd.st.stream) && SaidNow(old(acks)) == true
      ensures (sent <==> HasBuffer(avail)) && (sent ==> Acked())
    {
      var stamp := Stamp(tsVal, tsEcr);
      assert snd.Valid();
      var before := snd.packets;
      ghost var wire := snd.wire;
      sent := snd.SendAck(avail, stamp);
      Note(before, wire, stamp);
    }

    /** The sequence number check. */
    method Check(p: Pack, ghost pos: nat) returns (ok: bool, lo: nat, hi: nat, skip: nat, finHere: bool)
      requires RcvOk() && Reachable(p, pos)
      ensures ok <==> Acceptable(pos - rcv.buf.base, pos + |p.payload| + One(p.fin) - rcv.buf.base,
                                 rcv.buf.segs[0].second, rcv.buf.size)
      ensures ok ==> InWindowPart(p, pos, lo, hi, skip, finHere)
    {
      assert rcv.Valid();
      ok, lo, hi, skip, finHere := rcv.Check(p.seqNum, |p.payload|, p.fin, pos);
    }

    /** The packet is a piece of the peer's stream at `pos`, and near enough for 32-bit
        comparison. */
    ghost predicate Reachable(p: Pack, pos: nat)
      reads rcv, rcv.buf
    {
      && |p.payload| < 0x1_0000 && IsPiece(p.payload, rcv.buf.stream, pos)
      && (p.fin ==> pos + |p.payload| == |rcv.buf.stream|) && p.seqNum == U32(rcv.buf.isn + pos)
      && rcv.buf.base + rcv.buf.size - TWO31 <= pos && pos + |p.payload| + 1 < rcv.buf.base + TWO31
    }

    /** The packet gets so far that its acknowledgement number is looked at. */
    ghost predicate Acknowledges(p: Pack, pos: nat)
      requires rcv.buf.segs.Length > 0
      reads rcv, rcv.buf, rcv.buf.segs
    {
      && p.ack && !p.rst && !p.stale
      && Acceptable(pos - rcv.buf.base, pos + |p.payload| + One(p.fin) - rcv.buf.base, rcv.buf.segs[0].second,
                    rcv.buf.size)
    }

    /** `lo .. hi` is the part of the text that is new and in the window. */
    ghost predicate InWindowPart(p: Pack, pos: nat, lo: nat, hi: nat, skip: nat, finHere: bool)
      requires rcv.buf.segs.Length > 0
      reads rcv, rcv.buf, rcv.buf.segs
    {
      && rcv.buf.base + lo == Max(pos, rcv.buf.Received())
      && rcv.buf.base + hi == Min(pos + |p.payload|, rcv.buf.base + rcv.buf.size)
      && (lo < hi ==> skip == rcv.buf.base + lo - pos)
      && (finHere <==> p.fin && pos + |p.payload| <= rcv.buf.base + rcv.buf.size)
    }

    /** The acknowledgement goes to the send path. */
    method Acknowledge(p: Pack, c: Control, tsVal: uint32, tsEcr: uint32, ghost a: int)
      requires Valid() && snd.AckInRange(p.ackNum, a)
      requires p.window <= 0x4000_0000 && c.cwnd < 0x7fff_ffff && c.later < 0x7fff_ffff
      modifies this`acks, this`pendingAck, snd, snd.heads
      ensures Valid() && Later(old(snd.Now()), snd.Now()) == true && snd.finSent == old(snd.finSent)
      ensures snd.st.stream == old(snd.st.stream) && AckTaken(old(snd.st), old(snd.st).(una := snd.una), a) == true
      ensures SaidNow(old(acks)) == true && old(snd.calls) <= snd.calls
      ensures open == old(open) && Leaves(old(snd.Now()), c, a, snd.finSent, snd.una, snd.data, snd.dataSize) == true
    {
      var stamp := Stamp(tsVal, tsEcr);
      assert snd.Valid();
      var before := snd.packets;
      ghost var was := snd.Now();
      ghost var edge := snd.OnAck(p.ackNum, p.window, c.resend, c.congestion, c.cwnd, c.later, c.rto, stamp, a);
      if was.st.finSent {
        EndsWhen(was, snd.Now(), c, a, edge);
      }
      Note(before, was.wire, stamp);
    }

    /** The text and the FIN go to the receive path. */
    method Absorb(p: Pack, lo: nat, hi: nat, skip: nat, finHere: bool, handler: seq<byte> -> nat, ghost pos: nat)
      returns (out: Outcome, ghost limit: nat)
      requires RcvOk() && !rcv.finReceived && forall d: seq<byte> :: handler(d) <= |d|
      requires Reachable(p, pos) && InWindowPart(p, pos, lo, hi, skip, finHere)
      modifies rcv`finReceived, rcv.buf`cnt, rcv.buf`taken, rcv.buf`seqNum, rcv.buf`base, rcv.buf.segs, rcv.buf.bytes
      ensures rcv.buf.Shape() == true && (if out.Overrun? then rcv.Stuck() else RcvOk()) == true
      ensures Taken(old(rcv.Held()), rcv.Held(), rcv.buf.size, rcv.rmss, rcv.buf.stream, pos, |p.payload|, p.fin,
                    handler, out, rcv.finReceived, limit) == true
      ensures old(rcv.buf.Received()) <= rcv.buf.Received() && old(rcv.RightEdge()) <= rcv.RightEdge()
      ensures lo < hi || rcv.finReceived || rcv.buf.Received() == old(rcv.buf.Received())
    {
      assert rcv.Valid();
      ghost var v := rcv.Held();
      out, limit := rcv.Process(p.payload, p.fin, lo, hi, skip, finHere, handler, pos);
      EdgesGrow(v, rcv.Held(), rcv.buf.size, rcv.rmss, rcv.buf.stream, pos, |p.payload|, p.fin, handler, out,
                rcv.finReceived, limit);
    }

    /** What has been sent remains true. */
    method Gain(p: Pack, lo: nat, hi: nat, skip: nat, finHere: bool, handler: seq<byte> -> nat, ghost pos: nat)
      returns (out: Outcome, ghost limit: nat)
      requires Valid() && !rcv.finReceived && forall d: seq<byte> :: handler(d) <= |d|
      requires Reachable(p, pos) && InWindowPart(p, pos, lo, hi, skip, finHere)
      modifies rcv`finReceived, rcv.buf`cnt, rcv.buf`taken, rcv.buf`seqNum, rcv.buf`base, rcv.buf.segs, rcv.buf.bytes
      ensures SndOk() == true && rcv.buf.Shape() == true && Honest() == true
      ensures (if out.Overrun? then rcv.Stuck() else RcvOk()) == true
      ensures Taken(old(rcv.Held()), rcv.Held(), rcv.buf.size, rcv.rmss, rcv.buf.stream, pos, |p.payload|, p.fin,
                    handler, out, rcv.finReceived, limit) == true
      ensures lo < hi || rcv.finReceived || Owing() == true
    {
      ghost var got, edge := rcv.buf.Received(), rcv.RightEdge();
      out, limit := Absorb(p, lo, hi, skip, finHere, handler, pos);
      AcksStay(snd.wire, acks, rcv.buf.isn, got, edge, rcv.buf.Received(), rcv.RightEdge(), |rcv.buf.stream|);
    }

    /** The same unless the stream is complete. What is new is to be acknowledged. */
    method Receive(p: Pack, lo: nat, hi: nat, skip: nat, finHere: bool, handler: seq<byte> -> nat, ghost pos: nat)
      returns (out: Outcome, ghost limit: nat)
      requires Valid() && forall d: seq<byte> :: handler(d) <= |d|
      requires Reachable(p, pos) && InWindowPart(p, pos, lo, hi, skip, finHere)
      modifies this`pendingAck,
               rcv`finReceived, rcv.buf`cnt, rcv.buf`taken, rcv.buf`seqNum, rcv.buf`base, rcv.buf.segs, rcv.buf.bytes
      ensures Kept(out.Overrun?) == true
      ensures Received(old(rcv.Held()), old(rcv.finReceived), p, pos, handler, out, limit) == true
    {
      out, limit := Processed(None, None), 0;
      if !rcv.finReceived {
        out, limit := Gain(p, lo, hi, skip, finHere, handler, pos);
        pendingAck := pendingAck || lo < hi || rcv.finReceived;
      }
    }

    /** What has been done with the text and the FIN. */
    ghost predicate Received(v: Rcv, known: bool, p: Pack, pos: nat, handler: seq<byte> -> nat, out: Outcome,
                             limit: nat)
      requires rcv.buf.cnt <= rcv.buf.segs.Length
      reads rcv, rcv.buf, rcv.buf.segs
    {
      if known then out == Processed(None, None) && rcv.Held() == v && rcv.finReceived
      else Taken(v, rcv.Held(), rcv.buf.size, rcv.rmss, rcv.buf.stream, pos, |p.payload|, p.fin, handler, out,
                 rcv.finReceived, limit)
    }
    /** The end of `onPack`: is the connection over? */
    method Finish(ghost was: Moment, ghost c: Control, ghost a: int) returns (verdict: S.Verdict)
      requires Valid() && Leaves(was, c, a, snd.finSent, snd.una, snd.data, snd.dataSize)
      modifies this`open
      ensures open == (old(open) && verdict.Going?)
      ensures Ends(verdict, old(open), was, c, a, snd.st, rcv.finReceived, rcv.buf.Received(),
                   |rcv.buf.stream|) == true
    {
      assert snd.Valid() && rcv.Valid();
      verdict := S.Going;
      if snd.finSent {
        AllAckedIff(snd.Now());
      }
      if snd.finSent && rcv.finReceived && open && snd.una == snd.data {
        open := false;
        verdict := S.TimeWait;
      }
    }

    /** Acknowledges what has arrived, if that is called for, and ends the connection if it
        is over. */
    method Conclude(prompt: bool, avail: nat -> bool, tsVal: uint32, tsEcr: uint32,
                    ghost was: Moment, ghost c: Control, ghost a: int) returns (verdict: S.Verdict)
      requires Valid() && Leaves(was, c, a, snd.finSent, snd.una, snd.data, snd.dataSize)
      modifies this`open, this`pendingAck, this`acks, snd`st, snd`wire, snd`packets, snd.heads
      ensures Valid() && Later(old(snd.Now()), snd.Now()) == true && snd.st.stream == old(snd.st.stream)
      ensures SaidNow(old(acks)) == true
      ensures open == (old(open) && verdict.Going?)
      ensures Ends(verdict, old(open), was, c, a, snd.st, rcv.finReceived, rcv.buf.Received(),
                   |rcv.buf.stream|) == true
      ensures prompt && HasBuffer(avail) ==> Acked()
    {
      if pendingAck && prompt {
        var sent := SendAck(avail, tsVal, tsEcr);
      }
      verdict := Finish(was, c, a);
    }

    /** What follows once the acknowledgement has been dealt with. */
    method TakeText(p: Pack, lo: nat, hi: nat, skip: nat, finHere: bool, handler: seq<byte> -> nat,
                    prompt: bool, avail: nat -> bool, tsVal: uint32, tsEcr: uint32, ghost pos: nat,
                    ghost was: Moment, ghost c: Control, ghost a: int)
      returns (out: Outcome, verdict: S.Verdict, ghost limit: nat)
      requires Valid() && forall d: seq<byte> :: handler(d) <= |d|
      requires Reachable(p, pos) && InWindowPart(p, pos, lo, hi, skip, finHere)
      requires Leaves(was, c, a, snd.finSent, snd.una, snd.data, snd.dataSize)
      modifies this`open, this`pendingAck, this`acks, snd`st, snd`wire, snd`packets, snd.heads,
               rcv`finReceived, rcv.buf`cnt, rcv.buf`taken, rcv.buf`seqNum, rcv.buf`base, rcv.buf.segs, rcv.buf.bytes
      ensures Kept(out.Overrun?) == true
      ensures Later(old(snd.Now()), snd.Now()) == true && snd.st.stream == old(snd.st.stream)
      ensures SaidNow(old(acks)) == true && snd.calls == old(snd.calls)
      ensures Received(old(rcv.Held()), old(rcv.finReceived), p, pos, handler, out, limit) == true
      ensures open == (old(open) && verdict.Going?)
      ensures if out.Overrun? then verdict.Closing?
              else Ends(verdict, old(open), was, c, a, snd.st, rcv.finReceived, rcv.buf.Received(),
                        |rcv.buf.stream|) == true
      ensures prompt && !out.Overrun? && HasBuffer(avail) ==> Acked()
    {
      out, limit := Receive(p, lo, hi, skip, finHere, handler, pos);
      if out.Overrun? {
        open := false;
        verdict := S.Closing;
      } else {
        verdict := Conclude(prompt, avail, tsVal, tsEcr, was, c, a);
      }
    }

    /** An acceptable packet with an acknowledgement, and without a RST. */
    method Process(p: Pack, lo: nat, hi: nat, skip: nat, finHere: bool, handler: seq<byte> -> nat, c: Control,
                   prompt: bool, avail: nat -> bool, tsVal: uint32, tsEcr: uint32, ghost pos: nat, ghost a: int)
      returns (out: Outcome, verdict: S.Verdict, ghost limit: nat)
      requires Valid() && snd.AckInRange(p.ackNum, a) && forall d: seq<byte> :: handler(d) <= |d|
      requires p.window <= 0x4000_0000 && c.cwnd < 0x7fff_ffff && c.later < 0x7fff_ffff
      requires Reachable(p, pos) && InWindowPart(p, pos, lo, hi, skip, finHere)
      modifies this`open, this`pendingAck, this`acks, snd, snd.heads,
               rcv`finReceived, rcv.buf`cnt, rcv.buf`taken, rcv.buf`seqNum, rcv.buf`base, rcv.buf.segs, rcv.buf.bytes
      ensures Kept(out.Overrun?) == true
      ensures Later(old(snd.Now()), snd.Now()) == true && snd.finSent == old(snd.finSent)
      ensures old(snd.calls) <= snd.calls
      ensures Said(snd.wire, old(acks), acks, old(rcv.buf.Received()), old(rcv.RightEdge()),
                   rcv.buf.Received(), rcv.RightEdge()) == true
      ensures snd.st.stream == old(snd.st.stream) && AckTaken(old(snd.st), old(snd.st).(una := snd.una), a) == true
      ensures Received(old(rcv.Held()), old(rcv.finReceived), p, pos, handler, out, limit) == true
      ensures open == (old(open) && verdict.Going?)
      ensures if out.Overrun? then verdict.Closing?
              else Ends(verdict, old(open), old(snd.Now()), c, a, snd.st, rcv.finReceived, rcv.buf.Received(),
                        |rcv.buf.stream|) == true
      ensures prompt && !out.Overrun? && HasBuffer(avail) ==> Acked()
    {
      ghost var m, got, edge := snd.Now(), rcv.buf.Received(), rcv.RightEdge();
      Acknowledge(p, c, tsVal, tsEcr, a);
      ghost var mid, said := snd.Now(), acks;
      out, verdict, limit := TakeText(p, lo, hi, skip, finHere, handler, prompt, avail, tsVal, tsEcr, pos, m, c, a);
      SaidTwice(m, mid, snd.Now(), old(acks), said, acks, got, edge, rcv.buf.Received(), rcv.RightEdge());
    }

    /** A packet that is not acceptable is answered, unless it is a RST; an acceptable RST closes
        the connection, and other packets without an acknowledgement are dropped. */
    method Dismiss(p: Pack, ok: bool, prompt: bool, avail: nat -> bool, tsVal: uint32, tsEcr: uint32)
      returns (how: Handling, verdict: S.Verdict)
      requires Valid() && (!ok || p.rst || !p.ack)
      modifies this`open, this`pendingAck, this`acks, snd`st, snd`wire, snd`packets, snd.heads
      ensures Valid() && Later(old(snd.Now()), snd.Now()) == true && snd.st.stream == old(snd.st.stream)
      ensures SaidNow(old(acks)) == true
      ensures how == if !ok then Refused else if p.rst then WasReset else NoAck
      ensures verdict == (if how.WasReset? then S.Closing else S.Going) && open == (old(open) && verdict.Going?)
      ensures prompt && HasBuffer(avail) && how.Refused? && !p.rst ==> Acked()
    {
      verdict := S.Going;
      if !ok {
        how := Refused;
        if !p.rst && prompt {
          var sent := SendAck(avail, tsVal, tsEcr);
        }
      } else if p.rst {
        how, verdict, open := WasReset, S.Closing, false;
      } else {
        how := NoAck;
      }
    }

    /** `onPack`. */
    method OnPack(p: Pack, handler: seq<byte> -> nat, c: Control, prompt: bool, avail: nat -> bool,
                  tsVal: uint32, tsEcr: uint32, ghost pos: nat, ghost a: int)
      returns (how: Handling, verdict: S.Verdict, ghost limit: nat)
      requires Valid() && Reachable(p, pos) && forall d: seq<byte> :: handler(d) <= |d|
      requires Acknowledges(p, pos) ==> snd.AckInRange(p.ackNum, a)
      requires p.window <= 0x4000_0000 && c.cwnd < 0x7fff_ffff && c.later < 0x7fff_ffff
      modifies this`open, this`pendingAck, this`acks, snd, snd.heads,
               rcv`finReceived, rcv.buf`cnt, rcv.buf`taken, rcv.buf`seqNum, rcv.buf`base, rcv.buf.segs, rcv.buf.bytes
      ensures Kept(how.Handled? && how.out.Overrun?) == true
      ensures Later(old(snd.Now()), snd.Now()) == true && snd.st.stream == old(snd.st.stream)
      ensures snd.finSent == old(snd.finSent) && old(snd.calls) <= snd.calls
      // every packet sent says what was true before or is true after
      ensures Said(snd.wire, old(acks), acks, old(rcv.buf.Received()), old(rcv.RightEdge()),
                   rcv.buf.Received(), rcv.RightEdge()) == true
      // how far it gets
      ensures how.Refused? <==> p.stale || !Acceptable(pos - old(rcv.buf.base),
                                                       pos + |p.payload| + One(p.fin) - old(rcv.buf.base),
                                                       old(rcv.buf.segs[0].second), rcv.buf.size)
      ensures !how.Refused? ==> (how.WasReset? <==> p.rst) && (how.NoAck? <==> !p.rst && !p.ack)
      // only a packet that gets all the way acknowledges anything, or is received
      ensures !how.Handled? ==> rcv.Held() == old(rcv.Held()) && rcv.finReceived == old(rcv.finReceived)
                                && snd.una == old(snd.una) && snd.calls == old(snd.calls)
      ensures how.Handled? ==>
                && AckTaken(old(snd.st), old(snd.st).(una := snd.una), a) == true
                && Received(old(rcv.Held()), old(rcv.finReceived), p, pos, handler, how.out, limit) == true
      // a packet that is refused is answered, and after one that is not, everything in order is
      // acknowledged, if that is not delayed
      ensures prompt && HasBuffer(avail) && (if how.Refused? then !p.rst else how.Handled? && !how.out.Overrun?) ==>
                Acked()
      // and it ends the connection or not
      ensures open == (old(open) && verdict.Going?)
      ensures if how.WasReset? || (how.Handled? && how.out.Overrun?) then verdict.Closing?
              else if !how.Handled? then verdict.Going?
              else Ends(verdict, old(open), old(snd.Now()), c, a, snd.st, rcv.finReceived, rcv.buf.Received(),
                        |rcv.buf.stream|) == true
    {
      limit := 0;
      var ok, lo, hi, skip, finHere := Check(p, pos);
      if !ok || p.stale || p.rst || !p.ack {
        how, verdict := Dismiss(p, ok && !p.stale, prompt, avail, tsVal, tsEcr);
      } else {
        var out;
        out, verdict, limit :=
          Process(p, lo, hi, skip, finHere, handler, c, prompt, avail, tsVal, tsEcr, pos, a);
        how := Handled(out);
      }
    }

    /** `send`: a prefix of `d` is accepted. */
    method Send(d: seq<byte>, more: bool, tsVal: uint32, tsEcr: uint32) returns (done: nat)
      requires Valid()
      modifies this`acks, this`pendingAck, snd`next, snd`data, snd`dataSize, snd`dataSum, snd`st, snd`calls, snd`wire,
               snd`packets, snd.heads, snd.mem
      ensures Valid() && Later(old(snd.Now()), snd.Now()) == true
      ensures SaidNow(old(acks)) == true && old(snd.calls) <= snd.calls
      ensures done == Min(|d|, old(snd.Sendable())) && snd.st.stream == old(snd.st.stream) + d[..done]
      ensures more && !old(snd.finSent) ==> !snd.finSent && done + snd.Sendable() == old(snd.Sendable())
    {
      var stamp := Stamp(tsVal, tsEcr);
      assert snd.Valid();
      var before := snd.packets;
      ghost var wire := snd.wire;
      done := snd.Send(d, more, stamp);
      Note(before, wire, stamp);
    }

    /** `sendv`: the same of several buffers. */
    method Sendv(iov: seq<seq<byte>>, tsVal: uint32, tsEcr: uint32) returns (total: nat)
      requires Valid()
      modifies this`acks, this`pendingAck, snd`next, snd`data, snd`dataSize, snd`dataSum, snd`st, snd`calls, snd`wire,
               snd`packets, snd.heads, snd.mem
      ensures Valid() && Later(old(snd.Now()), snd.Now()) == true
      ensures SaidNow(old(acks)) == true && old(snd.calls) <= snd.calls
      ensures total == Min(|Flat(iov)|, old(snd.Sendable())) && snd.st.stream == old(snd.st.stream) + Flat(iov)[..total]
    {
      var stamp := Stamp(tsVal, tsEcr);
      assert snd.Valid();
      var before := snd.packets;
      ghost var wire := snd.wire;
      total := snd.Sendv(iov, stamp);
      Note(before, wire, stamp);
    }

    /** `sendFin`. Without a place in the ring for the FIN, the connection is closed. */
    method SendFin(tsVal: uint32, tsEcr: uint32) returns (verdict: S.Verdict)
      requires Valid()
      modifies this`open, this`acks, this`pendingAck, snd`next, snd`data, snd`dataSize, snd`dataSum, snd`finSent,
               snd`st, snd`calls, snd`wire, snd`packets, snd.heads
      ensures Valid() && Later(old(snd.Now()), snd.Now()) == true && snd.st.stream == old(snd.st.stream)
      ensures SaidNow(old(acks)) == true && old(snd.calls) <= snd.calls
      ensures verdict == if !old(snd.finSent) && old(snd.una) + snd.n - 1 == old(snd.data) then S.Closing else S.Going
      ensures open == (old(open) && verdict.Going?) && (snd.finSent || verdict.Closing?)
      // behind a piece that is waiting, the FIN waits too
      ensures verdict.Going? && !old(snd.finSent) && old(snd.next) == old(snd.data) && old(snd.dataSize) > 0 ==>
                snd.next == old(snd.next) && snd.data == old(snd.data) && snd.dataSize == old(snd.dataSize) + 1
    {
      var stamp := Stamp(tsVal, tsEcr);
      assert snd.Valid();
      var before := snd.packets;
      ghost var wire := snd.wire;
      var closed := snd.SendFin(stamp);
      Note(before, wire, stamp);
      verdict := S.Going;
      if closed {
        open := false;
        verdict := S.Closing;
      }
    }

    /** The resend timer expires: the oldest piece is sent again and the timer restarts with
        twice the timeout. After too many retries, the connection is closed. */
    method OnResendTimer(limit: nat, maxRto: uint32, congestion: bool, cwnd: uint32, tsVal: uint32, tsEcr: uint32)
      returns (verdict: S.Verdict)
      requires Valid() && Linked(snd.calls) && cwnd < 0x7fff_ffff
      modifies this`open, this`acks, this`pendingAck, snd, snd.heads
      ensures verdict == if old(snd.retries) >= Min(31, limit) then S.Closing else S.Going
      ensures open == (old(open) && verdict.Going?)
      ensures verdict.Closing? ==> snd.Now() == old(snd.Now()) && snd.calls == old(snd.calls) + [Unlink]
      ensures verdict.Going? ==>
                && Valid() && Later(old(snd.Now()), snd.Now()) == true && snd.retries == old(snd.retries) + 1
                && SaidNow(old(acks)) == true && |snd.wire| == |old(snd.wire)| + 1
                && SentAgain(old(snd.wire), snd.wire, old(snd.st), snd.una) == true
                && snd.rto == Min(U32(2 * old(snd.rto)), maxRto)
                && snd.calls == old(snd.calls) + [Unlink, Link(snd.rto)]
    {
      var stamp := Stamp(tsVal, tsEcr);
      assert snd.Valid();
      var before := snd.packets;
      ghost var wire := snd.wire;
      var timeout := snd.OnResendTimer(limit, maxRto, congestion, cwnd, stamp);
      verdict := S.Going;
      if timeout {
        open := false;
        verdict := S.Closing;
      } else {
        Note(before, wire, stamp);
      }
    }
  }

  /** Neither what is in order nor the right edge of the window moves left. Without new text in
      the window, and without the FIN, nothing new is in order. */
  lemma EdgesGrow(v: Rcv, v': Rcv, size: nat, rmss: nat, stream: seq<byte>, pos: nat, len: nat, fin: bool,
                  handler: seq<byte> -> nat, out: Outcome, finReceived: bool, limit: nat)
    requires Taken(v, v', size, rmss, stream, pos, len, fin, handler, out, finReceived, limit) == true
    requires |v.segs| > 0 && v.segs[0].second <= size && |v'.segs| > 0 && v'.segs[0].second <= size
    ensures Got(v) <= Got(v')
    ensures Edge(v.base, v.segs[0].second, size) <= Edge(v'.base, v'.segs[0].second, size)
    ensures Max(pos, Got(v)) >= Min(pos + len, v.base + size) && !finReceived ==> Got(v') == Got(v)
  {
    AfterSegment(v, v', size, rmss, stream, pos, len, fin, handler, out, finReceived, limit);
    EdgeRuleHolds(v, v', size, Gains(v, size, rmss, stream, pos, len, fin, handler),
                  Frees(v, size, rmss, stream, pos, len, handler), 0);
    assert TextEffect(v, WithoutFin(v', finReceived), size, rmss, stream, pos, len, handler, out.given, limit);
  }
  /** A FIN alone, for a receiver that has nothing yet. */
  lemma OnlyFin(v': Rcv, finReceived: bool, handler: seq<byte> -> nat, out: Outcome, limit: nat)
    requires Taken(Rcv([Seg(0, 0)], 0), v', 0x1000, 1460, [], 0, 0, true, handler, out, finReceived, limit)
    ensures finReceived && !out.Overrun?
  {
    assert TextEffect(Rcv([Seg(0, 0)], 0), WithoutFin(v', finReceived), 0x1000, 1460, [], 0, 0, handler, out.given,
                      limit);
  }

  /** The windows are two bytes, and nothing has arrived yet but the peer's SYN. */
  ghost predicate Narrow(c: Connection)
    reads c, c.snd, c.rcv, c.rcv.buf, c.rcv.buf.segs
  {
    && c.open && c.snd.wnd == 2 && c.snd.st.isn == 0 && c.snd.una == 0 && c.snd.next == 1
    && !c.rcv.finReceived && c.rcv.buf.size == 0x1000 && c.rcv.rmss == 1460 && c.rcv.buf.stream == []
    && c.rcv.buf.isn == 1 && c.rcv.buf.cnt <= c.rcv.buf.segs.Length && c.rcv.Held() == Rcv([Seg(0, 0)], 0)
  }

  /** Our FIN is queued, behind a byte that it keeps from being sent. */
  ghost predicate Stalled(st: State) {
    st.finSent && st.stream == [7] && st.next == st.data == 1 && st.dataSize == 2 && st.cuts == [0, 1, 3]
  }

  method Begin(conn: Conn, stamp: Refresh) returns (c: Connection)
    requires conn.flags < 0xff00
    ensures c.Valid() && Narrow(c) && fresh(c) && fresh(c.snd) && fresh(c.snd.heads) && fresh(c.snd.mem)
    ensures fresh(c.rcv) && fresh(c.rcv.buf) && fresh(c.rcv.buf.segs) && fresh(c.rcv.buf.bytes)
    ensures c.snd.st == Opened(conn, 4, 2, 2, 0, c.snd.st.q)
  {
    var s := new Sender(conn, 4, 2, 2, 0, stamp, 0, 1, false, 0, 200);
    var r := new Receiver(0x1000, 1460);
    r.OnSyn(0, []);
    c := new Connection(s, r);
  }

  /** A byte is accepted, and waits for more. */
  method Queue(c: Connection, ghost conn: Conn)
    requires c.Valid() && Narrow(c) && c.snd.st == Opened(conn, 4, 2, 2, 0, c.snd.st.q)
    modifies c`acks, c`pendingAck, c.snd`next, c.snd`data, c.snd`dataSize, c.snd`dataSum, c.snd`st, c.snd`calls,
             c.snd`wire, c.snd`packets, c.snd.heads, c.snd.mem
    ensures c.Valid() && Narrow(c) && c.snd.n == 4 && !c.snd.finSent && c.snd.st.stream == [7]
    ensures c.snd.data == 1 && c.snd.dataSize == 1
  {
    assert c.snd.Valid();
    var done := c.Send([7], true, 0, 0);
    assert c.snd.Valid();
  }

  /** Then the FIN. */
  method Stall(c: Connection)
    requires c.Valid() && Narrow(c) && c.snd.n == 4 && !c.snd.finSent && c.snd.st.stream == [7]
    requires c.snd.data == 1 && c.snd.dataSize == 1
    modifies c`open, c`acks, c`pendingAck, c.snd`next, c.snd`data, c.snd`dataSize, c.snd`dataSum, c.snd`finSent,
             c.snd`st, c.snd`calls, c.snd`wire, c.snd`packets, c.snd.heads
    ensures c.Valid() && Narrow(c) && Stalled(c.snd.st)
    ensures forall now: Moment :: SenderOk(now) && Later(c.snd.Now(), now) ==> !Out(now.wire, 1)
  {
    var verdict := c.SendFin(0, 0);
    assert c.snd.Valid();
    OnePiece(c.snd.Now());
    NeverSent(c.snd.Now());
  }

  /** TIME_WAIT is entered although an accepted byte has not been acknowledged, and will
      never be sent: the FIN is queued behind it, beyond the window, when the peer's FIN
      arrives with an acknowledgement of our SYN. */
  method EndsTooSoon(conn: Conn, stamp: Refresh) returns (c: Connection, verdict: S.Verdict)
    requires conn.flags < 0xff00
    ensures verdict.TimeWait? && !c.open && c.snd.st.stream == [7] && !AllAcked(c.snd.st)
    ensures forall now: Moment :: SenderOk(now) && Later(c.snd.Now(), now) ==> !Out(now.wire, 1)
  {
    c := Begin(conn, stamp);
    Queue(c, conn);
    Stall(c);
    ghost var m := c.snd.Now();
    verdict := LastPacket(c);
    forall now: Moment | SenderOk(now) && Later(c.snd.Now(), now)
      ensures !Out(now.wire, 1)
    {
      LaterAgain(m, c.snd.Now(), now);
    }
  }

  /** The peer's FIN, with an acknowledgement of our SYN. */
  method LastPacket(c: Connection) returns (verdict: S.Verdict)
    requires c.Valid() && Narrow(c) && Stalled(c.snd.st)
    modifies c`open, c`pendingAck, c`acks, c.snd, c.snd.heads, c.rcv`finReceived, c.rcv.buf`cnt, c.rcv.buf`taken,
             c.rcv.buf`seqNum, c.rcv.buf`base, c.rcv.buf.segs, c.rcv.buf.bytes
    ensures verdict.TimeWait? && !c.open && c.snd.st.stream == [7] && !AllAcked(c.snd.st)
    ensures Later(old(c.snd.Now()), c.snd.Now())
  {
    assert c.snd.Valid();
    var handler := (d: seq<byte>) => 0;
    var how;
    ghost var limit;
    how, verdict, limit := c.OnPack(Pack(1, 1, 1, true, false, true, false, []), handler,
                                    Control(false, false, 0, 0, 200), false, k => false, 0, 0, 0, 1);
    OnlyFin(c.rcv.Held(), c.rcv.finReceived, handler, how.out, limit);
  }
}
