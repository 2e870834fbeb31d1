/** Both ends together: whatever a sender has put on the wire may be lost, repeated
    and reordered; the consumer at the other end gets a prefix of the stream. */
module EndToEnd {
  import opened Words
  import opened RecvSpec
  import opened TcpReceive
  import opened SendWire
  import opened TcpSend

  /** A packet of the sender is what the receiver expects of a segment: a piece of the
      stream, at the position its sequence number says, with a FIN only at the end.
      (Position 0 is the SYN.) */
  lemma SentIsReceivable(p: Packet, stream: seq<byte>, isn: int, first: uint32, finSent: bool, wnd: int)
    requires PacketOk(p, stream, isn, finSent, wnd) && 1 <= p.from && first == U32(isn + 1)
    ensures var pos := p.from - 1;
            && IsPiece(p.text, stream, pos) && pos + |p.text| <= |stream| + 1 && |p.text| <= 1460
            && (p.fin ==> finSent && pos + |p.text| == |stream|) && p.to == p.from + |p.text| + One(p.fin)
            && p.seqNum == U32(first + pos)
  {
    WrapAdd(isn + 1, p.from - 1);
  }

  /** The packet is near enough to a buffer of `size` bytes at stream position `at` for
      the difference of the two sequence numbers to be a signed 32-bit number. */
  predicate InReach(at: nat, size: nat, p: Packet) {
    p.from >= 1 && at + size <= p.from - 1 + TWO31 && p.from + |p.text| < at + TWO31
  }

  /** The buffer has moved from `base` to `base'`, by less than 2^32 bytes. */
  method Moved(at: nat, seqNum: uint32, seqNum': uint32, ghost isn: int, ghost base': nat) returns (at': nat)
    requires seqNum == U32(isn + at) && seqNum' == U32(isn + base') && at <= base' < at + TWO32
    ensures at' == base'
  {
    WrapSub(isn + base', isn + at);
    at' := at + U32(seqNum' - seqNum);
  }

  /** The receiver is sound; for the verifier to take apart on demand. */
  ghost predicate Live(r: Receiver)
    reads r, r.buf, r.buf.segs, r.buf.bytes
  {
    r.buf.Shape() && forall x: Receiver {:trigger x.Valid()} | x in {r} :: x.Valid()
  }

  /** A packet in reach arrives. */
  method Give(r: Receiver, p: Packet, handler: seq<byte> -> nat, ghost isn: int, ghost finSent: bool, ghost wnd: int)
    returns (outcome: Outcome, ghost limit: nat)
    requires Live(r) == true && r.buf.isn == U32(isn + 1) && (r.finReceived ==> finSent)
    requires InReach(r.buf.base, r.buf.size, p)
    requires PacketOk(p, r.buf.stream, isn, finSent, wnd) && forall d: seq<byte> :: handler(d) <= |d|
    modifies r`finReceived, r.buf`cnt, r.buf`taken, r.buf`seqNum, r.buf`base, r.buf.segs, r.buf.bytes
    ensures r.buf.Shape() == true && (if outcome.Overrun? then r.Stuck() else Live(r)) == true
    ensures Answered(old(r.Held()), old(r.finReceived), r.Held(), r.finReceived, r.buf.size, r.rmss, r.buf.stream,
                     p.from - 1, |p.text|, p.fin, handler, outcome, limit) == true
    ensures old(r.buf.base) <= r.buf.base <= old(r.buf.base) + r.buf.size && (r.finReceived ==> finSent)
  {
    assert r.Valid();
    SentIsReceivable(p, r.buf.stream, isn, r.buf.isn, finSent, wnd);
    ghost var v, known := r.Held(), r.finReceived;
    outcome, limit := r.OnSegment(p.seqNum, p.text, p.fin, handler, p.from - 1);
    FinIsSent(v, known, r.Held(), r.finReceived, r.buf.size, r.rmss, r.buf.stream, p.from - 1, |p.text|, p.fin,
              handler, outcome, limit);
  }

  lemma FinIsSent(v: Rcv, known: bool, v': Rcv, finReceived: bool, size: nat, rmss: nat, stream: seq<byte>,
                  pos: nat, len: nat, fin: bool, handler: seq<byte> -> nat, outcome: Outcome, limit: nat)
    requires Answered(v, known, v', finReceived, size, rmss, stream, pos, len, fin, handler, outcome, limit) == true
    ensures finReceived ==> known || fin
  {
  }

  /** One packet arrives. One that is out of reach counts as lost. `at` is where the
      receive buffer starts. */
  method Arrive(r: Receiver, p: Packet, at: nat, handler: seq<byte> -> nat,
                ghost isn: int, ghost finSent: bool, ghost wnd: int)
    returns (at': nat, outcome: Outcome, ghost limit: nat)
    requires Live(r) == true && r.buf.isn == U32(isn + 1) && at == r.buf.base && (r.finReceived ==> finSent)
    requires PacketOk(p, r.buf.stream, isn, finSent, wnd) && forall d: seq<byte> :: handler(d) <= |d|
    modifies r`finReceived, r.buf`cnt, r.buf`taken, r.buf`seqNum, r.buf`base, r.buf.segs, r.buf.bytes
    ensures r.buf.Shape() == true && (if outcome.Overrun? then r.Stuck() else Live(r)) == true && at' == r.buf.base
    ensures r.finReceived ==> finSent
    ensures if InReach(at, r.buf.size, p) then
              Answered(old(r.Held()), old(r.finReceived), r.Held(), r.finReceived, r.buf.size, r.rmss, r.buf.stream,
                       p.from - 1, |p.text|, p.fin, handler, outcome, limit) == true
            else outcome.Unacceptable? && r.Held() == old(r.Held()) && r.finReceived == old(r.finReceived)
  {
    at', outcome, limit := at, Unacceptable, 0;
    if InReach(at, r.buf.size, p) {
      var seqNum := r.buf.seqNum;
      outcome, limit := Give(r, p, handler, isn, finSent, wnd);
      at' := Moved(at, seqNum, r.buf.seqNum, r.buf.isn, r.buf.base);
    }
  }

  /** The receiver is the other end of the sender's connection. */
  ghost predicate Connected(r: Receiver, s: Sender)
    reads r, r.buf, r.buf.segs, r.buf.bytes, s, s.heads, s.mem
  {
    && s.Valid() && r.Valid() && r.buf.stream == s.st.stream && r.buf.isn == U32(s.st.isn + 1)
    && r.buf.start == 0 && (r.finReceived ==> s.st.finSent)
  }

  /** Packets arrive, in any order; `handler(i)` is the consumer after packet `i`. */
  method ArriveAll(r: Receiver, packets: seq<Packet>, at: nat, handler: nat -> seq<byte> -> nat,
                   ghost isn: int, ghost finSent: bool, ghost wnd: int) returns (at': nat)
    requires Live(r) == true && r.buf.isn == U32(isn + 1) && at == r.buf.base && (r.finReceived ==> finSent)
    requires WireOk(packets, r.buf.stream, isn, finSent, wnd) && forall i: nat, d: seq<byte> :: handler(i)(d) <= |d|
    modifies r`finReceived, r.buf`cnt, r.buf`taken, r.buf`seqNum, r.buf`base, r.buf.segs, r.buf.bytes
    ensures r.buf.Shape() == true && (Live(r) || r.Stuck()) == true && at' == r.buf.base && (r.finReceived ==> finSent)
  {
    at' := at;
    var i := 0;
    while i < |packets|
      invariant i <= |packets| && Live(r) == true && at' == r.buf.base && (r.finReceived ==> finSent)
    {
      var outcome;
      ghost var limit;
      at', outcome, limit := Arrive(r, packets[i], at', handler(i), isn, finSent, wnd);
      i := i + 1;
      if outcome.Overrun? {
        break;
      }
    }
  }

  /** Any selection of what a sender has sent, in any order, arrives at any receiver of
      its stream. */
  method Replay(r: Receiver, packets: seq<Packet>, at: nat, handler: nat -> seq<byte> -> nat, ghost s: Sender)
    returns (at': nat)
    requires Connected(r, s) && at == r.buf.base
    requires forall p: Packet :: p in packets ==> p in s.wire
    requires forall i: nat, d: seq<byte> :: handler(i)(d) <= |d|
    modifies r`finReceived, r.buf`cnt, r.buf`taken, r.buf`seqNum, r.buf`base, r.buf.segs, r.buf.bytes
    ensures r.buf.segs.Length > 0 && at' == r.buf.base
    // the consumer has taken a prefix of the stream, nothing else
    ensures r.buf.Consumed() <= |r.buf.stream| && r.buf.taken == r.buf.stream[..r.buf.Consumed()]
    // and is told that it is complete only when it is
    ensures r.finReceived ==> s.st.finSent && r.buf.Received() == |r.buf.stream| + 1
  {
    assert Right(s.Now());
    SelectionOk(packets, s.wire, s.st.stream, s.st.isn, s.st.finSent, s.wnd);
    at' := ArriveAll(r, packets, at, handler, s.st.isn, s.st.finSent, s.wnd);
    assert r.Valid() || r.Stuck();
  }

  lemma SelectionOk(packets: seq<Packet>, wire: seq<Packet>, stream: seq<byte>, isn: int, finSent: bool, wnd: int)
    requires WireOk(wire, stream, isn, finSent, wnd) && forall p: Packet :: p in packets ==> p in wire
    ensures WireOk(packets, stream, isn, finSent, wnd)
  {
    forall k: nat | k < |packets|
      ensures PacketOk(packets[k], stream, isn, finSent, wnd)
    {
      assert packets[k] in packets;
      var i: nat :| i < |wire| && wire[i] == packets[k];
    }
  }

  /** How far the first `n` packets reach, when everything before `from` is there. */
  ghost function Reach(packets: seq<Packet>, n: nat, from: nat): (pos: nat)
    requires n <= |packets|
  {
    if n == 0 then from else Max(Reach(packets, n - 1, from), packets[n - 1].to)
  }

  /** No packet begins beyond what the ones before it reach. */
  ghost predicate GapFree(packets: seq<Packet>, from: nat) {
    forall k: nat :: k < |packets| ==> Joins(packets, k, from)
  }

  ghost predicate Joins(packets: seq<Packet>, k: nat, from: nat)
    requires k < |packets|
  {
    packets[k].from <= Reach(packets, k, from)
  }

  /** Exactly the positions before the reach of such packets are in them. */
  lemma {:induction false} OutIsReached(packets: seq<Packet>, n: nat, from: nat, pos: nat)
    requires n <= |packets| && forall k: nat :: k < n ==> Joins(packets, k, from)
    ensures pos < from || Out(packets[..n], pos) <==> pos < Reach(packets, n, from)
  {
    if n > 0 {
      OutIsReached(packets, n - 1, from, pos);
      assert Joins(packets, n - 1, from);
      if Out(packets[..n - 1], pos) {
        var i: nat :| i < n - 1 && packets[..n - 1][i].from <= pos < packets[..n - 1][i].to;
        assert packets[..n][i] == packets[i];
      }
      if Out(packets[..n], pos) {
        var i: nat :| i < n && packets[..n][i].from <= pos < packets[..n][i].to;
        assert i < n - 1 ==> packets[..n - 1][i] == packets[i];
      }
      assert packets[..n][n - 1] == packets[n - 1];
    }
  }

  /** All packets of a sender, in the order they were sent, leave no gap, and reach as far
      as the sender has sent. */
  lemma SenderLeavesNoGap(m: Moment)
    requires SenderOk(m)
    ensures GapFree(m.wire, 0) && m.st.next < |m.st.cuts| && Reach(m.wire, |m.wire|, 0) == m.st.cuts[m.st.next]
  {
    assert Right(m);
    var n := |m.wire|;
    NoGapsIsGapFree(m.wire, n);
    assert m.wire[..n] == m.wire;
    var reach, sent := Reach(m.wire, n, 0), m.st.cuts[m.st.next];
    OutIsReached(m.wire, n, 0, reach);
    OutIsReached(m.wire, n, 0, sent);
  }

  /** So they can be replayed to a receiver at any point of the connection, and bring it as
      far as the sender has sent. */
  lemma WholeWire(m: Moment, from: nat)
    requires SenderOk(m)
    ensures GapFree(m.wire, from) && m.st.next < |m.st.cuts| && Reach(m.wire, |m.wire|, from) >= m.st.cuts[m.st.next]
  {
    SenderLeavesNoGap(m);
    forall k: nat | k < |m.wire|
      ensures Joins(m.wire, k, from)
    {
      assert Joins(m.wire, k, 0);
      ReachGrows(m.wire, k, 0, from);
    }
    ReachGrows(m.wire, |m.wire|, 0, from);
  }

  lemma {:induction false} ReachGrows(packets: seq<Packet>, n: nat, from: nat, from': nat)
    requires n <= |packets| && from <= from'
    ensures Reach(packets, n, from) <= Reach(packets, n, from')
  {
    if n > 0 { ReachGrows(packets, n - 1, from, from'); }
  }

  lemma {:induction false} NoGapsIsGapFree(wire: seq<Packet>, n: nat)
    requires NoGaps(wire) && n <= |wire|
    ensures forall k: nat :: k < n ==> Joins(wire, k, 0)
  {
    if n > 0 {
      NoGapsIsGapFree(wire, n - 1);
      assert Follows(wire, n - 1);
      if wire[n - 1].from > 0 { OutIsReached(wire, n - 1, 0, wire[n - 1].from - 1); }
    }
  }

  /** The consumer has taken all there is, and the buffer has room for a segment. */
  ghost predicate KeepsUp(r: Receiver)
    reads r, r.buf, r.buf.segs, r.buf.bytes
  {
    && r.Valid() && r.rmss + 1461 <= r.buf.size && 2 * 1461 <= r.buf.size
    && r.buf.Received() == r.buf.Consumed() + One(r.finReceived)
  }

  /** The same, for the verifier to take apart on demand. */
  ghost predicate UpToDate(r: Receiver)
    reads r, r.buf, r.buf.segs, r.buf.bytes
  {
    r.buf.segs.Length > 0 && forall x: Receiver {:trigger KeepsUp(x)} | x in {r} :: KeepsUp(x)
  }

  /** What a consumer that keeps up gets from a packet. */
  lemma TakenWhole(v: Rcv, known: bool, v': Rcv, finReceived: bool, size: nat, rmss: nat, stream: seq<byte>, p: Packet,
                   isn: int, finSent: bool, wnd: int, handler: seq<byte> -> nat, outcome: Outcome, limit: nat)
    requires PacketOk(p, stream, isn, finSent, wnd) && p.from >= 1
    requires Answered(v, known, v', finReceived, size, rmss, stream, p.from - 1, |p.text|, p.fin, handler, outcome,
                      limit)
    requires p.from <= Got(v) + 1 && Got(v) == Used(v) + One(known)
    requires if known then Got(v) == |stream| + 1 else Got(v) + 1461 <= v.base + size
    requires forall d: seq<byte> :: handler(d) == 0
    ensures |v'.segs| > 0 && Got(v') + 1 >= Max(Got(v) + 1, p.to) && Got(v') == Used(v') + One(finReceived)
  {
    SentIsReceivable(p, stream, isn, U32(isn + 1), finSent, wnd);
    if !outcome.Unacceptable? && !known {
      assert TextEffect(v, WithoutFin(v', finReceived), size, rmss, stream, p.from - 1, |p.text|, handler,
                        outcome.given, limit);
    }
  }

  /** A packet that lies behind the receive buffer. */
  lemma FarBehind(at: nat, size: nat, p: Packet, got: nat, stream: seq<byte>, isn: int, finSent: bool, wnd: int)
    requires PacketOk(p, stream, isn, finSent, wnd) && at <= got <= at + size <= at + 0x4000_0000
    requires p.from <= got + 1 && !InReach(at, size, p)
    ensures p.to <= got + 1
  {
    if p.from >= 1 { SentIsReceivable(p, stream, isn, U32(isn + 1), finSent, wnd); }
  }

  /** One packet that leaves no gap: a receiver whose consumer keeps up takes all of it. */
  method Feed(r: Receiver, p: Packet, at: nat, handler: seq<byte> -> nat,
              ghost isn: int, ghost finSent: bool, ghost wnd: int) returns (at': nat)
    requires UpToDate(r) == true && r.buf.isn == U32(isn + 1) && at == r.buf.base && (r.finReceived ==> finSent)
    requires PacketOk(p, r.buf.stream, isn, finSent, wnd)
    requires p.from <= r.buf.Received() + 1 && forall d: seq<byte> :: handler(d) == 0
    modifies r`finReceived, r.buf`cnt, r.buf`taken, r.buf`seqNum, r.buf`base, r.buf.segs, r.buf.bytes
    ensures UpToDate(r) == true && at' == r.buf.base && (r.finReceived ==> finSent)
    ensures r.buf.Received() + 1 >= Max(old(r.buf.Received()) + 1, p.to)
  {
    assert KeepsUp(r);
    ghost var v, known := r.Held(), r.finReceived;
    var outcome;
    ghost var limit;
    at', outcome, limit := Arrive(r, p, at, handler, isn, finSent, wnd);
    if !InReach(at, r.buf.size, p) {
      FarBehind(at, r.buf.size, p, Got(v), r.buf.stream, isn, finSent, wnd);
    } else {
      TakenWhole(v, known, r.Held(), r.finReceived, r.buf.size, r.rmss, r.buf.stream, p, isn, finSent, wnd, handler,
                 outcome, limit);
    }
  }

  /** Packets that leave no gap, arriving in this order. */
  method FeedAll(r: Receiver, packets: seq<Packet>, at: nat, handler: seq<byte> -> nat,
                 ghost isn: int, ghost finSent: bool, ghost wnd: int) returns (at': nat)
    requires UpToDate(r) == true && r.buf.isn == U32(isn + 1) && at == r.buf.base && (r.finReceived ==> finSent)
    requires WireOk(packets, r.buf.stream, isn, finSent, wnd) && GapFree(packets, r.buf.Received() + 1)
    requires forall d: seq<byte> :: handler(d) == 0
    modifies r`finReceived, r.buf`cnt, r.buf`taken, r.buf`seqNum, r.buf`base, r.buf.segs, r.buf.bytes
    ensures UpToDate(r) == true && at' == r.buf.base
    ensures r.buf.Received() + 1 >= Reach(packets, |packets|, old(r.buf.Received()) + 1)
  {
    ghost var from := r.buf.Received() + 1;
    at' := at;
    var i := 0;
    while i < |packets|
      invariant i <= |packets| && UpToDate(r) == true && at' == r.buf.base && (r.finReceived ==> finSent)
      invariant r.buf.Received() + 1 >= Reach(packets, i, from)
    {
      assert Joins(packets, i, from);
      at' := Feed(r, packets[i], at', handler, isn, finSent, wnd);
      i := i + 1;
    }
  }

  /** Packets that leave no gap, such as all those of a sender in the order they were
      sent, are taken completely, whatever else is repeated or overlaps, from any point
      of the connection on. */
  method ReplayInOrder(r: Receiver, packets: seq<Packet>, at: nat, handler: seq<byte> -> nat, ghost s: Sender)
    returns (at': nat)
    requires Connected(r, s) && KeepsUp(r) && at == r.buf.base
    requires (forall p: Packet :: p in packets ==> p in s.wire) && GapFree(packets, r.buf.Received() + 1)
    requires forall d: seq<byte> :: handler(d) == 0
    modifies r`finReceived, r.buf`cnt, r.buf`taken, r.buf`seqNum, r.buf`base, r.buf.segs, r.buf.bytes
    ensures KeepsUp(r) && at' == r.buf.base
    ensures r.buf.Received() + 1 >= Reach(packets, |packets|, old(r.buf.Received()) + 1)
    ensures r.buf.Consumed() <= |r.buf.stream| && r.buf.taken == r.buf.stream[..r.buf.Consumed()]
  {
    assert Right(s.Now());
    SelectionOk(packets, s.wire, s.st.stream, s.st.isn, s.st.finSent, s.wnd);
    at' := FeedAll(r, packets, at, handler, s.st.isn, s.st.finSent, s.wnd);
    assert KeepsUp(r);
  }
}
