/** What a sender puts on the wire: every packet is right, checksum included, and
    inside the peer's window, and the packets leave no gap. */
module SendWire {
  import opened Words
  import opened Checksum
  import opened SegmentChecksum
  import opened SendSpec

  /** A segment on the wire, with the positions it stands for. */
  datatype Packet = Packet(from: nat, to: nat, seqNum: uint32, text: seq<byte>, fin: bool,
                           stamp: Refresh, checksum: uint16)

  /** It carries exactly what the stream has at its sequence number, and no text past
      the right edge `wnd` of the peer's window. It is not too long, and the SYN travels
      alone. */
  ghost predicate PacketOk(p: Packet, stream: seq<byte>, isn: int, finSent: bool, wnd: int) {
    && p.from <= p.to <= |stream| + 1 + One(finSent) && p.seqNum == U32(isn + p.from)
    && p.text == Piece(stream, p.from, p.to) && (p.fin <==> p.from < p.to == |stream| + 2)
    && (p.text != [] ==> p.to <= wnd) && |p.text| <= 1460 && (p.from == 0 ==> p.to <= 1)
  }

  ghost predicate WireOk(wire: seq<Packet>, stream: seq<byte>, isn: int, finSent: bool, wnd: int) {
    forall i: nat :: i < |wire| ==> PacketOk(wire[i], stream, isn, finSent, wnd)
  }

  /** The log stays right when bytes are accepted, the FIN is queued or the window
      grows. */
  lemma WireStays(wire: seq<Packet>, stream: seq<byte>, isn: int, finSent: bool, wnd: int,
                  more: seq<byte>, finSent': bool, wnd': int)
    requires WireOk(wire, stream, isn, finSent, wnd) && wnd <= wnd'
    requires finSent ==> finSent' && more == []
    ensures WireOk(wire, stream + more, isn, finSent', wnd')
  {
    forall i: nat | i < |wire|
      ensures PacketOk(wire[i], stream + more, isn, finSent', wnd')
    {
      var p := wire[i];
      assert PacketOk(p, stream, isn, finSent, wnd);
      if finSent {
        assert stream + more == stream;
      } else {
        PieceGrows(stream, more, p.from, p.to);
      }
    }
  }

  // ---- no gaps ----

  /** Some packet carries position `pos`. */
  ghost predicate Out(wire: seq<Packet>, pos: nat) {
    exists i: nat :: i < |wire| && wire[i].from <= pos < wire[i].to
  }

  /** Exactly the positions before `upTo` have been on the wire. */
  ghost predicate OutUpTo(wire: seq<Packet>, upTo: nat) {
    forall pos: nat :: Out(wire, pos) <==> pos < upTo
  }

  /** Packet `i` begins no later than the ones before it end. */
  ghost predicate Follows(wire: seq<Packet>, i: nat)
    requires i < |wire|
  {
    wire[i].from == 0 || Out(wire[..i], wire[i].from - 1)
  }

  ghost predicate NoGaps(wire: seq<Packet>) {
    forall i: nat :: i < |wire| ==> Follows(wire, i)
  }

  lemma OneMoreOut(wire: seq<Packet>, upTo: nat, p: Packet)
    requires OutUpTo(wire, upTo) && NoGaps(wire) && p.from <= p.to && (p.from == upTo || p.to <= upTo)
    ensures OutUpTo(wire + [p], if p.from == upTo then p.to else upTo) && NoGaps(wire + [p])
  {
    var wire' := wire + [p];
    forall pos: nat
      ensures Out(wire', pos) <==> Out(wire, pos) || p.from <= pos < p.to
    {
      if Out(wire, pos) {
        var i: nat :| i < |wire| && wire[i].from <= pos < wire[i].to;
        assert wire'[i] == wire[i];
      }
      if p.from <= pos < p.to {
        assert wire'[|wire|] == p;
      }
    }
    forall i: nat | i < |wire'|
      ensures Follows(wire', i)
    {
      assert wire'[..i] == wire[..i];
      if i < |wire| {
        assert Follows(wire, i);
      } else {
        assert wire[..i] == wire;
        assert p.from == 0 || Out(wire, p.from - 1);
      }
    }
  }

  // ---- checksums ----

  /** The header of a segment of the connection. */
  function HeaderOf(c: Conn, seqNum: uint32, stamp: Refresh, fin: bool): (h: Header)
    requires c.flags < 0xff00
  {
    Header(c.srcIp, c.dstIp, c.srcPort, c.dstPort, seqNum, stamp.ackNum, c.flags + if fin then FIN_FLAG else 0,
           stamp.window, if c.hasTs then [c.tsHead, stamp.tsVal, stamp.tsEcr] else [])
  }

  ghost predicate Sealed(c: Conn, seqNum: uint32, stamp: Refresh, fin: bool, text: seq<byte>, checksum: uint16) {
    c.flags < 0xff00 && forall h: Header :: h == HeaderOf(c, seqNum, stamp, fin) ==> Verifies(h, text, checksum)
  }

  /** The checksum of a packet verifies at the receiver. (The SYN, with its options, is
      not of this form.) */
  ghost predicate PacketSealed(c: Conn, p: Packet) {
    p.from > 0 ==> Sealed(c, p.seqNum, p.stamp, p.fin, p.text, p.checksum)
  }

  ghost predicate WireSealed(c: Conn, wire: seq<Packet>) {
    forall i: nat :: i < |wire| ==> PacketSealed(c, wire[i])
  }

  /** So does the checksum in the buffer of a piece that has been sent. */
  ghost predicate SealOk(st: State, k: nat) {
    && k < |st.q| && st.q[k].len <= |st.q[k].text|
    && var slot := st.q[k];
    (k > 0 ==> Sealed(st.conn, slot.seqNum, slot.stamp, slot.fin, slot.text[..slot.len], slot.checksum))
  }

  ghost predicate SealsOk(st: State) {
    forall k: nat :: st.una <= k < st.next ==> SealOk(st, k)
  }

  lemma SealsStay(st: State, st': State)
    requires SealsOk(st) && st'.conn == st.conn && st.una <= st'.una && st'.next <= st.next
    requires forall k: nat :: st'.una <= k < st'.next ==> k < |st.q| && k < |st'.q| && st'.q[k] == st.q[k]
    ensures SealsOk(st')
  {
    forall k: nat | st'.una <= k < st'.next
      ensures SealOk(st', k)
    {
      assert SealOk(st, k);
    }
  }

  /** `sendBuf`: the checksum from the cached sum of the payload. */
  method Seal(c: Conn, seqNum: uint32, stamp: Refresh, fin: bool, len: nat, sum: uint32, ghost text: seq<byte>)
    returns (checksum: uint16)
    requires c.flags < 0xff00 && len == |text| <= 1460 && Summed(sum, text, fin)
    ensures Sealed(c, seqNum, stamp, fin, text, checksum)
  {
    var h := HeaderOf(c, seqNum, stamp, fin);
    AlignedIsWordSum(text);
    SentVerifies(h, c.flags, text, fin, sum);
    checksum := Fold(SentSum(h, c.flags, len, sum));
  }

  /** `resendUna`: the checksum patched for the new stamp. */
  method Reseal(c: Conn, seqNum: uint32, before: Refresh, stamp: Refresh, fin: bool, was: uint16, ghost text: seq<byte>)
    returns (checksum: uint16)
    requires c.flags < 0xff00
    ensures Sealed(c, seqNum, before, fin, text, was) ==> Sealed(c, seqNum, stamp, fin, text, checksum)
  {
    var h := HeaderOf(c, seqNum, before, fin);
    checksum := Patched(h, was, stamp);
    if Verifies(h, text, was) {
      PatchVerifies(h, text, was, stamp);
      assert Refreshed(h, stamp) == HeaderOf(c, seqNum, stamp, fin);
    }
  }

  // ---- packets of the ring ----

  /** What slot k puts on the wire. */
  ghost function PacketOf(st: State, k: nat): (p: Packet)
    requires k < |st.q| && k + 1 < |st.cuts| && st.q[k].len <= |st.q[k].text|
  {
    var slot := st.q[k];
    Packet(st.cuts[k], st.cuts[k + 1], slot.seqNum, slot.text[..slot.len], slot.fin, slot.stamp, slot.checksum)
  }

  /** A piece that has been sent is right whenever it is sent again. */
  lemma SentIsRight(st: State, k: nat, wnd: int, both: int)
    requires RingOk(st) && WindowOk(st, wnd, both) && st.una <= k < st.next
    ensures st.q[k].len <= |st.q[k].text|
    ensures PacketOk(PacketOf(st, k), st.stream, st.isn, st.finSent, wnd)
  {
    assert PieceOk(st, k);
    CutsMonotone(st, k + 1, st.next);
    CutsMonotone(st, k + 1, st.data + 1);
  }

  /** An acknowledgement has the next sequence number and no text. */
  ghost function AckPacket(st: State, stamp: Refresh, checksum: uint16): (p: Packet)
    requires st.next < |st.q| && st.next < |st.cuts|
  {
    Packet(st.cuts[st.next], st.cuts[st.next], st.q[st.next].seqNum, [], false, stamp, checksum)
  }

  // ---- the peer's window ----

  /** `wnd` is the largest right edge the peer has advertised, `both` what the
      congestion window leaves of it. Everything sent lies before `wnd`, except that a
      FIN sent alone may be one past it. */
  ghost predicate WindowOk(st: State, wnd: int, both: int)
    requires ShapeOk(st)
  {
    && st.n * st.cap <= 0x1000_0000 && st.cuts[st.una] - 1 <= both <= wnd <= st.cuts[st.next] + 0x5000_0000
    && (st.cuts[st.next] <= wnd || (FinOut(st) && st.cuts[st.next] == st.cuts[st.next - 1] + 1 == wnd + 1))
  }

  /** So 32-bit comparisons of positions in the ring with the window are right. */
  lemma WithinReach(st: State, wnd: int, both: int)
    requires RingOk(st) && WindowOk(st, wnd, both)
    ensures st.cuts[st.una] <= st.cuts[st.next] <= st.cuts[st.data + 1] <= st.cuts[st.una] + 0x1000_0000
  {
    CutsMonotone(st, st.una, st.next);
    CutsMonotone(st, st.next, st.data + 1);
    CutsBounded(st, st.data + 1 - st.una);
    ProductGrows(st.data + 1 - st.una, st.n, st.cap);
  }

  lemma ProductGrows(a: nat, b: nat, c: nat)
    requires a <= b
    ensures a * c <= b * c
  {
    assert (b - a) * c >= 0;
  }

  /** What a sender does to the node of its resend timer. */
  datatype TimerCall = Unlink | Link(duration: uint32)

  /** Is the node linked after these calls? */
  predicate Linked(calls: seq<TimerCall>) {
    |calls| > 0 && calls[|calls| - 1].Link?
  }

  /** The node is linked only when it is not. */
  ghost predicate Proper(calls: seq<TimerCall>) {
    forall i :: 0 < i < |calls| && calls[i].Link? ==> calls[i - 1].Unlink?
  }

  /** A sender between two operations: its state, what it has sent, and the windows. */
  datatype Moment = Moment(st: State, wire: seq<Packet>, wnd: int, both: int)

  /** The ring is in order; all that was sent was right and inside the window, and it
      reaches without gap up to piece `next`. */
  ghost predicate Right(m: Moment) {
    && RingOk(m.st) && WindowOk(m.st, m.wnd, m.both)
    && WireOk(m.wire, m.st.stream, m.st.isn, m.st.finSent, m.wnd) && LogOk(m.st, m.wire) == true
  }

  /** The same, said with a quantifier so that the verifier takes it apart only where
      `Right` is asked for. */
  ghost predicate SenderOk(m: Moment) {
    forall x: Moment :: x == m ==> Right(x)
  }

  ghost predicate LogOk(st: State, wire: seq<Packet>)
    requires ShapeOk(st)
  {
    && OutUpTo(wire, st.cuts[st.next]) && NoGaps(wire)
    && WireSealed(st.conn, wire) && SealsOk(st)
  }

  /** One more packet, of a piece of the ring in its new state. */
  lemma LogGrows(st: State, st': State, wire: seq<Packet>, p: Packet)
    requires ShapeOk(st) && ShapeOk(st') && LogOk(st, wire) && st'.conn == st.conn && SealsOk(st')
    requires p.from <= p.to && PacketSealed(st.conn, p)
    requires st'.cuts[st'.next] == if p.from == st.cuts[st.next] then p.to else st.cuts[st.next]
    requires p.from == st.cuts[st.next] || p.to <= st.cuts[st.next]
    ensures LogOk(st', wire + [p])
  {
    OneMoreOut(wire, st.cuts[st.next], p);
  }

  // ---- steps ----

  /** What sending the next piece puts on the wire. */
  ghost function NextPacket(st: State, len: nat, fin: bool, stamp: Refresh, checksum: uint16): (p: Packet)
    requires st.next < |st.q| && st.next + 1 < |st.cuts| && len <= |st.q[st.next].text|
  {
    Packet(st.cuts[st.next], st.cuts[st.next + 1], st.q[st.next].seqNum, st.q[st.next].text[..len], fin,
           stamp, checksum)
  }

  /** The new slot of the next piece is sealed, the older ones are as they were. */
  lemma SealsMore(st: State, st': State)
    requires SealsOk(st) && st'.conn == st.conn && st'.una == st.una && st'.next == st.next + 1
    requires forall k: nat :: st.una <= k < st.next ==> k < |st.q| && k < |st'.q| && st'.q[k] == st.q[k]
    requires SealOk(st', st.next)
    ensures SealsOk(st')
  {
    forall k: nat | st'.una <= k < st'.next
      ensures SealOk(st', k)
    {
      if k < st.next { assert SealOk(st, k); }
    }
  }

  /** The sum kept for a full queued piece is right. */
  lemma FullIsSummed(m: Moment)
    requires SenderOk(m) && Sizes(m.st) && m.st.next < m.st.data
    ensures |m.st.q[m.st.next].text| == m.st.cap
    ensures var slot := m.st.q[m.st.next];
            Summed(slot.stamp.ackNum, slot.text[..m.st.smss], slot.fin) == true
    ensures m.st.cuts[m.st.next + 1] == m.st.cuts[m.st.next] + m.st.smss
  {
    assert Right(m);
    assert PieceOk(m.st, m.st.next);
    CutsMonotone(m.st, m.st.next + 1, m.st.data);
  }

  /** So is that of the piece being filled. */
  lemma LastIsSummed(m: Moment)
    requires SenderOk(m) && Sizes(m.st) && m.st.next == m.st.data && m.st.dataSize > 0
    ensures |m.st.q[m.st.next].text| == m.st.cap
    ensures Summed(m.st.dataSum, m.st.q[m.st.next].text[..m.st.dataSize - One(m.st.finSent)], m.st.finSent) == true
  {
    assert Right(m);
    assert PieceOk(m.st, m.st.next);
    if m.st.finSent { PieceEnds(m.st.stream, m.st.cuts[m.st.data]); }
  }

  /** A piece that has been sent is sealed. */
  lemma OldestIsSealed(m: Moment)
    requires SenderOk(m) && Sizes(m.st) && m.st.una < m.st.next
    ensures SealOk(m.st, m.st.una)
  {
    assert Right(m);
  }

  /** Sending a piece that fits the window keeps the state right, and adds a right
      packet. */
  lemma SentFullStep(m: Moment, stamp: Refresh, checksum: uint16)
    requires SenderOk(m) && Sizes(m.st) && m.st.next < m.st.data && m.st.cuts[m.st.next] + m.st.smss <= m.both
    requires |m.st.q[m.st.next].text| == m.st.cap
    requires var slot := m.st.q[m.st.next];
             Sealed(m.st.conn, slot.seqNum, stamp, slot.fin, slot.text[..m.st.smss], checksum) == true
    ensures var p := NextPacket(m.st, m.st.smss, m.st.q[m.st.next].fin, stamp, checksum);
            && SenderOk(m.(st := SentFull(m.st, stamp, checksum), wire := m.wire + [p]))
            && Sizes(SentFull(m.st, stamp, checksum))
  {
    assert Right(m);
    var st := m.st;
    var st', p := SentFull(st, stamp, checksum), NextPacket(st, st.smss, st.q[st.next].fin, stamp, checksum);
    assert PieceOk(st, st.next);
    SentFullOk(st, stamp, checksum);
    SentIsRight(st', st.next, m.wnd, m.both);
    assert p == PacketOf(st', st.next);
    assert SealOk(st', st.next);
    SealsMore(st, st');
    LogGrows(st, st', m.wire, p);
  }

  lemma SentLastStep(m: Moment, stamp: Refresh, checksum: uint16)
    requires SenderOk(m) && Sizes(m.st) && m.st.next == m.st.data && m.st.dataSize > 0
    requires m.st.cuts[m.st.next] + m.st.dataSize <= m.wnd || (m.st.finSent && m.st.dataSize == 1)
    requires |m.st.q[m.st.next].text| == m.st.cap
    requires Sealed(m.st.conn, m.st.q[m.st.next].seqNum, stamp, m.st.finSent,
                    m.st.q[m.st.next].text[..m.st.dataSize - One(m.st.finSent)], checksum) == true
    ensures var p := NextPacket(m.st, m.st.dataSize - One(m.st.finSent), m.st.finSent, stamp, checksum);
            && SenderOk(m.(st := SentLast(m.st, stamp, checksum), wire := m.wire + [p]))
            && Sizes(SentLast(m.st, stamp, checksum))
  {
    assert Right(m);
    var st := m.st;
    var st', len := SentLast(st, stamp, checksum), st.dataSize - One(st.finSent);
    var p := NextPacket(st, len, st.finSent, stamp, checksum);
    assert PieceOk(st, st.next);
    SentLastOk(st, stamp, checksum);
    assert WindowOk(st', m.wnd, m.both);
    SentIsRight(st', st.next, m.wnd, m.both);
    assert p == PacketOf(st', st.next);
    assert SealOk(st', st.next);
    SealsMore(st, st');
    LogGrows(st, st', m.wire, p);
  }

  lemma AppendedStep(m: Moment, chunk: seq<byte>, sum: nat, text: seq<byte>)
    requires SenderOk(m) && Sizes(m.st) && Appends(m.st, chunk, sum, text)
    ensures m.st.dataSum + sum < TWO32 && SenderOk(m.(st := Appended(m.st, chunk, sum, text)))
    ensures Sizes(Appended(m.st, chunk, sum, text))
  {
    assert Right(m);
    AppendedOk(m.st, chunk, sum, text);
    WireStays(m.wire, m.st.stream, m.st.isn, m.st.finSent, m.wnd, chunk, m.st.finSent, m.wnd);
    SealsStay(m.st, Appended(m.st, chunk, sum, text));
  }

  lemma ClosedOffStep(m: Moment)
    requires SenderOk(m) && Sizes(m.st) && m.st.dataSize == m.st.smss && !m.st.finSent
    ensures SenderOk(m.(st := ClosedOff(m.st))) && Sizes(ClosedOff(m.st))
  {
    assert Right(m);
    ClosedOffOk(m.st);
    SealsStay(m.st, ClosedOff(m.st));
  }

  lemma FinQueuedStep(m: Moment)
    requires SenderOk(m) && Sizes(m.st)
    requires !m.st.finSent && m.st.data < m.st.una + m.st.n - 1 && m.st.dataSize < m.st.smss
    ensures m.st.dataSum + FIN_FLAG < TWO32 && SenderOk(m.(st := FinQueued(m.st)))
    ensures Sizes(FinQueued(m.st))
  {
    assert Right(m);
    FinQueuedOk(m.st);
    WireStays(m.wire, m.st.stream, m.st.isn, m.st.finSent, m.wnd, [], true, m.wnd);
    assert m.st.stream + [] == m.st.stream;
    SealsStay(m.st, FinQueued(m.st));
  }

  lemma AckSentStep(m: Moment, k: nat, stamp: Refresh, checksum: uint16)
    requires SenderOk(m) && Sizes(m.st) && m.st.data <= k < m.st.una + m.st.n
    requires Sealed(m.st.conn, m.st.q[m.st.next].seqNum, stamp, false, [], checksum) == true
    ensures SenderOk(m.(st := AckSent(m.st, k, stamp, checksum),
                        wire := m.wire + [AckPacket(m.st, stamp, checksum)]))
  {
    assert Right(m);
    var st, st', p := m.st, AckSent(m.st, k, stamp, checksum), AckPacket(m.st, stamp, checksum);
    AckSentOk(st, k, stamp, checksum);
    AckIsRight(st, stamp, checksum, m.wnd);
    SealsStay(st, st');
    LogGrows(st, st', m.wire, p);
  }

  lemma AckIsRight(st: State, stamp: Refresh, checksum: uint16, wnd: int)
    requires RingOk(st)
    ensures PacketOk(AckPacket(st, stamp, checksum), st.stream, st.isn, st.finSent, wnd)
  {
    NextNumbered(st);
    EmptyIsRight(AckPacket(st, stamp, checksum), st.stream, st.isn, st.finSent, wnd);
  }

  lemma NextNumbered(st: State)
    requires RingOk(st)
    ensures st.q[st.next].seqNum == U32(st.isn + st.cuts[st.next])
    ensures 1 <= st.cuts[st.next] <= |st.stream| + 1 + One(st.finSent)
  {
    assert PieceOk(st, st.next);
    CutsMonotone(st, st.next, st.data + 1);
  }

  lemma EmptyIsRight(p: Packet, stream: seq<byte>, isn: int, finSent: bool, wnd: int)
    requires 1 <= p.from == p.to <= |stream| + 1 + One(finSent)
    requires p.seqNum == U32(isn + p.from) && p.text == [] && !p.fin
    ensures PacketOk(p, stream, isn, finSent, wnd)
  {
    assert Piece(stream, p.from, p.to) == [];
  }

  lemma ReleasedStep(m: Moment)
    requires SenderOk(m) && Sizes(m.st) && m.both == m.wnd && m.st.una < m.st.next
    ensures SenderOk(m.(st := Released(m.st))) && Sizes(Released(m.st))
  {
    assert Right(m);
    ReleasedOk(m.st);
    CutsMonotone(m.st, m.st.una + 1, m.st.next);
    SealsStay(m.st, Released(m.st));
  }

  lemma ResentStep(m: Moment, stamp: Refresh, checksum: uint16)
    requires SenderOk(m) && Sizes(m.st) && m.st.una < m.st.next && SealOk(m.st, m.st.una)
    requires var slot := m.st.q[m.st.una];
             m.st.una > 0 ==> Sealed(m.st.conn, slot.seqNum, stamp, slot.fin, slot.text[..slot.len], checksum) == true
    ensures var st' := Resent(m.st, stamp, checksum);
            && m.st.una + 1 < |st'.cuts|
            && SenderOk(m.(st := st', wire := m.wire + [PacketOf(st', m.st.una)]))
  {
    assert Right(m);
    var st := m.st;
    var st' := Resent(st, stamp, checksum);
    assert PieceOk(st, st.una);
    ResentOk(st, stamp, checksum);
    CutsMonotone(st, st.una + 1, st.next);
    SentIsRight(st', st.una, m.wnd, m.both);
    ResentSeals(st, stamp, checksum);
    LogGrows(st, st', m.wire, PacketOf(st', st.una));
  }

  lemma ResentSeals(st: State, stamp: Refresh, checksum: uint16)
    requires SealsOk(st) && st.una < st.next && SealOk(st, st.una)
    requires var slot := st.q[st.una];
             st.una > 0 ==> Sealed(st.conn, slot.seqNum, stamp, slot.fin, slot.text[..slot.len], checksum)
    ensures SealsOk(Resent(st, stamp, checksum))
  {
    var st' := Resent(st, stamp, checksum);
    forall k: nat | st.una <= k < st.next
      ensures SealOk(st', k)
    {
      assert SealOk(st, k);
    }
  }

  /** A larger window, or a smaller share of it. */
  lemma WindowStep(m: Moment, wnd: int, both: int)
    requires SenderOk(m) && Sizes(m.st) && m.wnd <= wnd <= m.st.cuts[m.st.next] + 0x5000_0000
    requires m.st.cuts[m.st.una] - 1 <= both <= wnd
    ensures SenderOk(m.(wnd := wnd, both := both))
  {
    assert Right(m);
    WireStays(m.wire, m.st.stream, m.st.isn, m.st.finSent, m.wnd, [], m.st.finSent, wnd);
    assert m.st.stream + [] == m.st.stream;
  }

  /** Any share of the window that begins at the oldest piece. */
  lemma Share(m: Moment, both: int)
    requires SenderOk(m) && Sizes(m.st) && m.st.cuts[m.st.una] - 1 <= both <= m.wnd
    ensures SenderOk(m.(both := both))
  {
    assert Right(m);
  }

  lemma FullShare(m: Moment)
    requires SenderOk(m)
    ensures SenderOk(m.(both := m.wnd))
  {
    assert Right(m);
  }

  // ---- distances ----

  /** The sequence numbers of the next and of the oldest piece, and how far the windows
      can be from them. */
  lemma NextNear(m: Moment)
    requires SenderOk(m) && Sizes(m.st)
    ensures m.st.q[m.st.next].seqNum == U32(m.st.isn + m.st.cuts[m.st.next])
    ensures -0x5000_0000 <= m.st.cuts[m.st.next] - m.both <= 0x1000_0001
    ensures m.st.cuts[m.st.next] - 1 <= m.wnd <= m.st.cuts[m.st.next] + 0x5000_0000
    ensures m.st.cuts[m.st.una] - 1 <= m.both <= m.wnd
    ensures m.st.cuts[m.st.una] <= m.st.cuts[m.st.next] <= m.st.cuts[m.st.una] + 0x1000_0000
    ensures m.st.cuts[m.st.data + 1] == m.st.cuts[m.st.data] + m.st.dataSize == |m.st.stream| + 1 + One(m.st.finSent)
    ensures m.st.dataSize <= m.st.smss
  {
    assert Right(m);
    assert PieceOk(m.st, m.st.next);
    WithinReach(m.st, m.wnd, m.both);
  }

  lemma UnaNear(m: Moment)
    requires SenderOk(m) && Sizes(m.st)
    ensures m.st.q[m.st.una].seqNum == U32(m.st.isn + m.st.cuts[m.st.una])
    ensures -0x6000_0000 <= m.st.cuts[m.st.una] - m.wnd <= 1
  {
    assert Right(m);
    assert PieceOk(m.st, m.st.una);
    WithinReach(m.st, m.wnd, m.both);
  }

  /** The sequence number in the slot after the oldest piece is where that piece ends,
      less than 2^31 away from any acknowledgement in range. */
  lemma AckNear(m: Moment, a: int)
    requires SenderOk(m) && Sizes(m.st) && m.st.una < m.st.next
    requires m.st.cuts[m.st.una] - 0x2000_0000 <= a <= m.st.cuts[m.st.next] + 0x1000_0000
    ensures m.st.q[m.st.una + 1].seqNum == U32(m.st.isn + m.st.cuts[m.st.una + 1])
    ensures -TWO31 <= a - m.st.cuts[m.st.una + 1] < TWO31
  {
    assert Right(m);
    SecondNumbered(m.st);
    WithinReach(m.st, m.wnd, m.both);
  }

  lemma SecondNumbered(st: State)
    requires RingOk(st) && st.una < st.next
    ensures st.q[st.una + 1].seqNum == U32(st.isn + st.cuts[st.una + 1])
    ensures st.cuts[st.una] <= st.cuts[st.una + 1] <= st.cuts[st.next]
  {
    assert PieceOk(st, st.una + 1);
    CutsMonotone(st, st.una, st.una + 1);
    CutsMonotone(st, st.una + 1, st.next);
  }

  // ---- room ----

  /** The room left in a ring with `free` empty slots, in bytes, is not negative. */
  lemma Room(free: nat, n: nat, smss: nat, cap: nat, size: nat)
    requires free < n && size < smss <= cap && n * cap <= 0x4000_0000 && (free == 0 ==> size == 0)
    ensures 0 <= free * smss - size <= 0x4000_0000 && (free * smss - size == 0 <==> free == 0)
  {
    ProductGrows(free, n, smss);
    ProductGrows(smss, cap, n);
    if free > 0 {
      OneMore(free, smss);
      assert (free - 1) * smss >= 0;
    }
  }

  /** Filling a slot up uses exactly the room it had left. */
  lemma RoomUsed(free: nat, smss: nat, at: nat, size: nat)
    requires free > 0 && at + size <= smss
    ensures size <= free * smss - at && (at + size == smss ==> (free - 1) * smss == free * smss - at - size)
  {
    OneMore(free, smss);
    assert (free - 1) * smss >= 0;
  }

  // ---- the beginning ----

  /** The state right after the handshake: the SYN is sent and not yet acknowledged. */
  ghost function Opened(conn: Conn, n: nat, cap: nat, smss: nat, isn: uint32, q: seq<Slot>): (st: State) {
    State(conn, n, cap, smss, 0, 1, 1, 0, 0, false, isn, [], [0, 1, 1], q)
  }

  ghost predicate OpenSlot(q: seq<Slot>, cap: nat, k: nat)
    requires k < |q|
  {
    |q[k].text| == cap && !q[k].fin
  }

  lemma OpenedOk(conn: Conn, n: nat, cap: nat, smss: nat, isn: uint32, q: seq<Slot>, syn: Packet, wnd: int, both: int)
    requires conn.flags < 0xff00
    requires n >= 2 && 1 <= smss <= cap <= 1460 && cap % 2 == 0 && n * cap <= 0x1000_0000 && |q| == n
    requires forall k: nat :: k < n ==> OpenSlot(q, cap, k)
    requires q[0].seqNum == isn && q[1].seqNum == U32(isn + 1) && q[0].len == 0
    requires -1 <= both <= wnd && 1 <= wnd <= 0x4000_0001
    requires syn == Packet(0, 1, isn, [], false, syn.stamp, syn.checksum)
    ensures SenderOk(Moment(Opened(conn, n, cap, smss, isn, q), [syn], wnd, both))
  {
    var st := Opened(conn, n, cap, smss, isn, q);
    assert [] + [syn] == [syn];
    OneMoreOut([], 0, syn);
    forall k: nat | k < n
      ensures PieceOk(st, k)
    {
      assert OpenSlot(q, cap, k);
    }
    assert SealOk(st, 0);
  }
}
