/** The send path of a TCP connection: a ring of send buffers that are filled, sent
    when the windows allow it, kept until acknowledged, and sent again. */
module TcpSend {
  import opened Words
  import opened Checksum
  import opened SegmentChecksum
  import opened SendSpec
  import opened SendSlots
  import opened SendWire
  import opened SendRuns

  /** The timeout of the SYN. */
  const SYN_RTO: nat := 1000

  class Sender {
    const conn: Conn
    const n: nat
    const cap: nat
    const smss: nat
    const heads: array<Head>
    const mem: array<byte>
    var una: nat
    var next: nat
    var data: nat
    var dataSize: nat
    var dataSum: uint32
    var finSent: bool
    var sendWnd: uint32
    var bothWnd: uint32
    var rto: uint32
    var retries: nat
    // what has been done to the timer, and how many packets have been sent so far
    var calls: seq<TimerCall>
    var packets: nat
    ghost var st: State
    ghost var wire: seq<Packet>
    ghost var wnd: int
    ghost var both: int

    /** The fields are those of the state `st`, its slots are what memory holds. */
    ghost predicate Mirrored()
      reads this, heads, mem
    {
      Mirrors(st.q, heads[..], mem[..], n, cap, una)
    }

    ghost predicate Agrees()
      reads this
    {
      && st.conn == conn && st.n == n && st.cap == cap && st.smss == smss
      && st.una == una && st.next == next && st.data == data
      && st.dataSize == dataSize && st.dataSum == dataSum && st.finSent == finSent && packets == |wire|
    }

    ghost function Now(): (m: Moment)
      reads this
    {
      Moment(st, wire, wnd, both)
    }

    ghost predicate WindowsAgree()
      reads this
    {
      sendWnd == U32(st.isn + wnd) && bothWnd == U32(st.isn + both) && both <= wnd
    }

    /** The resend timer runs exactly while something is unacknowledged. */
    ghost predicate TimerOk()
      reads this
    {
      Proper(calls) == true && (Linked(calls) <==> una != next)
    }

    /** The ring is in order, every packet sent so far was right and inside the window,
        and the resend timer runs exactly while something is unacknowledged. */
    ghost predicate Filling()
      reads this, heads, mem
    {
      && Mirrored() == true && Agrees() && Sizes(st) && SenderOk(Now()) && WindowsAgree() && TimerOk()
    }

    ghost predicate Valid()
      reads this, heads, mem
    {
      Filling() && (finSent || dataSize < smss)
    }

    /** A connection right after the handshake: `isn` is the number of our SYN, which the
        peer's first segment acknowledges together with a window. */
    constructor (conn: Conn, n: nat, cap: nat, smss: nat, isn: uint32, synStamp: Refresh, synSum: uint16,
                 window: nat, congestion: bool, cwnd: uint32, rto: uint32)
      requires conn.flags < 0xff00
      requires n >= 2 && 1 <= smss <= cap <= 1460 && cap % 2 == 0 && n * cap <= 0x1000_0000
      requires window <= 0x4000_0000 && cwnd < 0x7fff_ffff
      ensures Valid() && st == Opened(conn, n, cap, smss, isn, st.q) && wnd == 1 + window && retries == 0
      ensures |wire| == 1 && calls == [Link(SYN_RTO)] && this.rto == rto
      ensures fresh(heads) && fresh(mem)
    {
      this.conn, this.n, this.cap, this.smss := conn, n, cap, smss;
      heads := new Head[n](k => Head(if k == 0 then isn else U32(isn + 1), synStamp, synSum, 0, false));
      mem := new byte[n * cap](_ => 0);
      una, next, data, dataSize, dataSum := 0, 1, 1, 0, 0;
      finSent, retries, calls, this.rto := false, 0, [Link(SYN_RTO)], rto;
      sendWnd := U32(isn + (1 + window));
      bothWnd := U32(isn + if congestion && cwnd < 1 + window then cwnd else 1 + window);
      wnd := 1 + window;
      both := if congestion && cwnd < 1 + window then cwnd else 1 + window;
      wire, packets := [Packet(0, 1, isn, [], false, synStamp, synSum)], 1;
      new;
      ghost var q := FreshSlots(heads[..], mem[..], n, cap);
      st := Opened(conn, n, cap, smss, isn, q);
      OpenedOk(conn, n, cap, smss, isn, q, wire[0], wnd, both);
    }

    // ---- headers ----

    method SetHead(k: nat, h: Head)
      requires Mirrored() == true && una <= k < una + n
      modifies heads, this`st
      ensures Mirrored() == true && k < |old(st).q|
      ensures st == old(st).(q := old(st).q[k := Filled(h, old(st).q[k].text)])
    {
      HeadWritten(st.q, heads[..], mem[..], n, cap, una, k, h);
      heads[k % n] := h;
      st := st.(q := st.q[k := Filled(h, st.q[k].text)]);
      assert heads[..] == old(heads[..])[k % n := h];
    }

    method GetHead(k: nat) returns (h: Head)
      requires Mirrored() == true && una <= k < una + n
      ensures k < |st.q| && |st.q[k].text| == cap && st.q[k] == Filled(h, st.q[k].text)
    {
      assert Mirror(st.q, heads[..], mem[..], n, cap, k);
      h := heads[k % n];
    }

    /** `startResendTimer`: links the node of the timer, which is not linked. */
    method StartResendTimer()
      requires Proper(calls) && !Linked(calls)
      modifies this`calls
      ensures Proper(calls) == true && calls == old(calls) + [Link(rto)]
    {
      calls := calls + [Link(rto)];
    }

    // ---- sending ----

    /** `sendBuf` and `advanceNext`: fills in the header of the next piece, which takes
        `inc` positions, hands its buffer over, and numbers the piece after it. The sum
        it is given is right for the text and the FIN flag, so the checksum verifies. The
        timer starts if nothing was in flight. */
    method SendNext(len: nat, fin: bool, sum: uint32, stamp: Refresh, inc: nat) returns (ghost checksum: uint16)
      requires Mirrored() == true && una <= next < una + n - 1 && TimerOk() && conn.flags < 0xff00
      requires next + 1 < |st.cuts| && st.next == next && next + 1 < |st.q| && len <= |st.q[next].text| <= 1460
      requires Summed(sum, st.q[next].text[..len], fin) == true
      modifies this`next, this`st, this`calls, this`wire, this`packets, heads
      ensures Mirrored() == true && next == old(next) + 1 && TimerOk()
      ensures calls == if old(next) == una then old(calls) + [Link(rto)] else old(calls)
      ensures Sealed(conn, old(st).q[old(next)].seqNum, stamp, fin, old(st).q[old(next)].text[..len], checksum) == true
      ensures st == SentNext(old(st), stamp, checksum, len, fin, inc)
      ensures wire == old(wire) + [NextPacket(old(st), len, fin, stamp, checksum)] && packets == old(packets) + 1
    {
      var h := GetHead(next);
      var c := Seal(conn, h.seqNum, stamp, fin, len, sum, st.q[next].text[..len]);
      checksum := c;
      SetHead(next, Head(h.seqNum, stamp, c, len, fin));
      wire, packets := wire + [NextPacket(st, len, fin, stamp, c)], packets + 1;
      if next == una {
        StartResendTimer();
      }
      var following := GetHead(next + 1);
      next := next + 1;
      SetHead(next, following.(seqNum := U32(h.seqNum + inc)));
      st := st.(next := next);
    }

    /** Sends the next piece, a full one, with the sum that was put aside for it. */
    method SendFull(stamp: Refresh) returns (ghost checksum: uint16)
      requires Filling() && next < data && st.cuts[next] + smss <= both
      modifies this`next, this`st, this`calls, this`wire, this`packets, heads
      ensures Filling() && st == SentFull(old(st), stamp, checksum)
      ensures LaterBy(old(Now()), Now(), stamp) == true && Within(st, both)
      ensures old(calls) <= calls
    {
      ghost var was := Now();
      var h := GetHead(next);
      FullIsSummed(was);
      checksum := SendNext(smss, h.fin, h.stamp.ackNum, stamp, smss);
      SentFullStep(was, stamp, checksum);
      FullIsLater(was, Now(), stamp, checksum, wire[|was.wire|]);
    }

    /** Begins a new piece. */
    method AdvanceData()
      requires Mirrored() == true && st.data == data && data + 1 < |st.cuts|
      modifies this`data, this`dataSize, this`dataSum, this`st
      ensures Mirrored() == true && st == NewPiece(old(st)) && data == old(data) + 1 && dataSize == 0 && dataSum == 0
    {
      data, dataSum, dataSize := data + 1, 0, 0;
      st := NewPiece(st);
    }

    /** Sends the piece being filled, which is also the next one, with its FIN flag. */
    method SendLast(stamp: Refresh) returns (ghost checksum: uint16)
      requires Filling() && next == data && dataSize > 0
      requires st.cuts[next] + dataSize <= wnd || (finSent && dataSize == 1)
      modifies this`next, this`data, this`dataSize, this`dataSum, this`st, this`calls, this`wire, this`packets, heads
      ensures Filling() && dataSize == 0 && st == SentLast(old(st), stamp, checksum)
      ensures Within(st, old(st.cuts[next] + dataSize)) == true
      ensures Stamped(old(wire), wire, stamp) == true && old(calls) <= calls
      ensures old(st.cuts[next] + dataSize) <= wnd ==> Later(old(Now()), Now()) == true
    {
      ghost var was := Now();
      LastIsSummed(was);
      checksum := PushLast(stamp);
      SentLastStep(was, stamp, checksum);
      LastIsLater(was, Now(), stamp, checksum, wire[|was.wire|]);
    }

    /** The writing part of it. */
    method PushLast(stamp: Refresh) returns (ghost checksum: uint16)
      requires Mirrored() == true && una <= next == data < una + n - 1 && TimerOk() && conn.flags < 0xff00
      requires next + 1 < |st.cuts| && st.next == next && st.data == data && next + 1 < |st.q| && dataSize > 0
      requires st.dataSize == dataSize && st.finSent == finSent && dataSize <= |st.q[next].text| <= 1460
      requires Summed(dataSum, st.q[next].text[..dataSize - One(finSent)], finSent) == true
      modifies this`next, this`data, this`dataSize, this`dataSum, this`st, this`calls, this`wire, this`packets, heads
      ensures Mirrored() == true && TimerOk() && old(calls) <= calls
      ensures next == data == old(next) + 1 && dataSize == 0 && dataSum == 0
      ensures Sealed(conn, old(st).q[old(next)].seqNum, stamp, finSent,
                     old(st).q[old(next)].text[..old(dataSize) - One(finSent)], checksum) == true
      ensures st == SentLast(old(st), stamp, checksum)
      ensures wire == old(wire) + [NextPacket(old(st), old(dataSize) - One(finSent), finSent, stamp, checksum)]
      ensures packets == old(packets) + 1
    {
      checksum := SendNext(dataSize - One(finSent), finSent, dataSum, stamp, dataSize);
      AdvanceData();
    }

    /** Puts a full piece aside that cannot be sent yet, its sum in its header. */
    method CloseOff()
      requires Filling() && !finSent && dataSize == smss
      modifies this`data, this`dataSize, this`dataSum, this`st, heads
      ensures Filling() && dataSize == 0 && st == ClosedOff(old(st))
    {
      ghost var was := st;
      ClosedOffStep(Now());
      var h := GetHead(data);
      SetHead(data, h.(stamp := h.stamp.(ackNum := dataSum)));
      AdvanceData();
    }

    /** Does `size` more after the sent pieces stay inside both windows? */
    method Fits(size: nat) returns (ok: bool)
      requires Filling() && size <= smss
      ensures ok <==> st.cuts[next] + size <= both
    {
      NextNear(Now());
      var h := GetHead(next);
      assert U32(h.seqNum + size) == U32(st.isn + (st.cuts[next] + size)) by { WrapAdd(st.isn + st.cuts[next], size); }
      ok := NotBefore(bothWnd, U32(h.seqNum + size), st.isn, both, st.cuts[next] + size);
    }

    /** Copies a chunk to the memory of piece `data`. */
    method CopyText(chunk: seq<byte>) returns (sum: uint32, ghost text: seq<byte>)
      requires Mirrored() == true && una <= data < una + n
      requires cap % 2 == 0 && cap < TWO32 && 1 <= |chunk| <= cap - dataSize
      modifies this`st, mem
      ensures Mirrored() == true && data < |old(st).q| && |old(st).q[data].text| == |text| == cap
      ensures st == old(st).(q := old(st).q[data := old(st).q[data].(text := text)])
      ensures text[..dataSize + |chunk|] == old(st).q[data].text[..dataSize] + chunk
      ensures Cong(sum, AlignedSum(chunk, dataSize % 2 == 1)) && sum <= 131070 + |chunk| / 4
    {
      ghost var mem0, q0 := mem[..], st.q;
      SlotFits(data % n, n, cap);
      SlotParity(data % n, cap, dataSize);
      sum := CopyAndSum(mem, data % n * cap + dataSize, chunk);
      TextWritten(q0, heads[..], mem0, mem[..], n, cap, una, data, dataSize, chunk);
      text := SlotMem(mem[..], cap, n, data % n);
      st := st.(q := q0[data := q0[data].(text := text)]);
    }

    /** Appends a chunk to the piece being filled. */
    method Append(chunk: seq<byte>)
      requires Filling() && !finSent && data < una + n - 1 && 1 <= |chunk| <= smss - dataSize
      modifies this`dataSize, this`dataSum, this`st, mem
      ensures Filling() && dataSize == old(dataSize) + |chunk| && st.stream == old(st.stream) + chunk
      ensures st.isn == old(st.isn)
    {
      ghost var was := Now();
      var sum;
      ghost var text;
      sum, text := CopyText(chunk);
      AppendedStep(was, chunk, sum, text);
      assert st.q == Appended(was.st, chunk, sum, text).q;
      dataSize, dataSum := dataSize + |chunk|, dataSum + sum;
      st := Appended(was.st, chunk, sum, text);
    }

    // ---- accepting data ----

    /** `getSendable`: never negative, and small enough for 32 bits. */
    function Sendable(): (size: nat)
      requires Valid()
      reads this, heads, mem
      ensures size <= 0x4000_0000 && (size == 0 <==> finSent || data == una + n - 1)
    {
      if finSent then 0
      else
        assert Right(Now());
        Room(una + n - 1 - data, n, smss, cap, dataSize);
        (una + n - 1 - data) * smss - dataSize
    }

    /** All accepted bytes but those of the piece being filled are sent, and the windows
        have room for these and `more`. */
    ghost predicate RoomFor(more: nat)
      reads this
    {
      data == next && |st.stream| + 1 + more <= both
    }

    /** After an append: sends the piece or puts it aside, if it is full or the last. */
    method Settle(last: bool, stamp: Refresh)
      requires Filling() && !finSent && 0 < dataSize
      modifies this`next, this`data, this`dataSize, this`dataSum, this`st, this`calls, this`wire, this`packets, heads
      ensures Valid() && !finSent && st.stream == old(st.stream) && LaterBy(old(Now()), Now(), stamp)
      ensures if dataSize == 0 then data == old(data) + 1 else data == old(data) && dataSize == old(dataSize)
      ensures dataSize == 0 <==> old(dataSize) == smss || (last && old(RoomFor(0)))
      ensures old(RoomFor(0)) ==> next == data
      ensures old(calls) <= calls
    {
      var can := false;
      if data == next {
        can := Fits(dataSize);
      }
      if dataSize == smss || (last && can) {
        if can {
          ghost var c := SendLast(stamp);
        } else {
          CloseOff();
        }
      }
    }

    /** One round of filling: puts in as much of `d` as the piece being filled can take. */
    method Fill(d: seq<byte>, last: bool, stamp: Refresh) returns (size: nat)
      requires Valid() && !finSent && d != [] && data < una + n - 1
      modifies this`next, this`data, this`dataSize, this`dataSum, this`st, this`calls, this`wire, this`packets,
               heads, mem
      ensures Valid() == true && !finSent && 0 < size <= |d| && LaterBy(old(Now()), Now(), stamp) == true
      ensures st.stream == old(st.stream) + d[..size]
      ensures size <= old(Sendable()) && (size < |d| || !last ==> size + Sendable() == old(Sendable()))
      ensures old(RoomFor(|d|)) ==> RoomFor(|d| - size) && (last && size == |d| ==> dataSize == 0)
      ensures old(calls) <= calls
    {
      ghost var free, at := una + n - 1 - data, dataSize;
      size := if smss - dataSize < |d| then smss - dataSize else |d|;
      RoomUsed(free, smss, at, size);
      Append(d[..size]);
      Settle(last, stamp);
    }

    /** Accepts as much of `d` as the ring has room for. `last` asks for what is left in
        the last, partly filled piece to be sent as well, if the windows allow it. */
    method SendPartial(d: seq<byte>, last: bool, stamp: Refresh) returns (done: nat)
      requires Valid() && !finSent
      modifies this`next, this`data, this`dataSize, this`dataSum, this`st, this`calls, this`wire, this`packets,
               heads, mem
      ensures Valid() && !finSent && LaterBy(old(Now()), Now(), stamp)
      // a prefix of `d`, exactly as long as there was room for, is now part of the stream
      ensures done == Min(|d|, old(Sendable()))
      ensures st.stream == old(st.stream) + d[..done]
      ensures !last ==> done + Sendable() == old(Sendable())
      // and all of it has been sent if it fitted the windows
      ensures last && d != [] && old(RoomFor(|d|)) && |d| <= old(Sendable()) ==> next == data && dataSize == 0
      ensures old(calls) <= calls
    {
      ghost var was, had, room, fits := Now(), st.stream, Sendable(), RoomFor(|d|);
      done := 0;
      while done < |d| && una + n - 1 != data
        invariant Valid() == true && !finSent && una == old(una) && done <= |d| && LaterBy(was, Now(), stamp) == true
        invariant old(calls) <= calls
        invariant st.stream == had + d[..done]
        invariant done <= room && (done < |d| || !last ==> done + Sendable() == room)
        invariant fits ==> RoomFor(|d| - done) && (last && 0 < done == |d| ==> dataSize == 0)
        decreases |d| - done
      {
        ghost var mid := Now();
        var size := Fill(d[done..], last, stamp);
        LaterByAgain(was, mid, Now(), stamp);
        PrefixExtended(d, done, size);
        done := done + size;
      }
    }

    method Send(d: seq<byte>, more: bool, stamp: Refresh) returns (done: nat)
      requires Valid()
      modifies this`next, this`data, this`dataSize, this`dataSum, this`st, this`calls, this`wire, this`packets,
               heads, mem
      ensures Valid() && LaterBy(old(Now()), Now(), stamp)
      ensures done == Min(|d|, old(Sendable()))
      ensures st.stream == old(st.stream) + d[..done]
      ensures !more && 0 < |d| <= old(Immediate()) ==> next == data && dataSize == 0
      ensures more && !old(finSent) ==> !finSent && done + Sendable() == old(Sendable())
      ensures old(calls) <= calls
    {
      if finSent {
        return 0;
      }
      done := SendPartial(d, !more, stamp);
    }

    /** What is accepted and sent at once. */
    ghost function Immediate(): (size: nat)
      requires Valid()
      reads this, heads, mem
    {
      if data != next || both < |st.stream| + 1 then 0
      else if both - |st.stream| - 1 < Sendable() then both - |st.stream| - 1 else Sendable()
    }

    method GetImmediatelySendable() returns (size: nat)
      requires Valid()
      ensures size == Immediate()
    {
      if data != next {
        return 0;
      }
      NextNear(Now());
      var h := GetHead(next);
      var room := Distance(bothWnd, h.seqNum, dataSize, st.isn, both, st.cuts[next]);
      size := Min(Max(0, room), Sendable());
    }

    /** Accepts a prefix of the concatenation of several buffers. */
    method Sendv(iov: seq<seq<byte>>, stamp: Refresh) returns (total: nat)
      requires Valid()
      modifies this`next, this`data, this`dataSize, this`dataSum, this`st, this`calls, this`wire, this`packets,
               heads, mem
      ensures Valid() && LaterBy(old(Now()), Now(), stamp)
      ensures var d := Flat(iov);
              && total == Min(|d|, old(Sendable()))
              && st.stream == old(st.stream) + d[..total]
      ensures old(calls) <= calls
    {
      total := 0;
      if finSent {
        return;
      }
      ghost var room, had := Sendable(), st.stream;
      var i := 0;
      while i < |iov|
        invariant i <= |iov| && Valid() && !finSent && LaterBy(old(Now()), Now(), stamp)
        invariant old(calls) <= calls
        invariant total == Min(|Flat(iov[..i])|, room) && (i < |iov| ==> total + Sendable() == room)
        invariant st.stream == had + Flat(iov[..i])[..total]
      {
        FlatNext(iov, i);
        PrefixJoined(had, Flat(iov[..i]), iov[i], room);
        ghost var mid := Now();
        var size := SendPartial(iov[i], i + 1 == |iov|, stamp);
        LaterByAgain(old(Now()), mid, Now(), stamp);
        total := total + size;
        i := i + 1;
      }
      assert iov[..|iov|] == iov;
    }

    /** Queues the FIN, and sends it at once if nothing else is waiting, whatever the
        windows say. A full ring has no place for it: the connection is to be closed. */
    method SendFin(stamp: Refresh) returns (closed: bool)
      requires Valid()
      modifies this`next, this`data, this`dataSize, this`dataSum, this`finSent, this`st, this`calls, this`wire,
               this`packets, heads
      ensures Valid() && st.stream == old(st.stream) && LaterBy(old(Now()), Now(), stamp)
      ensures closed <==> !old(finSent) && old(Sendable()) == 0
      ensures closed || old(finSent) ==> st == old(st) && wire == old(wire)
      ensures !closed ==> finSent
      ensures !closed && !old(finSent) ==> (FinOut(st) <==> old(next) == old(data) && old(dataSize) == 0)
      ensures !closed && !old(finSent) && !FinOut(st) ==>
                && data + 1 < |old(st).cuts| && old(st.dataSum) + FIN_FLAG < TWO32
                && st == FinQueued(old(st)) && wire == old(wire)
      ensures old(calls) <= calls
    {
      if finSent {
        return false;
      }
      if una + n - 1 == data {
        return true;
      }
      closed := false;
      FinQueuedStep(Now());
      finSent := true;
      dataSum := dataSum + FIN_FLAG;
      dataSize := dataSize + 1;
      st := FinQueued(st);
      if data == next && dataSize == 1 {
        ghost var c := SendLast(stamp);
      }
    }

    /** Sends an acknowledgement from a slot the card is done with; such a slot is free,
        none of the unacknowledged pieces uses it. */
    method SendAck(avail: nat -> bool, stamp: Refresh) returns (sent: bool)
      requires Valid()
      modifies this`st, this`wire, this`packets, heads
      ensures Valid() && LaterBy(old(Now()), Now(), stamp) && st.stream == old(st.stream)
      ensures sent <==> exists k: nat :: data <= k < una + n && avail(k % n)
      ensures |wire| == |old(wire)| + One(sent)
      ensures sent ==> var p := wire[|old(wire)|]; p.from == p.to && p.text == [] && !p.fin && p.stamp == stamp
    {
      var idx := una + n;
      while idx > data
        invariant data <= idx <= una + n
        invariant forall k: nat :: idx <= k < una + n ==> !avail(k % n)
      {
        idx := idx - 1;
        if avail(idx % n) {
          ghost var c := EmitAck(idx, stamp);
          return true;
        }
      }
      sent := false;
    }

    method EmitAck(k: nat, stamp: Refresh) returns (ghost checksum: uint16)
      requires Valid() && data <= k < una + n
      modifies this`st, this`wire, this`packets, heads
      ensures Valid() && k < |old(st).q| && next < |old(st).q| && st == AckSent(old(st), k, stamp, checksum)
      ensures next < |old(st).cuts| && wire == old(wire) + [AckPacket(old(st), stamp, checksum)]
    {
      ghost var was := Now();
      var h := GetHead(next);
      var c := Seal(conn, h.seqNum, stamp, false, 0, 0, []);
      checksum := c;
      wire, packets := wire + [AckPacket(st, stamp, c)], packets + 1;
      SetHead(k, Head(h.seqNum, stamp, c, 0, false));
      AckSentStep(was, k, stamp, c);
    }

    // ---- acknowledgements ----

    /** While an acknowledgement is processed, the congestion window is out of date. */
    ghost predicate Acking()
      reads this, heads, mem
    {
      && Mirrored() == true && Agrees() && Sizes(st) && (finSent || dataSize < smss)
      && sendWnd == U32(st.isn + wnd) && SenderOk(Now().(both := wnd))
    }

    /** `a` is the position that is acknowledged: not too old, and not too far beyond what
        has been sent for 32-bit comparison. */
    ghost predicate AckInRange(ackNum: uint32, a: int)
      reads this
    {
      && una < |st.cuts| && next < |st.cuts|
      && ackNum == U32(st.isn + a) && st.cuts[una] - 0x2000_0000 <= a <= st.cuts[next] + 0x1000_0000
    }

    /** The right edge of the window never moves left, and not at all after the FIN is
        queued. */
    method UpdateWindow(ackNum: uint32, window: nat, ghost a: int) returns (updated: bool)
      requires Valid() && AckInRange(ackNum, a) && window <= 0x4000_0000
      modifies this`sendWnd, this`wnd
      ensures Acking() && Later(old(Now()), Now())
      ensures wnd == if finSent || a + window < old(wnd) then old(wnd) else a + window
      ensures updated <==> wnd != old(wnd)
    {
      NextNear(Now());
      updated := false;
      FullShare(Now());
      if !finSent {
        var newWnd := U32(ackNum + window);
        assert newWnd == U32(st.isn + (a + window)) by { WrapAdd(st.isn + a, window); }
        updated := After(newWnd, sendWnd, st.isn, a + window, wnd);
        if updated {
          WindowStep(Now(), a + window, a + window);
          sendWnd := newWnd;
          wnd := a + window;
        }
      }
    }

    /** Frees the slot of the oldest piece. */
    method Release()
      requires Acking() && una < next
      modifies this`una, this`st
      ensures Acking() && una == old(una) + 1 && old(una) < |old(st).q| && st == Released(old(st))
    {
      ReleasedStep(Now().(both := wnd));
      SlotFreed(st.q, heads[..], mem[..], n, cap, una);
      una := una + 1;
      st := Released(st);
    }

    /** Is the oldest piece acknowledged? */
    method OldestCovered(ackNum: uint32, ghost a: int) returns (covered: bool)
      requires Acking() && una < next && AckInRange(ackNum, a)
      ensures covered <==> Covered(st.cuts, una, a)
    {
      AckNear(Now().(both := wnd), a);
      var h := GetHead(una + 1);
      covered := NotBefore(ackNum, h.seqNum, st.isn, a, st.cuts[una + 1]);
    }

    /** Releases the pieces the acknowledgement covers, exactly these. An acknowledgement
        of what has not been sent releases all that has. */
    method Acknowledge(ackNum: uint32, ghost a: int)
      requires Acking() && AckInRange(ackNum, a)
      modifies this`una, this`st
      ensures Acking() && AckTaken(old(st), st, a)
    {
      while una != next
        invariant Acking() && old(una) <= una <= next && ackNum == U32(st.isn + a)
        invariant una < |st.cuts| && next < |st.cuts|
        invariant a <= st.cuts[next] + 0x1000_0000 && (una == old(una) || st.cuts[una] <= a)
        invariant una == old(una) ==> st.cuts[una] - 0x2000_0000 <= a
        invariant st == old(st).(una := una, q := st.q)
        invariant forall k: nat :: old(una) <= k < una ==> Covered(st.cuts, k, a)
        decreases next - una
      {
        var covered := OldestCovered(ackNum, a);
        if !covered {
          break;
        }
        Release();
      }
    }

    /** The smaller one of the congestion window (if there is one) and the peer's. */
    method UpdateBoth(congestion: bool, cwnd: uint32)
      requires Acking() && cwnd < 0x7fff_ffff
      modifies this`bothWnd, this`both
      ensures SenderOk(Now()) && WindowsAgree()
      ensures una < |st.cuts| && both == SendEdge(st, una, wnd, congestion, cwnd)
    {
      bothWnd := sendWnd;
      both := wnd;
      if congestion {
        UnaNear(Now());
        var h := GetHead(una);
        var cwndSeq := U32(h.seqNum + cwnd);
        assert cwndSeq == U32(st.isn + (st.cuts[una] + cwnd)) by { WrapAdd(st.isn + st.cuts[una], cwnd); }
        var enough := NotBefore(cwndSeq, sendWnd, st.isn, st.cuts[una] + cwnd, wnd);
        if !enough {
          Share(Now(), st.cuts[una] + cwnd);
          bothWnd := cwndSeq;
          both := st.cuts[una] + cwnd;
        }
      }
    }

    /** Sends the next waiting piece, if there is one and the windows allow it. */
    method SendWaiting(stamp: Refresh) returns (more: bool)
      requires Valid()
      modifies this`next, this`data, this`dataSize, this`dataSum, this`st, this`calls, this`wire, this`packets, heads
      ensures Valid() && LaterBy(old(Now()), Now(), stamp)
      ensures st.stream == old(st.stream) && st.finSent == old(st.finSent) && old(st.cuts) <= st.cuts
      ensures if more then next == old(next) + 1 else Now() == old(Now()) && Idle(st, both)
      ensures more ==> data - next < old(data) - old(next) || (data == next && old(data) == old(next))
      ensures more && old(data) == old(next) ==> dataSize == 0 < old(dataSize)
      ensures more ==> Within(st, both)
      ensures old(calls) <= calls
    {
      var size := if data == next then dataSize else smss;
      more := false;
      if size != 0 {
        more := Fits(size);
      }
      if more {
        if data == next {
          ghost var c := SendLast(stamp);
        } else {
          ghost var c := SendFull(stamp);
        }
      }
    }

    /** Sends what has been waiting, piece by piece, as far as the windows allow. */
    method SendUnsent(stamp: Refresh)
      requires Valid()
      modifies this`next, this`data, this`dataSize, this`dataSum, this`st, this`calls, this`wire, this`packets, heads
      ensures Valid() && Idle(st, both) && LaterBy(old(Now()), Now(), stamp)
      ensures next == old(next) || Within(st, both)
      ensures st.stream == old(st.stream) && st.finSent == old(st.finSent) && old(st.cuts) <= st.cuts
      ensures old(calls) <= calls
    {
      var more := true;
      while more
        invariant Valid() && (more || Idle(st, both)) && LaterBy(old(Now()), Now(), stamp)
        invariant old(calls) <= calls
        invariant next == old(next) || Within(st, both)
        invariant st.stream == old(st.stream) && st.finSent == old(st.finSent) && old(st.cuts) <= st.cuts
        decreases more, data - next, dataSize
      {
        ghost var mid := Now();
        more := SendWaiting(stamp);
        LaterByAgain(old(Now()), mid, Now(), stamp);
      }
    }

    /** Writes a new stamp into the oldest piece and patches its checksum accordingly. */
    method Restamp(stamp: Refresh) returns (ghost checksum: uint16)
      requires Mirrored() == true && conn.flags < 0xff00 && n > 0 && st.una == una && SealOk(st, una)
      requires st.conn == conn
      modifies this`st, heads
      ensures Mirrored() == true && st == Resent(old(st), stamp, checksum)
      ensures var slot := old(st).q[una];
              una > 0 ==> Sealed(conn, slot.seqNum, stamp, slot.fin, slot.text[..slot.len], checksum) == true
    {
      var h := GetHead(una);
      var c := Reseal(conn, h.seqNum, h.stamp, stamp, h.fin, h.checksum, st.q[una].text[..h.len]);
      checksum := c;
      SetHead(una, h.(stamp := stamp, checksum := c));
    }

    /** `resendUna`: the oldest piece as it was, but for the stamp. The counter of retries
        has five bits. */
    method Resend(stamp: Refresh) returns (ghost checksum: uint16)
      requires Acking() && una < next
      modifies this`st, this`wire, this`packets, this`retries, heads
      ensures Acking() && una + 1 < |old(st).cuts| && una < |old(st).q| && st == Resent(old(st), stamp, checksum)
      ensures st.q[una].len <= |st.q[una].text| && wire == old(wire) + [PacketOf(st, una)]
      ensures retries == (old(retries) + 1) % 32
    {
      ghost var was := Now().(both := wnd);
      retries := (retries + 1) % 32;
      OldestIsSealed(was);
      checksum := Restamp(stamp);
      ResentStep(was, stamp, checksum);
      wire, packets := wire + [PacketOf(st, una)], packets + 1;
    }

    /** The timer is stopped when something is newly acknowledged, and runs again, with the
        new timeout, if more is in flight. */
    method RestartTimer(advanced: bool, newRto: uint32)
      requires Proper(calls) && (advanced || TimerOk())
      modifies this`calls, this`retries, this`rto
      ensures TimerOk() && old(calls) <= calls
      ensures rto == if advanced then newRto else old(rto)
      ensures retries == if advanced then 0 else old(retries)
      ensures calls == old(calls) + if !advanced then [] else if una != next then [Unlink, Link(newRto)] else [Unlink]
    {
      if advanced {
        retries := 0;
        rto := newRto;
        calls := calls + [Unlink];
        if una != next {
          StartResendTimer();
        }
      }
    }

    /** What an acknowledgement of everything before position `a` says about the ring:
        the pieces it covers are released, exactly these, and the window grows, unless
        the FIN has been queued. */
    method TakeAck(ackNum: uint32, window: nat, newRto: uint32, ghost a: int)
      requires Valid() && AckInRange(ackNum, a) && window <= 0x4000_0000
      modifies this`una, this`st, this`sendWnd, this`wnd, this`calls, this`retries, this`rto
      ensures Acking() && TimerOk() && AckTaken(old(st), st, a) && Later(old(Now()), Now())
      ensures wnd == if finSent || a + window < old(wnd) then old(wnd) else a + window
      ensures retries == if una != old(una) then 0 else old(retries)
      ensures rto == if una != old(una) then newRto else old(rto)
      ensures old(calls) <= calls
    {
      var updated := UpdateWindow(ackNum, window, a);
      var oldUna := una;
      Acknowledge(ackNum, a);
      RestartTimer(oldUna != una, newRto);
    }

    /** Resends the oldest piece if that is asked for and there is one. */
    method ResendIf(resend: bool, stamp: Refresh)
      requires Acking() && TimerOk()
      modifies this`st, this`wire, this`packets, this`retries, heads
      ensures Acking() && LaterBy(old(Now()), Now(), stamp) && st.stream == old(st.stream) && st.cuts == old(st.cuts)
      ensures st.finSent == old(st.finSent)
      ensures resend && una != next ==> SentAgain(old(wire), wire, old(st), una) == true
    {
      if resend && una != next {
        ghost var c := Resend(stamp);
      }
    }

    /** What is sent after that. Whether to resend, and the congestion windows for this
        and for later, are the congestion control's decisions. */
    method SendMore(resend: bool, congestion: bool, cwnd: uint32, later: uint32, stamp: Refresh)
      returns (ghost edge: int)
      requires Acking() && TimerOk() && cwnd < 0x7fff_ffff && later < 0x7fff_ffff
      modifies this`next, this`data, this`dataSize, this`dataSum, this`st, this`calls, this`retries, this`wire,
               this`packets, this`bothWnd, this`both, heads
      ensures Valid() && LaterBy(old(Now()), Now(), stamp) == true
      ensures st.stream == old(st.stream) && st.finSent == old(st.finSent)
      ensures una < |old(st).cuts| && edge == SendEdge(old(st), una, wnd, congestion, cwnd) && Idle(st, edge) == true
      ensures both == SendEdge(old(st), una, wnd, congestion, later) && (next == old(next) || Within(st, edge))
      ensures resend && una != old(next) ==> SentAgain(old(wire), wire, old(st), una) == true
      ensures old(calls) <= calls
    {
      ghost var was := Now();
      ResendIf(resend, stamp);
      ghost var mid := Now();
      edge := SendUnder(congestion, cwnd, stamp);
      StillSentAgain(was, mid, Now(), stamp, una);
      SetLater(congestion, later, was);
    }

    /** The windows from now on. */
    method SetLater(congestion: bool, later: uint32, ghost was: Moment)
      requires Valid() && later < 0x7fff_ffff && una < |was.st.cuts| && was.st.cuts <= st.cuts
      requires !congestion ==> both == wnd
      modifies this`bothWnd, this`both
      ensures Valid() && both == SendEdge(was.st, una, wnd, congestion, later)
    {
      if congestion {
        FullShare(Now());
        UpdateBoth(congestion, later);
      }
    }

    /** Sends what fits the window for now. */
    method SendUnder(congestion: bool, cwnd: uint32, stamp: Refresh) returns (ghost edge: int)
      requires Acking() && TimerOk() && cwnd < 0x7fff_ffff
      modifies this`next, this`data, this`dataSize, this`dataSum, this`st, this`calls, this`wire, this`packets,
               this`bothWnd, this`both, heads
      ensures Valid() && LaterBy(old(Now()), Now(), stamp) == true && old(calls) <= calls
      ensures st.stream == old(st.stream) && st.finSent == old(st.finSent) && old(st.cuts) <= st.cuts
      ensures una < |old(st).cuts| && edge == both == SendEdge(old(st), una, wnd, congestion, cwnd)
      ensures Idle(st, edge) && (next == old(next) || Within(st, edge))
    {
      UpdateBoth(congestion, cwnd);
      edge := both;
      ghost var mid := Now();
      SendUnsent(stamp);
      LaterByAgain(old(Now()), mid, Now(), stamp);
    }

    /** The part of `onPack` that deals with an acknowledgement. */
    method OnAck(ackNum: uint32, window: nat, resend: bool, congestion: bool, cwnd: uint32, later: uint32,
                 newRto: uint32, stamp: Refresh, ghost a: int) returns (ghost edge: int)
      requires Valid() && AckInRange(ackNum, a) && window <= 0x4000_0000 && cwnd < 0x7fff_ffff && later < 0x7fff_ffff
      modifies this, heads
      ensures Valid() && LaterBy(old(Now()), Now(), stamp) && st.stream == old(st.stream) && finSent == old(finSent)
      ensures AckTaken(old(st), old(st).(una := una), a)
      ensures wnd == if finSent || a + window < old(wnd) then old(wnd) else a + window
      // the oldest piece has been resent if that was asked for, and all that fits sent, but
      // nothing else
      ensures resend && una != old(next) ==> SentAgain(old(wire), wire, old(st), una)
      ensures una < |old(st).cuts| && edge == SendEdge(old(st), una, wnd, congestion, cwnd) && Idle(st, edge)
      ensures both == SendEdge(old(st), una, wnd, congestion, later) && (next == old(next) || Within(st, edge))
      ensures rto == if una != old(una) then newRto else old(rto)
      ensures old(calls) <= calls
    {
      TakeAck(ackNum, window, newRto, a);
      ghost var mid := Now();
      edge := SendMore(resend, congestion, cwnd, later, stamp);
      LaterByAgain(old(Now()), mid, Now(), stamp);
    }

    /** The resend timer has expired, and is no longer linked. After too many retries the
        connection is to be closed; otherwise the oldest piece goes out again and the timer
        runs for twice as long. */
    method OnResendTimer(limit: nat, maxRto: uint32, congestion: bool, cwnd: uint32, stamp: Refresh)
      returns (timeout: bool)
      requires Valid() && Linked(calls) && cwnd < 0x7fff_ffff
      modifies this, heads
      ensures timeout <==> old(retries) >= Min(31, limit)
      ensures timeout ==> Now() == old(Now()) && calls == old(calls) + [Unlink]
      ensures !timeout ==>
                && Valid() && LaterBy(old(Now()), Now(), stamp) && retries == old(retries) + 1
                && next == old(next) && data == old(data) && wnd == old(wnd)
                && SentAgain(old(wire), wire, old(st), una) && |wire| == |old(wire)| + 1
                && rto == Min(U32(2 * old(rto)), maxRto) && calls == old(calls) + [Unlink, Link(rto)]
                && una < |st.cuts| && both == if congestion then SendEdge(st, una, wnd, true, cwnd) else old(both)
    {
      calls := calls + [Unlink];
      timeout := retries >= Min(31, limit);
      if !timeout {
        Retry(maxRto, congestion, cwnd, stamp);
      }
    }

    method Retry(maxRto: uint32, congestion: bool, cwnd: uint32, stamp: Refresh)
      requires Mirrored() == true && Agrees() && Sizes(st) && SenderOk(Now()) && WindowsAgree() && una != next
      requires Proper(calls) == true && !Linked(calls) && (finSent || dataSize < smss) && cwnd < 0x7fff_ffff
      modifies this`st, this`wire, this`packets, this`retries, this`rto, this`calls, this`bothWnd, this`both, heads
      ensures Valid() && LaterBy(old(Now()), Now(), stamp) == true && retries == (old(retries) + 1) % 32
      ensures SentAgain(old(wire), wire, old(st), una) == true && |wire| == |old(wire)| + 1
      ensures una < |st.cuts| && both == if congestion then SendEdge(st, una, wnd, true, cwnd) else old(both)
      ensures rto == Min(U32(2 * old(rto)), maxRto) && calls == old(calls) + [Link(rto)]
    {
      Repeat(congestion, cwnd, stamp);
      rto := Min(U32(2 * rto), maxRto);
      StartResendTimer();
    }

    /** The packet, without the timer. */
    method Repeat(congestion: bool, cwnd: uint32, stamp: Refresh)
      requires Mirrored() == true && Agrees() && Sizes(st) && SenderOk(Now()) && WindowsAgree() && una != next
      requires (finSent || dataSize < smss) && cwnd < 0x7fff_ffff
      modifies this`st, this`wire, this`packets, this`retries, this`bothWnd, this`both, heads
      ensures Mirrored() == true && Agrees() && Sizes(st) && SenderOk(Now()) && WindowsAgree()
      ensures LaterBy(old(Now()), Now(), stamp) == true && retries == (old(retries) + 1) % 32
      ensures SentAgain(old(wire), wire, old(st), una) == true && |wire| == |old(wire)| + 1
      ensures una < |st.cuts| && both == if congestion then SendEdge(st, una, wnd, true, cwnd) else old(both)
    {
      NextNear(Now());
      FullShare(Now());
      ghost var c := Resend(stamp);
      Reduce(congestion, cwnd);
    }

    /** The congestion window, if there is one, is now `cwnd`. */
    method Reduce(congestion: bool, cwnd: uint32)
      requires Acking() && WindowsAgree() && cwnd < 0x7fff_ffff && st.una < |st.cuts| && st.cuts[st.una] - 1 <= both
      modifies this`bothWnd, this`both
      ensures SenderOk(Now()) && WindowsAgree()
      ensures una < |st.cuts| && both == if congestion then SendEdge(st, una, wnd, true, cwnd) else old(both)
    {
      if congestion {
        UpdateBoth(true, cwnd);
      } else {
        Share(Now().(both := wnd), both);
      }
    }
  }

  /** The pieces that end at or before position `a` have been released, no others. */
  ghost predicate AckTaken(was: State, now: State, a: int) {
    && was.una <= now.una <= was.next == now.next && now.cuts == was.cuts && now.stream == was.stream
    && now.isn == was.isn && now.finSent == was.finSent
    && (forall k: nat :: was.una <= k < now.una ==> Covered(was.cuts, k, a))
    && (now.una == was.next || !Covered(was.cuts, now.una, a))
  }

  /** The first packet after `was` carries piece k. */
  ghost predicate SentAgain(was: seq<Packet>, now: seq<Packet>, st: State, k: nat) {
    && |was| < |now| && k + 1 < |st.cuts|
    && now[|was|].from == st.cuts[k] && now[|was|].to == st.cuts[k + 1]
  }

  lemma StillSentAgain(a: Moment, b: Moment, c: Moment, stamp: Refresh, k: nat)
    requires LaterBy(a, b, stamp) == true && LaterBy(b, c, stamp) == true
    ensures LaterBy(a, c, stamp) == true
    ensures SentAgain(a.wire, b.wire, a.st, k) == true ==> SentAgain(a.wire, c.wire, a.st, k) == true
  {
    LaterByAgain(a, b, c, stamp);
  }

  /** How far it is allowed to send: the congestion window starts at the oldest piece. */
  ghost function SendEdge(st: State, una: nat, wnd: int, congestion: bool, cwnd: uint32): (edge: int)
    requires una < |st.cuts|
  {
    if congestion && st.cuts[una] + cwnd < wnd then st.cuts[una] + cwnd else wnd
  }

  /** Piece k ends at or before position `a`. */
  ghost predicate Covered(cuts: seq<nat>, k: nat, a: int) {
    k + 1 < |cuts| && cuts[k + 1] <= a
  }

  lemma PrefixExtended(d: seq<byte>, i: nat, size: nat)
    requires i + size <= |d|
    ensures d[..i + size] == d[..i] + d[i..][..size]
  {
  }

  lemma PrefixJoined(had: seq<byte>, d: seq<byte>, x: seq<byte>, room: nat)
    ensures var t := Min(|d|, room);
            var z := Min(|x|, room - t);
            t + z == Min(|d + x|, room) && had + d[..t] + x[..z] == had + (d + x)[..t + z]
  {
  }

  function Flat(iov: seq<seq<byte>>): (d: seq<byte>) {
    if iov == [] then [] else iov[0] + Flat(iov[1..])
  }

  lemma {:induction false} FlatNext(iov: seq<seq<byte>>, i: nat)
    requires i < |iov|
    ensures Flat(iov[..i + 1]) == Flat(iov[..i]) + iov[i]
  {
    if i == 0 {
      assert iov[..1][1..] == [];
    } else {
      FlatNext(iov[1..], i - 1);
      assert iov[..i + 1][1..] == iov[1..][..i] && iov[..i][1..] == iov[1..][..i - 1];
    }
  }

  /** `(int)(x - y - size)`: the distance from `size` after position `b` to position `a`. */
  method Distance(x: uint32, y: uint32, size: nat, ghost isn: int, ghost a: int, ghost b: int) returns (r: int)
    requires x == U32(isn + a) && y == U32(isn + b) && -TWO31 <= a - b - size < TWO31
    ensures r == a - b - size
  {
    assert U32(x - y - size) == U32(a - b - size) by {
      WrapSub(isn + a, isn + b);
      WrapAdd(x - y, -(size as int));
      WrapAdd(a - b, -(size as int));
    }
    SignedSmall(x - y - size, a - b - size);
    r := S32(x - y - size);
  }

  lemma SlotParity(s: nat, cap: nat, at: nat)
    requires cap % 2 == 0
    ensures (s * cap + at) % 2 == at % 2
  {
    var h := cap / 2;
    assert s * cap + at == at + 2 * (s * h);
    ModShift(at, s * h, 2);
  }

  /** `(int)(x - y) >= 0`: position `a` is not before position `b`. */
  method NotBefore(x: uint32, y: uint32, ghost isn: int, ghost a: int, ghost b: int) returns (r: bool)
    requires x == U32(isn + a) && y == U32(isn + b) && -TWO31 <= a - b < TWO31
    ensures r <==> a >= b
  {
    SignedDistance(isn + a, isn + b);
    r := S32(x - y) >= 0;
  }

  /** `(int)(x - y) > 0`: position `a` is after position `b`. */
  method After(x: uint32, y: uint32, ghost isn: int, ghost a: int, ghost b: int) returns (r: bool)
    requires x == U32(isn + a) && y == U32(isn + b) && -TWO31 <= a - b < TWO31
    ensures r <==> a > b
  {
    SignedDistance(isn + a, isn + b);
    r := S32(x - y) > 0;
  }

  lemma OnePiece(m: Moment)
    requires SenderOk(m) && m.st.una == 0 && m.st.data == 1
    ensures m.st.cuts == [0, 1, 1 + m.st.dataSize]
  {
    assert Right(m);
    assert PieceOk(m.st, 0);
  }

  lemma NeverSent(m: Moment)
    requires SenderOk(m) && m.st.finSent && m.st.stream == [7] && m.wnd == 2 && m.st.cuts == [0, 1, 3]
    requires m.st.next == m.st.data == 1 && m.st.dataSize == 2
    ensures forall now: Moment :: SenderOk(now) && Later(m, now) ==> !Out(now.wire, 1)
  {
    forall now: Moment | SenderOk(now) && Later(m, now)
      ensures !Out(now.wire, 1)
    {
      PositionAfterFin(m, now, 1, 1);
    }
  }

  /** A byte that is inside the window when the FIN is queued behind it, in the same
      piece, and is sent in no later moment of any run: the two together cross the edge. */
  method FinStalls(conn: Conn, stamp: Refresh) returns (s: Sender)
    requires conn.flags < 0xff00
    ensures s.Valid() && s.finSent && s.st.stream == [7] && s.wnd == 2
    ensures fresh(s) && fresh(s.heads) && fresh(s.mem)
    ensures s.st.isn == 0 && s.una == 0 && s.next == s.data == 1 && s.dataSize == 2 && s.st.cuts == [0, 1, 3]
    ensures forall now: Moment :: SenderOk(now) && Later(s.Now(), now) ==> !Out(now.wire, 1)
  {
    s := new Sender(conn, 4, 2, 2, 0, stamp, 0, 1, false, 0, 200);
    var done := s.Send([7], true, stamp);
    assert s.data == s.next == 1 && s.dataSize == 1;
    var closed := s.SendFin(stamp);
    OnePiece(s.Now());
    NeverSent(s.Now());
  }
}
