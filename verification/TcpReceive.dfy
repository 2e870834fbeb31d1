/** The receive path of a TCP connection: acceptance of a segment, reassembly with
    eviction, the advertised window, and FIN. */
module TcpReceive {
  import opened Words
  import opened Segments
  import opened Reassembly
  import opened RangeBuffer
  import opened RecvWindow
  import opened RecvSpec

  class Receiver {
    const buf: Buffer
    const rmss: nat
    var finReceived: bool

    /** Until the FIN, the first range does not fill the buffer, and not too much of it is
        consumed without being freed. After the FIN, the stream is complete and the FIN is
        counted as one more received byte. */
    ghost predicate Valid()
      reads this, buf, buf.bytes, buf.segs
    {
      if finReceived then
        && buf.Shape() && buf.segs[0].first < buf.segs[0].second <= buf.size
        && buf.Received() == |buf.stream| + 1 && TakenOk(buf.stream, buf.start, buf.Consumed(), buf.taken)
      else buf.Valid() && buf.segs[0].second < buf.size && Freed()
    }

    ghost predicate Freed()
      requires buf.segs.Length > 0
      reads this, buf, buf.segs
    {
      buf.segs[0].first < rmss || buf.segs[0].first < buf.size / 2
    }

    ghost function Held(): (v: Rcv)
      requires buf.cnt <= buf.segs.Length
      reads this, buf, buf.segs
    {
      Rcv(buf.segs[..buf.cnt], buf.base)
    }

    constructor (bufSize: nat, rmss: nat)
      requires 2 <= bufSize <= 0x4000_0000 && bufSize % 2 == 0
      ensures Valid() && !finReceived && buf.size == bufSize && this.rmss == rmss
      ensures fresh(buf) && fresh(buf.bytes) && fresh(buf.segs)
    {
      buf := new Buffer(bufSize);
      this.rmss := rmss;
      finReceived := false;
      new;
      buf.Begin(0, [], 0);
    }

    /** The peer's SYN: its stream begins one sequence number later. */
    method OnSyn(seqNum: uint32, ghost str: seq<byte>)
      requires buf.Shape()
      modifies this, buf, buf.segs
      ensures Valid() && !finReceived && buf.stream == str && buf.start == buf.Received() == buf.Consumed() == 0
      ensures AckNumber() == U32(seqNum + 1) && buf.isn == seqNum + 1 - (if seqNum + 1 == TWO32 then TWO32 else 0)
      ensures Held() == Rcv([Seg(0, 0)], 0)
    {
      finReceived := false;
      buf.Begin(U32(seqNum + 1), str, 0);
      assert buf.segs[..buf.cnt] == [Seg(0, 0)];
    }

    /** The acknowledgement number. It covers the in-order bytes, the FIN included once
        it has arrived, and nothing else. */
    function AckNumber(): (ack: uint32)
      requires Valid()
      reads this, buf, buf.bytes, buf.segs
      ensures ack == U32(buf.isn + buf.Received())
    {
      assert buf.Shape();
      WrapAdd(buf.isn + buf.base, buf.segs[0].second);
      U32(buf.seqNum + buf.segs[0].second)
    }

    /** The window that is advertised without scaling. Before the FIN it is never zero. */
    function AdvertisedWindow(): (w: nat)
      requires Valid()
      reads this, buf, buf.bytes, buf.segs
      ensures w <= 65535 && w <= buf.size - buf.segs[0].second && (!finReceived ==> w > 0)
      ensures RightEdge() == buf.Received() + w
    {
      WindowField(buf.size - buf.segs[0].second, false, 0)
    }

    /** The stream position the unscaled window lets the peer send up to. */
    ghost function RightEdge(): (edge: nat)
      requires buf.segs.Length > 0
      reads this, buf, buf.segs
    {
      Edge(buf.base, buf.segs[0].second, buf.size)
    }

    /** The list part: makes room by forgetting the last range, or gives up when all
        ranges lie before the new one. `use` is the list the range was added to. */
    method AddRange(lo: nat, hi: nat) returns (ok: bool, i: nat, ghost j: nat, ghost use: seq<Seg>)
      requires buf.Valid() && buf.segs[0].second <= lo < hi
      modifies buf`cnt, buf.segs
      ensures || use == old(buf.segs[..buf.cnt])
              || (old(buf.cnt) == MAX_SEG && use == old(buf.segs[..buf.cnt])[..MAX_SEG - 1])
      ensures ReceiverOk(use, buf.bytes[..], buf.stream, buf.base) == true
      ensures ok ==> && Located(use, lo, hi, i, j) && 1 <= buf.cnt <= MAX_SEG
                     && buf.segs[..buf.cnt] == Merged(use, lo, hi, i, j)
                     && (use != old(buf.segs[..buf.cnt]) ==> i == j && hi < old(buf.segs[MAX_SEG - 1].first))
      ensures !ok ==> && buf.cnt == old(buf.cnt) == MAX_SEG == i && buf.segs[..] == old(buf.segs[..])
                      && buf.segs[MAX_SEG - 1].second < lo
    {
      ghost var was := buf.segs[..buf.cnt];
      use := was;
      var jj;
      i, jj := Locate(buf.segs, buf.cnt, lo, hi);
      j := jj;
      ok := true;
      if i == jj {
        if i < MAX_SEG {
          if buf.cnt == MAX_SEG {
            buf.cnt := buf.cnt - 1;
            use := was[..MAX_SEG - 1];
            WithoutLast(was, buf.bytes[..], buf.stream, buf.base);
            assert LocatedAt(was, lo, hi, i, j, MAX_SEG - 1);
            assert forall k: nat :: k < |use| ==>
                                      (LocatedAt(use, lo, hi, i, j, k) <==> LocatedAt(was, lo, hi, i, j, k));
            assert buf.segs[..buf.cnt] == use;
          }
          InsertAt(buf.segs, buf.cnt, i, lo, hi);
          buf.cnt := buf.cnt + 1;
        } else {
          ok := false;
          assert LocatedAt(was, lo, hi, i, j, MAX_SEG - 1);
        }
      } else {
        buf.cnt := MergeAt(buf.segs, buf.cnt, i, jj, lo, hi);
      }
    }

    /** Data for which there is no range: it goes after everything received. */
    method Spill(lo: nat, data: seq<byte>)
      requires buf.Valid() && buf.segs[buf.cnt - 1].second <= lo && lo + |data| <= buf.size
      modifies buf.bytes
      ensures buf.Valid()
      ensures forall x: int :: Covers(buf.segs[..buf.cnt], x) ==> x < lo
    {
      ghost var bytes0 := buf.bytes[..];
      CopyIn(buf.bytes, lo, data);
      WrittenBeyond(buf.segs[..buf.cnt], bytes0, buf.bytes[..], buf.stream, buf.base, lo, data);
    }

    /** Adds in-window data and hands over what is now in order. */
    method Take(lo: nat, hi: nat, data: seq<byte>, handler: seq<byte> -> nat)
      returns (given: Option<seq<byte>>, ghost limit: nat)
      requires buf.Valid() && buf.segs[0].second <= lo < hi <= buf.size
      requires buf.base + hi <= |buf.stream| && data == buf.stream[buf.base + lo..buf.base + hi]
      requires forall d: seq<byte> :: handler(d) <= |d|
      modifies buf`cnt, buf`taken, buf.segs, buf.bytes
      ensures buf.Valid() == true
      ensures Took(old(buf.segs[..buf.cnt]), buf.segs[..buf.cnt], buf.base, buf.size, lo, hi, buf.stream, handler,
                   given, limit) == true
    {
      ghost var was := buf.segs[..buf.cnt];
      var ok, i;
      ghost var j, use;
      ok, i, j, use := AddRange(lo, hi);
      if !ok {
        Spill(lo, data);
        TookNothing(was, buf.base, buf.size, lo, hi, buf.stream, handler);
        assert buf.segs[..buf.cnt] == was;
        return None, lo;
      }
      given := Hand(lo, hi, data, handler, was, use, i, j);
      limit := if use == was then buf.size + 1 else was[|was| - 1].first;
    }

    /** The range has just been added to the list `use`. */
    method Hand(lo: nat, hi: nat, data: seq<byte>, handler: seq<byte> -> nat,
                ghost was: seq<Seg>, ghost use: seq<Seg>, i: nat, ghost j: nat) returns (given: Option<seq<byte>>)
      requires buf.JustInserted(use, lo, hi, i, j, data) == true && forall d: seq<byte> :: handler(d) <= |d|
      requires Sorted(was) && was[0].second <= lo && use[0] == was[0]
      requires use == was || (|was| == MAX_SEG && use == was[..|was| - 1] && i == j && hi < was[|was| - 1].first)
      requires TakenOk(buf.stream, buf.start, buf.base + was[0].first, buf.taken) == true
      modifies buf`taken, buf.segs, buf.bytes
      ensures buf.Valid()
      ensures Took(was, buf.segs[..buf.cnt], buf.base, buf.size, lo, hi, buf.stream, handler, given,
                   if use == was then buf.size + 1 else was[|was| - 1].first) == true
    {
      given := buf.Deliver(lo, hi, data, handler, use, i, j);
      TookFrom(was, use, buf.segs[..buf.cnt], buf.bytes[..], buf.stream, buf.base, lo, hi, i, j, handler, given);
    }

    /** Frees the consumed part of the buffer, once it is worth a full segment. */
    method Compact()
      requires buf.Valid()
      modifies buf`seqNum, buf`base, buf.segs, buf.bytes
      ensures buf.Valid() == true && Freed() && buf.Received() == old(buf.Received())
      ensures Compacted(old(Held()), Held(), buf.size, rmss) == true
    {
      ghost var was, base0 := buf.segs[..buf.cnt], buf.base;
      var first := buf.segs[0].first;
      LastIsLast(was, 0);
      if first >= rmss {
        if first == buf.segs[buf.cnt - 1].second {
          AllConsumed(was, base0);
          StartOver(first);
        } else if first >= buf.size / 2 {
          buf.MoveDown();
        }
      }
      assert Compacted(Rcv(was, base0), Held(), buf.size, rmss);
    }

    /** Everything is consumed: the buffer begins anew. */
    method StartOver(first: nat)
      requires buf.Valid() && buf.cnt == 1 && buf.segs[0] == Seg(first, first)
      modifies buf`seqNum, buf`base, buf.segs
      ensures buf.Valid() && buf.base == old(buf.base) + first && buf.segs[..buf.cnt] == [Seg(0, 0)]
    {
      buf.Rebase(first);
      buf.segs[0] := Seg(0, 0);
      assert buf.segs[..buf.cnt] == [Seg(0, 0)];
    }

    /** The sequence number check, and the part of the segment that lies in the window. */
    method Check(seqNum: uint32, len: nat, fin: bool, ghost pos: nat)
      returns (ok: bool, lo: nat, hi: nat, skip: nat, finHere: bool)
      requires Valid() && len < 0x1_0000 && seqNum == U32(buf.isn + pos)
      requires buf.base + buf.size - TWO31 <= pos && pos + len + 1 < buf.base + TWO31
      ensures ok <==> Acceptable(pos - buf.base, pos + len + One(fin) - buf.base, buf.segs[0].second, buf.size)
      ensures ok ==> && buf.base + lo == Max(pos, buf.Received())
                     && buf.base + hi == Min(pos + len, buf.base + buf.size)
                     && (lo < hi ==> skip == buf.base + lo - pos)
                     && (finHere <==> fin && pos + len <= buf.base + buf.size)
    {
      assert buf.segs[0].second <= buf.size by {
        if !finReceived { LastIsLast(buf.segs[..buf.cnt], 0); }
      }
      ghost var a := pos - buf.base;
      ghost var e := a + len + One(fin);
      var loc := U32(seqNum - buf.seqNum);
      var end := U32(loc + (len + One(fin)));
      assert loc == U32(a) by { WrapSub(buf.isn + pos, buf.isn + buf.base); }
      assert end == U32(e) by { WrapAdd(a, len + One(fin)); }
      ok := InWindow(loc, end, buf.segs[0].second, buf.size, a, e);
      lo, hi, skip, finHere := 0, 0, 0, false;
      if ok {
        lo, hi, skip, finHere := Clip(loc, end, fin, buf.segs[0].second, buf.size, a, e);
      }
    }

    /** The part `lo .. hi` of a segment's text `pos .. pos + len` that lies in the window;
        `ended` if it is now the end of the in-order data. */
    method Text(lo: nat, hi: nat, data: seq<byte>, handler: seq<byte> -> nat, ghost pos: nat, ghost len: nat)
      returns (given: Option<seq<byte>>, ended: bool, ghost limit: nat)
      requires buf.Valid() && Freed() && buf.segs[0].second <= lo < hi <= buf.size
      requires buf.base + hi <= |buf.stream| && data == buf.stream[buf.base + lo..buf.base + hi]
      requires buf.base + lo == Max(pos, buf.Received()) && buf.base + hi == Min(pos + len, buf.base + buf.size)
      requires forall d: seq<byte> :: handler(d) <= |d|
      modifies buf`cnt, buf`taken, buf`seqNum, buf`base, buf.segs, buf.bytes
      ensures buf.Valid() == true && Freed() && (ended <==> buf.Received() == old(buf.base) + hi)
      ensures TextTaken(old(Held()), Held(), buf.size, rmss, buf.stream, pos, len, handler, given, limit) == true
    {
      ghost var v := Held();
      ghost var below;
      given, below := Take(lo, hi, data, handler);
      ghost var mid := buf.segs[..buf.cnt];
      limit := v.base + below;
      ended := buf.segs[0].second == hi;
      Compact();
      ghost var w := Held();
      TextThenFreed(v, mid, w, buf.size, rmss, buf.stream, pos, len, lo, hi, handler, given, below, limit);
    }

    /** The FIN: the in-order data ends the stream, and what is left of it is handed over. */
    method TakeFin() returns (last: seq<byte>)
      requires Valid() && !finReceived && buf.Received() == |buf.stream|
      modifies this`finReceived, buf.segs
      ensures Valid() && finReceived && buf.Consumed() == old(buf.Consumed()) <= |buf.stream|
      ensures last == buf.stream[buf.Consumed()..] && WithoutFin(Held(), true) == old(Held())
    {
      ghost var was := buf.segs[..buf.cnt];
      LastIsLast(was, 0);
      RangeIsSlice(was, buf.bytes[..], buf.stream, buf.base, 0);
      finReceived := true;
      last := buf.bytes[buf.segs[0].first..buf.segs[0].second];
      buf.segs[0] := Seg(buf.segs[0].first, buf.segs[0].second + 1);
      assert buf.segs[..buf.cnt] == was[0 := buf.segs[0]];
    }

    /** The buffer is full, and not enough of it is consumed to make room. */
    ghost predicate Stuck()
      reads this, buf, buf.bytes, buf.segs
    {
      buf.Valid() && !finReceived && buf.segs[0].second == buf.size && Freed()
    }

    /** The text of an acceptable segment; `ended` if a FIN behind it comes next. */
    method Arrive(payload: seq<byte>, lo: nat, hi: nat, skip: nat, handler: seq<byte> -> nat, ghost pos: nat)
      returns (given: Option<seq<byte>>, ended: bool, ghost limit: nat)
      requires Valid() && !finReceived && forall d: seq<byte> :: handler(d) <= |d|
      requires IsPiece(payload, buf.stream, pos)
      requires buf.base + lo == Max(pos, buf.Received())
      requires buf.base + hi == Min(pos + |payload|, buf.base + buf.size)
      requires lo < hi ==> skip == buf.base + lo - pos
      modifies buf`cnt, buf`taken, buf`seqNum, buf`base, buf.segs, buf.bytes
      ensures buf.Valid() && Freed()
      ensures pos + |payload| == |buf.stream| <= old(buf.base) + buf.size ==>
                (ended <==> buf.Received() == |buf.stream|)
      ensures TextTaken(old(Held()), Held(), buf.size, rmss, buf.stream, pos, |payload|, handler, given, limit) == true
    {
      if lo < hi {
        PieceOfPiece(buf.stream, pos, payload, skip, hi - lo);
        given, ended, limit := Text(lo, hi, payload[skip..skip + (hi - lo)], handler, pos, |payload|);
      } else {
        NoText(Held(), buf.bytes[..], rmss, buf.stream, pos, |payload|, handler);
        given, ended, limit := None, lo == buf.segs[0].second, buf.base + buf.size + 1;
      }
    }

    /** The text and the FIN of an acceptable segment. `finHere` is its FIN, if that lies in
        the window. */
    method Process(payload: seq<byte>, fin: bool, lo: nat, hi: nat, skip: nat, finHere: bool,
                   handler: seq<byte> -> nat, ghost pos: nat)
      returns (r: Outcome, ghost limit: nat)
      requires Valid() && !finReceived && forall d: seq<byte> :: handler(d) <= |d|
      requires IsPiece(payload, buf.stream, pos) && (fin ==> pos + |payload| == |buf.stream|)
      requires buf.base + lo == Max(pos, buf.Received())
      requires buf.base + hi == Min(pos + |payload|, buf.base + buf.size)
      requires lo < hi ==> skip == buf.base + lo - pos
      requires finHere <==> fin && pos + |payload| <= buf.base + buf.size
      modifies this`finReceived, buf`cnt, buf`taken, buf`seqNum, buf`base, buf.segs, buf.bytes
      ensures buf.Shape() && if r.Overrun? then Stuck() else Valid()
      ensures old(buf.base) <= buf.base <= old(buf.base) + buf.size
      ensures Taken(old(Held()), Held(), buf.size, rmss, buf.stream, pos, |payload|, fin, handler, r, finReceived,
                    limit) == true
    {
      ghost var v := Held();
      var given, ended;
      given, ended, limit := Arrive(payload, lo, hi, skip, handler, pos);
      ghost var w := Held();
      InsideWindow(v, w, buf.size, rmss, buf.stream, pos, |payload|, handler, given, limit);
      if buf.segs[0].second == buf.size {
        // the buffer is full of data nobody consumes
        r := Overrun(given);
        TextIsAll(v, w, buf.size, rmss, buf.stream, pos, |payload|, fin, handler, r, limit);
      } else if finHere && ended {
        var last := TakeFin();
        r := Processed(given, Some(last));
        TextAndFin(v, w, Held(), buf.size, rmss, buf.stream, pos, |payload|, handler, given, limit);
      } else {
        r := Processed(given, None);
        TextIsAll(v, w, buf.size, rmss, buf.stream, pos, |payload|, fin, handler, r, limit);
      }
    }

    /** The text and the FIN of a segment: `payload` is the piece of the stream at
        `pos`, a FIN comes after the last byte of the stream. */
    method OnSegment(seqNum: uint32, payload: seq<byte>, fin: bool, handler: seq<byte> -> nat, ghost pos: nat)
      returns (r: Outcome, ghost limit: nat)
      requires Valid() && forall d: seq<byte> :: handler(d) <= |d|
      requires |payload| < 0x1_0000 && IsPiece(payload, buf.stream, pos)
      requires fin ==> pos + |payload| == |buf.stream|
      requires seqNum == U32(buf.isn + pos)
      requires buf.base + buf.size - TWO31 <= pos && pos + |payload| + 1 < buf.base + TWO31
      modifies this`finReceived, buf`cnt, buf`taken, buf`seqNum, buf`base, buf.segs, buf.bytes
      // the invariant holds, unless the buffer is full of data nobody consumes
      ensures buf.Shape() && if r.Overrun? then Stuck() else Valid()
      ensures old(buf.base) <= buf.base <= old(buf.base) + buf.size
      ensures Answered(old(Held()), old(finReceived), Held(), finReceived, buf.size, rmss, buf.stream, pos, |payload|,
                       fin, handler, r, limit) == true
      ensures !r.Unacceptable? && !old(finReceived) ==>
                EdgeMoves(old(Held()), Held(), buf.size, rmss, buf.stream, pos, |payload|, fin, handler) == true
    {
      limit := 0;
      ghost var v := Held();
      var ok, lo, hi, skip, finHere := Check(seqNum, |payload|, fin, pos);
      if !ok {
        r := Unacceptable;
      } else if finReceived {
        r := Processed(None, None);
      } else {
        r, limit := Process(payload, fin, lo, hi, skip, finHere, handler, pos);
        EdgeMovesRight(v, Held(), buf.size, rmss, buf.stream, pos, |payload|, fin, handler, r, finReceived, limit);
      }
    }
  }

  /** One byte in an empty buffer, taken by the consumer. */
  lemma OneByte(v': Rcv, b: byte, handler: seq<byte> -> nat, r: Outcome, limit: nat)
    requires Taken(Rcv([Seg(0, 0)], 0), v', 0x2_0000, 1460, [b], 0, 1, false, handler, r, false, limit)
    requires handler([b]) == 0
    ensures v'.base == 0 && |v'.segs| > 0 && v'.segs[0] == Seg(1, 1) && r == Processed(Some([b]), None)
  {
    assert TextEffect(Rcv([Seg(0, 0)], 0), v', 0x2_0000, 1460, [b], 0, 1, handler, r.given, limit);
    assert Reached([Seg(0, 0)], 1) == 1 && [b][0..1] == [b];
  }

  lemma EdgesOf128K()
    ensures Scale(0x2_0000) == 2 && ScaledEdge(0, 0, 0x2_0000, 2) == 0x2_0000
    ensures ScaledEdge(0, 1, 0x2_0000, 2) == 0x1_fffd
  {
    ScaleOf128K();
    ScaledGrant(0x2_0000, 2);
    ScaledGrant(0x1_ffff, 2);
  }

  /** The right edge of a scaled window moves left: one byte arrives in an empty buffer of
      128 KiB, and the consumer takes it. */
  method ScaledEdgeMovesLeft() returns (r: Receiver)
    ensures r.Valid() && r.buf.size == 0x2_0000 && Scale(r.buf.size) == 2
    ensures r.buf.base == 0 && r.buf.segs[0] == Seg(1, 1)
    ensures ScaledEdge(0, 1, r.buf.size, 2) + 3 == ScaledEdge(0, 0, r.buf.size, 2)
  {
    r := new Receiver(0x2_0000, 1460);
    r.OnSyn(0, [7]);
    var out;
    ghost var limit;
    var handler := (d: seq<byte>) => 0;
    out, limit := r.OnSegment(1, [7], false, handler, 0);
    OneByte(r.Held(), 7, handler, out, limit);
    EdgesOf128K();
  }
}
