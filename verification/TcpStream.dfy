/** The passive stream rebuilder, which waits for resends (its default) or does not. */
module TcpStream {
  import opened Words
  import opened Segments
  import opened Reassembly
  import opened RangeBuffer

  class Stream {
    const buf: Buffer
    const waits: bool
    var initStream: bool

    ghost predicate Valid()
      reads this, buf, buf.bytes, buf.segs
    {
      buf.Valid() && (waits || buf.cnt == 1)
    }

    constructor (bufSize: nat, waits: bool)
      requires 2 <= bufSize <= 0x4000_0000 && bufSize % 2 == 0
      ensures Valid() && !initStream && buf.size == bufSize && this.waits == waits
      ensures fresh(buf) && fresh(buf.bytes) && fresh(buf.segs)
    {
      buf := new Buffer(bufSize);
      this.waits := waits;
      initStream := false;
    }

    /** The segment-list part: adds the range, or fails when there are too many. */
    method AddRange(lo: nat, hi: nat) returns (ok: bool, i: nat, ghost j: nat)
      requires buf.Valid() && buf.segs[0].second <= lo < hi
      modifies buf`cnt, buf.segs
      ensures Located(old(buf.segs[..buf.cnt]), lo, hi, i, j)
      ensures ok ==> && 1 <= buf.cnt <= MAX_SEG
                     && buf.segs[..buf.cnt] == Merged(old(buf.segs[..buf.cnt]), lo, hi, i, j)
      ensures !ok ==> buf.segs[..] == old(buf.segs[..]) && buf.cnt == old(buf.cnt) == MAX_SEG && i == j
    {
      var jj;
      i, jj := Locate(buf.segs, buf.cnt, lo, hi);
      j := jj;
      ok := true;
      if i == jj {
        if buf.cnt == MAX_SEG {
          return false, i, j;
        }
        InsertAt(buf.segs, buf.cnt, i, lo, hi);
        buf.cnt := buf.cnt + 1;
      } else {
        buf.cnt := MergeAt(buf.segs, buf.cnt, i, jj, lo, hi);
      }
    }

    /** A packet of the running stream, when waiting for resends: `payload` is the piece
        at position `pos`, anywhere within 2^31 bytes of what has been received. `given`
        is what the consumer is shown; `handler` answers how many of these bytes it
        leaves. */
    method Rebuild(seqNum: uint32, payload: seq<byte>, handler: seq<byte> -> nat, ghost pos: nat)
      returns (given: Option<seq<byte>>, ghost kept: bool)
      requires buf.Valid() && forall d: seq<byte> :: handler(d) <= |d|
      requires |payload| < 0x1_0000 && pos + |payload| <= |buf.stream| && payload == buf.stream[pos..pos + |payload|]
      requires seqNum == U32(buf.isn + pos) && -TWO31 <= pos - buf.Received() < TWO31
      modifies buf`cnt, buf`taken, buf`seqNum, buf`base, buf.segs, buf.bytes
      ensures buf.Valid()
      ensures Rebuilt(true, given, old(buf.Received()), old(buf.Consumed()), buf.Received(), buf.Consumed(),
                      buf.stream, handler, pos, |payload|, old(buf.base) + buf.size) == true
      ensures given.Some? && old(buf.cnt) == 1 ==> buf.Received() == pos + |payload|
      // nothing waiting in the buffer is lost, and the packet is added unless it does
      // not fit or needs a sixth range
      ensures Grew(old(buf.segs[..buf.cnt]), old(buf.base), buf.segs[..buf.cnt], buf.base, pos, pos + |payload|, kept,
                   buf.Consumed()) == true
      ensures MustKeep(given, old(buf.Received()), old(buf.cnt), pos, |payload|, old(buf.base) + buf.size) ==> kept
    {
      var inWindow, lo, hi, skip := Window(seqNum, |payload|, pos);
      given, kept := None, false;
      if inWindow {
        PieceOfPiece(buf.stream, pos, payload, skip, |payload| - skip);
        given, kept := TakeIn(lo, hi, payload[skip..], handler, pos);
      }
    }

    /** The part `lo .. hi` of the packet at `pos` that is new. */
    method TakeIn(lo: nat, hi: nat, data: seq<byte>, handler: seq<byte> -> nat, ghost pos: nat)
      returns (given: Option<seq<byte>>, ghost kept: bool)
      requires buf.Valid() && buf.segs[0].second <= lo < hi <= buf.size
      requires buf.base + hi <= |buf.stream| && data == buf.stream[buf.base + lo..buf.base + hi]
      requires pos <= buf.base + lo == Max(pos, buf.Received()) && forall d: seq<byte> :: handler(d) <= |d|
      modifies buf`cnt, buf`taken, buf`seqNum, buf`base, buf.segs, buf.bytes
      ensures buf.Valid()
      ensures Rebuilt(true, given, old(buf.Received()), old(buf.Consumed()), buf.Received(), buf.Consumed(),
                      buf.stream, handler, pos, old(buf.base) + hi - pos, old(buf.base) + buf.size) == true
      ensures given.Some? && old(buf.cnt) == 1 ==> buf.Received() == old(buf.base) + hi
      ensures Grew(old(buf.segs[..buf.cnt]), old(buf.base), buf.segs[..buf.cnt], buf.base, pos,
                   old(buf.base) + hi, kept, buf.Consumed()) == true
      ensures given.Some? || old(buf.cnt) < MAX_SEG ==> kept
    {
      ghost var was, base := buf.segs[..buf.cnt], buf.base;
      given, kept := AddPart(lo, hi, data, handler, pos);
      ghost var mid := buf.segs[..buf.cnt];
      if given.Some? {
        Compact();
      }
      GrewThenMoved(was, base, mid, base, buf.segs[..buf.cnt], buf.base, pos, base + hi, kept, buf.Consumed());
    }

    /** The same before anything is moved. */
    method AddPart(lo: nat, hi: nat, data: seq<byte>, handler: seq<byte> -> nat, ghost pos: nat)
      returns (given: Option<seq<byte>>, ghost kept: bool)
      requires buf.Valid() && buf.segs[0].second <= lo < hi <= buf.size
      requires buf.base + hi <= |buf.stream| && data == buf.stream[buf.base + lo..buf.base + hi]
      requires pos <= buf.base + lo == Max(pos, buf.Received()) && forall d: seq<byte> :: handler(d) <= |d|
      modifies buf`cnt, buf`taken, buf.segs, buf.bytes
      ensures buf.Valid() == true
      ensures Rebuilt(true, given, old(buf.Received()), old(buf.Consumed()), buf.Received(), buf.Consumed(),
                      buf.stream, handler, pos, buf.base + hi - pos, buf.base + buf.size) == true
      ensures given.Some? && old(buf.cnt) == 1 ==> buf.Received() == buf.base + hi
      ensures Grew(old(buf.segs[..buf.cnt]), buf.base, buf.segs[..buf.cnt], buf.base, pos, buf.base + hi, kept,
                   buf.Consumed()) == true
      ensures given.Some? || old(buf.cnt) < MAX_SEG ==> kept
    {
      ghost var was := buf.segs[..buf.cnt];
      given, kept := Accept(lo, hi, data, handler);
      ghost var mid := buf.segs[..buf.cnt];
      ShownIsRebuilt(given, was[0], mid[0], lo, hi, buf.stream, buf.base, handler, pos, buf.size);
      GrewBy(was, buf.base, mid, lo, hi, kept, pos, mid[0].first);
    }

    /** Moves the data to the front when half of the buffer is consumed. */
    method Compact()
      requires buf.Valid()
      modifies buf`seqNum, buf`base, buf.segs, buf.bytes
      ensures buf.Valid() && buf.Received() == old(buf.Received()) && buf.Consumed() == old(buf.Consumed())
      ensures SameHolding(old(buf.segs[..buf.cnt]), old(buf.base), buf.segs[..buf.cnt], buf.base) == true
    {
      if buf.segs[0].first >= buf.size / 2 {
        buf.MoveDown();
      }
    }

    /** The same when not waiting: what is missing before the packet is given up, and with
        it what the consumer has left; the consumer is then shown the packet. */
    method RebuildAnyway(seqNum: uint32, payload: seq<byte>, handler: seq<byte> -> nat, ghost pos: nat)
      returns (given: Option<seq<byte>>)
      requires Valid() && !waits && forall d: seq<byte> :: handler(d) <= |d|
      requires |payload| < 0x1_0000 && pos + |payload| <= |buf.stream| && payload == buf.stream[pos..pos + |payload|]
      requires seqNum == U32(buf.isn + pos) && -TWO31 <= pos - buf.Received() < TWO31
      modifies buf`cnt, buf`taken, buf`start, buf`seqNum, buf`base, buf.segs, buf.bytes
      ensures Valid()
      ensures Rebuilt(false, given, old(buf.Received()), old(buf.Consumed()), buf.Received(), buf.Consumed(),
                      buf.stream, handler, pos, |payload|, old(buf.base) + buf.size) == true
      ensures pos <= old(buf.Received()) ==> buf.start == old(buf.start)
    {
      var inWindow, lo, hi, skip := Window(seqNum, |payload|, pos);
      given := None;
      if inWindow {
        given := ShowPart(lo, hi, skip, payload, handler, pos);
      }
    }

    /** The part of the packet that is new, without its first `skip` bytes. */
    method ShowPart(lo: nat, hi: nat, skip: nat, payload: seq<byte>, handler: seq<byte> -> nat, ghost pos: nat)
      returns (given: Option<seq<byte>>)
      requires Valid() && !waits && forall d: seq<byte> :: handler(d) <= |d|
      requires pos + |payload| <= |buf.stream| && payload == buf.stream[pos..pos + |payload|]
      requires buf.segs[0].second <= lo < hi <= buf.size && buf.base + hi == pos + |payload| && skip <= |payload|
      requires buf.base + lo == pos + skip == Max(pos, buf.Received())
      modifies buf`cnt, buf`taken, buf`start, buf`seqNum, buf`base, buf.segs, buf.bytes
      ensures Valid()
      ensures Rebuilt(false, given, old(buf.Received()), old(buf.Consumed()), buf.Received(), buf.Consumed(),
                      buf.stream, handler, pos, |payload|, old(buf.base) + buf.size) == true
      ensures pos <= old(buf.Received()) ==> buf.start == old(buf.start)
    {
      PieceOfPiece(buf.stream, pos, payload, skip, |payload| - skip);
      var shown := ShowAnyway(lo, hi, payload[skip..], handler);
      given := Some(shown);
    }

    method ShowAnyway(lo: nat, hi: nat, data: seq<byte>, handler: seq<byte> -> nat) returns (given: seq<byte>)
      requires Valid() && !waits && buf.segs[0].second <= lo < hi <= buf.size
      requires buf.base + hi <= |buf.stream| && data == buf.stream[buf.base + lo..buf.base + hi]
      requires forall d: seq<byte> :: handler(d) <= |d|
      modifies buf`cnt, buf`taken, buf`start, buf`seqNum, buf`base, buf.segs, buf.bytes
      ensures Valid() && buf.Received() == old(buf.base) + hi
      ensures var from := if old(buf.segs[0].second) < lo then old(buf.base) + lo else old(buf.Consumed());
              && from <= buf.Received() && given == buf.stream[from..buf.Received()]
              && buf.Consumed() == buf.Received() - handler(given)
      ensures lo == old(buf.segs[0].second) ==> buf.start == old(buf.start)
    {
      if lo > buf.segs[0].second {
        buf.SkipTo(lo);
      }
      given := ShowNext(lo, hi, data, handler);
    }

    /** Shows data that comes next, when nothing else is waiting. */
    method ShowNext(lo: nat, hi: nat, data: seq<byte>, handler: seq<byte> -> nat) returns (given: seq<byte>)
      requires buf.Valid() && buf.cnt == 1 && buf.segs[0].second == lo < hi <= buf.size
      requires buf.base + hi <= |buf.stream| && data == buf.stream[buf.base + lo..buf.base + hi]
      requires forall d: seq<byte> :: handler(d) <= |d|
      modifies buf`cnt, buf`taken, buf`seqNum, buf`base, buf.segs, buf.bytes
      ensures buf.Valid() && buf.cnt == 1 && old(buf.Consumed()) <= buf.Received() == old(buf.base) + hi
      ensures given == buf.stream[old(buf.Consumed())..buf.Received()]
      ensures buf.Consumed() == buf.Received() - handler(given)
    {
      var shown;
      ghost var kept;
      shown, kept := Accept(lo, hi, data, handler);
      given := shown.value;
      Compact();
    }

    /** Adds a range of in-window data and hands over what is now in order. */
    method Accept(lo: nat, hi: nat, data: seq<byte>, handler: seq<byte> -> nat)
      returns (given: Option<seq<byte>>, ghost kept: bool)
      requires buf.Valid() && buf.segs[0].second <= lo < hi <= buf.size
      requires buf.base + hi <= |buf.stream| && data == buf.stream[buf.base + lo..buf.base + hi]
      requires forall d: seq<byte> :: handler(d) <= |d|
      modifies buf`cnt, buf`taken, buf.segs, buf.bytes
      ensures buf.Valid()
      ensures Shown(given, old(buf.segs[0]), buf.segs[0], lo, hi, buf.stream, buf.base, handler) == true
      ensures old(buf.cnt) == 1 && given.Some? ==> buf.segs[0].second == hi && buf.cnt == 1
      ensures given.Some? || old(buf.cnt) < MAX_SEG ==> kept
      ensures kept ==> Gained(old(buf.segs[..buf.cnt]), buf.segs[..buf.cnt], lo, hi, buf.segs[0].first) == true
      ensures !kept ==> buf.segs[..buf.cnt] == old(buf.segs[..buf.cnt])
    {
      ghost var was := buf.segs[..buf.cnt];
      var ok, i;
      ghost var j;
      ok, i, j := AddRange(lo, hi);
      kept := ok;
      FirstAfterMerge(was, lo, hi, i, j);
      if !ok {
        assert buf.segs[..buf.cnt] == was;
        return None, kept;
      }
      given := buf.Deliver(lo, hi, data, handler, was, i, j);
    }

    /** A packet of the running stream, in either mode. */
    method Continue(seqNum: uint32, payload: seq<byte>, handler: seq<byte> -> nat, ghost pos: nat)
      returns (given: Option<seq<byte>>, ghost kept: bool)
      requires Valid() && forall d: seq<byte> :: handler(d) <= |d|
      requires |payload| < 0x1_0000 && pos + |payload| <= |buf.stream| && payload == buf.stream[pos..pos + |payload|]
      requires seqNum == U32(buf.isn + pos) && -TWO31 <= pos - buf.Received() < TWO31
      modifies buf`cnt, buf`taken, buf`start, buf`seqNum, buf`base, buf.segs, buf.bytes
      ensures Valid() && (waits || pos <= old(buf.Received()) ==> buf.start == old(buf.start))
      ensures Rebuilt(waits, given, old(buf.Received()), old(buf.Consumed()), buf.Received(), buf.Consumed(),
                      buf.stream, handler, pos, |payload|, old(buf.base) + buf.size) == true
      ensures given.Some? && old(buf.cnt) == 1 ==> buf.Received() == pos + |payload|
      ensures waits ==>
                Grew(old(buf.segs[..buf.cnt]), old(buf.base), buf.segs[..buf.cnt], buf.base, pos, pos + |payload|, kept,
                     buf.Consumed()) == true
      ensures MustKeep(given, old(buf.Received()), old(buf.cnt), pos, |payload|, old(buf.base) + buf.size) ==> kept
    {
      kept := true;
      if waits {
        given, kept := Rebuild(seqNum, payload, handler, pos);
      } else {
        given := RebuildAnyway(seqNum, payload, handler, pos);
      }
    }

    /** `handlePacket`: a SYN, or the first packet ever, begins a new stream at its own
        position; any other packet belongs to the running one. */
    method HandlePacket(seqNum: uint32, syn: bool, payload: seq<byte>, handler: seq<byte> -> nat,
                        ghost str: seq<byte>, ghost pos: nat)
      returns (ret: bool, given: Option<seq<byte>>, ghost kept: bool)
      requires Valid() && forall d: seq<byte> :: handler(d) <= |d|
      requires |payload| < 0x1_0000 && pos + |payload| <= |str| && payload == str[pos..pos + |payload|]
      requires initStream && !syn ==>
                 && str == buf.stream && seqNum == U32(buf.isn + pos)
                 && -TWO31 <= pos - buf.Received() < TWO31
      modifies this, buf, buf.segs, buf.bytes
      ensures Valid() && initStream && buf.stream == str && ret == given.Some?
      ensures syn || !old(initStream) ==>
                && buf.start == pos && (given.Some? <==> 0 < |payload| <= buf.size)
                && (given.Some? ==> given.value == payload && buf.Consumed() == pos + |payload| - handler(payload))
                && (given.None? ==> buf.Consumed() == pos)
      ensures !syn && old(initStream) ==>
                && (waits || pos <= old(buf.Received()) ==> buf.start == old(buf.start))
                && Rebuilt(waits, given, old(buf.Received()), old(buf.Consumed()), buf.Received(), buf.Consumed(), str,
                           handler, pos, |payload|, old(buf.base) + buf.size) == true
      // when waiting, nothing that waits in the buffer is lost, and the packet is added
      // unless it does not fit or needs a sixth range
      ensures !syn && old(initStream) && waits ==>
                && Grew(old(buf.segs[..buf.cnt]), old(buf.base), buf.segs[..buf.cnt], buf.base, pos, pos + |payload|,
                        kept, buf.Consumed()) == true
                && (MustKeep(given, old(buf.Received()), old(buf.cnt), pos, |payload|, old(buf.base) + buf.size) ==>
                      kept)
    {
      var seqn := if syn then U32(seqNum + 1) else seqNum;
      if syn || !initStream {
        initStream := true;
        buf.Begin(seqn, str, pos);
      }
      given, kept := Continue(seqn, payload, handler, pos);
      ret := given.Some?;
    }

    /** Where the packet lies in the buffer, without what has been received before. */
    method Window(seqNum: uint32, size: nat, ghost pos: nat) returns (ok: bool, lo: nat, hi: nat, skip: nat)
      requires buf.Valid() && size < 0x1_0000
      requires seqNum == U32(buf.isn + pos) && -TWO31 <= pos - buf.Received() < TWO31
      ensures ok <==> size > 0 && buf.Received() < pos + size <= buf.base + buf.size
      ensures ok ==> && buf.segs[0].second <= lo < hi <= buf.size && buf.base + hi == pos + size && skip <= size
                     && buf.base + lo == pos + skip
                     && buf.base + lo == if pos < buf.Received() then buf.Received() else pos
    {
      LastIsLast(buf.segs[..buf.cnt], 0);
      WrapSub(buf.isn + pos, buf.isn + buf.base);
      ok, lo, hi, skip := Clip(U32(seqNum - buf.seqNum), size, buf.segs[0].second, buf.size, pos - buf.base);
    }
  }

  /** What the consumer is shown of a packet at `pos` with `len` bytes, and how far the data
      is in order and consumed afterwards. `edge` is the end of the buffer. */
  ghost predicate Rebuilt(waits: bool, given: Option<seq<byte>>, received: nat, consumed: nat, received': nat,
                          consumed': nat, stream: seq<byte>, handler: seq<byte> -> nat, pos: nat, len: int, edge: nat) {
    // it is called exactly when new data arrives that fits, in order if it waits for that
    && (given.Some? <==> len > 0 && (waits ==> pos <= received) && received < pos + len <= edge)
    // and then sees everything in order, from the last byte it consumed on or, after a
    // gap, from the packet on
    && (given.Some? ==>
          var from := if received < pos then pos else consumed;
          && pos + len <= received' <= |stream| && (!waits ==> received' == pos + len)
          && from <= received' && given.value == stream[from..received']
          && consumed' == received' - handler(given.value))
    && (given.None? ==> received' == received && consumed' == consumed)
  }

  /** The packet has to be kept: it fits, and there are ranges left or it comes next. */
  ghost predicate MustKeep(given: Option<seq<byte>>, received: nat, cnt: nat, pos: nat, len: nat, edge: nat) {
    given.Some? || (0 < len && received < pos + len <= edge && cnt < MAX_SEG)
  }

  lemma ShownIsRebuilt(given: Option<seq<byte>>, was: Seg, now: Seg, lo: nat, hi: nat, stream: seq<byte>, base: nat,
                       handler: seq<byte> -> nat, pos: nat, size: nat)
    requires Shown(given, was, now, lo, hi, stream, base, handler) && was.second <= lo < hi <= size
    requires pos <= base + lo == Max(pos, base + was.second)
    ensures Rebuilt(true, given, base + was.second, base + was.first, base + now.second, base + now.first, stream,
                    handler, pos, base + hi - pos, base + size)
  {
  }

  /** Cuts a packet at offset `p` (`loc` in 32 bits) to what is new and fits. */
  method Clip(loc: uint32, size: nat, got: nat, bufSize: nat, ghost p: int)
    returns (ok: bool, lo: nat, hi: nat, skip: nat)
    requires loc == U32(p) && size < 0x1_0000 && got <= bufSize <= 0x4000_0000 && -TWO31 <= p - got < TWO31
    ensures ok <==> size > 0 && got < p + size <= bufSize
    ensures ok ==> lo == (if p < got then got else p) && hi == p + size && skip == lo - p
  {
    var locEnd := U32(loc + size);
    assert locEnd == U32(p + size) by { WrapAdd(p, size); }
    OffsetDistance(loc, p, got);
    var diff := S32(loc - got);
    lo, hi, skip := loc, locEnd, 0;
    if diff < 0 {
      lo, skip := U32(loc - diff), -diff;
    }
    ok := size - skip > 0 && locEnd <= bufSize;
  }
}
