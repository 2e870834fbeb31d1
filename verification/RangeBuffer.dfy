/** The receive buffer both stream receivers work on: a byte array, the list of
    received ranges, and the sequence number of the buffer's first byte. For the
    proof it also knows the stream the packets are pieces of. */
module RangeBuffer {
  import opened Words
  import opened Segments
  import opened Reassembly

  const MAX_SEG: nat := 5

  /** `seqNum` is the sequence number of stream position `base`. */
  ghost predicate SeqOf(seqNum: uint32, isn: int, base: nat) {
    seqNum == U32(isn + base)
  }

  /** The new range `lo .. hi` was added after the first range `was`. If the two
      touch, the consumer was shown the stream from its last consumed byte to the
      new end of the first range, and what it did not take is the first range `now`.
      If not, it was shown nothing and the first range is as before. */
  ghost predicate Shown(given: Option<seq<byte>>, was: Seg, now: Seg, lo: nat, hi: nat,
                        stream: seq<byte>, base: nat, handler: seq<byte> -> nat) {
    if lo == was.second then
      && given.Some? && was.first <= was.second && hi <= now.second && base + now.second <= |stream|
      && was.first <= now.second && given.value == stream[base + was.first..base + now.second]
      && now.first == now.second - handler(given.value)
    else given.None? && now == was
  }

  class Buffer {
    const size: nat
    const bytes: array<byte>
    const segs: array<Seg>
    var seqNum: uint32
    var cnt: nat
    ghost var stream: seq<byte>
    ghost var isn: int
    ghost var base: nat
    ghost var start: nat
    ghost var taken: seq<byte>

    ghost predicate Shape()
      reads this
    {
      && 2 <= size <= 0x4000_0000 && size % 2 == 0 && bytes.Length == size && segs.Length == MAX_SEG
      && 1 <= cnt <= MAX_SEG && SeqOf(seqNum, isn, base) == true
    }

    ghost predicate BufferOk()
      reads this, bytes, segs
    {
      Shape() && ReceiverOk(segs[..cnt], bytes[..], stream, base) == true
    }

    /** `taken`, the bytes consumed since the stream began, is a gap-free,
        duplicate-free piece of the stream that was sent. */
    ghost predicate Valid()
      reads this, bytes, segs
    {
      BufferOk() && TakenOk(stream, start, Consumed(), taken) == true
    }

    /** The stream position up to which everything has arrived, and the one up to
        which it has been consumed. */
    ghost function Received(): (p: nat)
      requires segs.Length > 0
      reads this, segs
    {
      base + segs[0].second
    }

    ghost function Consumed(): (p: nat)
      requires segs.Length > 0
      reads this, segs
    {
      base + segs[0].first
    }

    constructor (size: nat)
      requires 2 <= size <= 0x4000_0000 && size % 2 == 0
      ensures Valid() && this.size == size && cnt == 1 && fresh(bytes) && fresh(segs)
    {
      this.size := size;
      bytes := new byte[size](_ => 0);
      segs := new Seg[MAX_SEG](_ => Seg(0, 0));
      seqNum, cnt := 0, 1;
      stream, isn, base, start, taken := [], 0, 0, 0, [];
    }

    /** Starts a stream at the position of its first packet. */
    method Begin(first: uint32, ghost str: seq<byte>, ghost pos: nat)
      requires Shape() && pos <= |str|
      modifies this, segs
      ensures Valid() && stream == str && isn == first - pos && base == start == pos
      ensures cnt == 1 && segs[0] == Seg(0, 0)
    {
      seqNum, cnt := first, 1;
      segs[0] := Seg(0, 0);
      stream, isn, base, start, taken := str, first - pos, pos, pos, [];
    }

    /** Gives up on what is missing before offset `lo`, and on what the consumer left. */
    method SkipTo(lo: nat)
      requires Valid() && cnt == 1 && lo <= size && base + lo <= |stream|
      modifies this`start, this`taken, segs
      ensures Valid() && segs[..cnt] == [Seg(lo, lo)] && start == base + lo && taken == []
    {
      segs[0] := Seg(lo, lo);
      start, taken := base + lo, [];
      assert segs[..cnt] == [Seg(lo, lo)];
    }

    // ---- delivery ----

    /** The range `lo .. hi` has just been put into the list `was`. */
    ghost predicate JustInserted(was: seq<Seg>, lo: nat, hi: nat, i: nat, j: nat, data: seq<byte>)
      reads this, bytes, segs
    {
      Shape() && Inserted(was, segs[..cnt], bytes[..], stream, base, lo, hi, i, j, data) == true
    }

    /** Hands the packet's own data over and keeps what the consumer leaves. */
    method HandOver(lo: nat, hi: nat, data: seq<byte>, handler: seq<byte> -> nat,
                    ghost was: seq<Seg>, ghost i: nat, ghost j: nat)
      requires JustInserted(was, lo, hi, i, j, data) == true && segs[0] == Seg(lo, hi)
      requires forall d: seq<byte> :: handler(d) <= |d|
      modifies segs, bytes
      ensures BufferOk() && segs[0] == Seg(hi - handler(data), hi) && segs[..cnt] == old(segs[..cnt])[0 := segs[0]]
      ensures Gained(was, segs[..cnt], lo, hi, segs[0].first) == true
    {
      ghost var m, buf := segs[..cnt], bytes[..];
      var remaining := handler(data);
      CopyIn(bytes, hi - remaining, data[|data| - remaining..]);
      HandedOver(was, m, buf, bytes[..], stream, base, lo, hi, i, j, data, remaining);
      SetFirst(segs, cnt, Seg(hi - remaining, hi));
    }

    /** Hands the whole first range over and keeps what the consumer leaves. */
    method GiveFirst(handler: seq<byte> -> nat) returns (handed: seq<byte>)
      requires BufferOk() && forall d: seq<byte> :: handler(d) <= |d|
      modifies segs
      ensures BufferOk() && base + old(segs[0].first) <= base + old(segs[0].second) <= |stream|
      ensures handed == stream[base + old(segs[0].first)..base + old(segs[0].second)]
      ensures handler(handed) <= old(segs[0].second)
      ensures segs[..cnt] == AfterTaking(old(segs[..cnt]), handler(handed))
    {
      ghost var m := segs[..cnt];
      LastIsLast(m, 0);
      handed := bytes[segs[0].first..segs[0].second];
      RangeIsSlice(m, bytes[..], stream, base, 0);
      var remaining := handler(handed);
      SetFirst(segs, cnt, Seg(segs[0].second - remaining, segs[0].second));
      ConsumedOk(m, bytes[..], stream, base, remaining);
    }

    /** Stores the data; if it extends the first range, hands all of that over. */
    method Store(lo: nat, hi: nat, data: seq<byte>, handler: seq<byte> -> nat,
                 ghost was: seq<Seg>, i: nat, ghost j: nat) returns (given: Option<seq<byte>>)
      requires JustInserted(was, lo, hi, i, j, data) == true && forall d: seq<byte> :: handler(d) <= |d|
      modifies segs, bytes
      ensures BufferOk() && (given.Some? <==> i == 0)
      ensures given.Some? ==>
                && segs[0].second == old(segs[0].second) && base + segs[0].second <= |stream|
                && old(segs[0].first) <= segs[0].second
                && given.value == stream[base + old(segs[0].first)..base + segs[0].second]
                && segs[0].first == segs[0].second - handler(given.value)
      ensures given.None? ==> segs[0] == old(segs[0])
      ensures segs[..cnt] == old(segs[..cnt])[0 := segs[0]]
      ensures Gained(was, segs[..cnt], lo, hi, segs[0].first) == true
    {
      ghost var m, buf := segs[..cnt], bytes[..];
      CopyIn(bytes, lo, data);
      Stored(was, m, buf, bytes[..], stream, base, lo, hi, i, j, data);
      if i != 0 {
        return None;
      }
      var handed := GiveFirst(handler);
      MergedThenTaken(was, lo, hi, i, j, handler(handed));
      given := Some(handed);
    }

    /** What the consumer is shown if the new range extends the first one: the packet
        itself where that is all there is, the buffer otherwise. */
    method Show(lo: nat, hi: nat, data: seq<byte>, handler: seq<byte> -> nat,
                ghost was: seq<Seg>, i: nat, ghost j: nat) returns (given: Option<seq<byte>>)
      requires JustInserted(was, lo, hi, i, j, data) == true && forall d: seq<byte> :: handler(d) <= |d|
      modifies segs, bytes
      ensures BufferOk() && |was| > 0
      ensures Shown(given, was[0], segs[0], lo, hi, stream, base, handler) == true
      ensures |was| == 1 && given.Some? ==> segs[0].second == hi
      ensures segs[0].second == old(segs[0].second) && segs[..cnt] == old(segs[..cnt])[0 := segs[0]]
      ensures Gained(was, segs[..cnt], lo, hi, segs[0].first) == true
    {
      FirstAfterMerge(was, lo, hi, i, j);
      if segs[0] == Seg(lo, hi) {
        HandOver(lo, hi, data, handler, was, i, j);
        given := Some(data);
      } else {
        given := Store(lo, hi, data, handler, was, i, j);
      }
    }

    /** The same, with the bytes the consumer takes recorded. */
    method Deliver(lo: nat, hi: nat, data: seq<byte>, handler: seq<byte> -> nat,
                   ghost was: seq<Seg>, i: nat, ghost j: nat) returns (given: Option<seq<byte>>)
      requires JustInserted(was, lo, hi, i, j, data) == true && forall d: seq<byte> :: handler(d) <= |d|
      requires |was| > 0 && TakenOk(stream, start, base + was[0].first, taken) == true
      modifies this`taken, segs, bytes
      ensures Valid()
      ensures Shown(given, was[0], segs[0], lo, hi, stream, base, handler) == true
      ensures |was| == 1 && given.Some? ==> segs[0].second == hi
      ensures segs[0].second == old(segs[0].second) && segs[..cnt] == old(segs[..cnt])[0 := segs[0]]
      ensures Gained(was, segs[..cnt], lo, hi, segs[0].first) == true
    {
      given := Show(lo, hi, data, handler, was, i, j);
      if given.Some? {
        Record(given.value, base + was[0].first, handler(given.value));
      }
    }

    /** The consumer was shown these bytes and has taken all but the last `kept`. */
    ghost method Record(shown: seq<byte>, from: nat, kept: nat)
      requires BufferOk() == true && TakenOk(stream, start, from, taken) == true
      requires from + |shown| <= |stream| && shown == stream[from..from + |shown|]
      requires kept <= |shown| && segs.Length > 0 && Consumed() == from + |shown| - kept
      modifies this`taken
      ensures Valid()
    {
      TakenMore(stream, start, from, taken, shown, kept);
      taken := taken + shown[..|shown| - kept];
    }

    // ---- compaction ----

    /** Moves everything not yet consumed to the front of the buffer. */
    method MoveDown()
      requires Valid() && segs[0].first >= size / 2
      modifies this`seqNum, this`base, segs, bytes
      ensures Valid() && Received() == old(Received()) && Consumed() == old(Consumed()) && segs[0].first == 0
      ensures base == old(base + segs[0].first) && SameHolding(old(segs[..cnt]), old(base), segs[..cnt], base) == true
    {
      ghost var was, buf := segs[..cnt], bytes[..];
      LastIsLast(was, 0);
      AllBeyondFirst(was);
      var diff := segs[0].first;
      Slide(diff);
      CompactedOk(was, buf, bytes[..], stream, base);
      ShiftedHolds(was, base, diff);
      Rebase(diff);
    }

    /** Copies the ranges down by `diff` and subtracts it from their offsets. */
    method Slide(diff: nat)
      requires Shape() && diff <= segs[cnt - 1].second <= size && segs[cnt - 1].second <= 2 * diff
      requires forall i :: 0 <= i < cnt ==> diff <= segs[..cnt][i].first && diff <= segs[..cnt][i].second
      modifies segs, bytes
      ensures Written(old(bytes[..]), bytes[..], 0, old(bytes[..])[diff..old(segs[cnt - 1].second)])
      ensures segs[..cnt] == Shifted(old(segs[..cnt]), diff)
    {
      CopyDown(bytes, diff, segs[cnt - 1].second - diff);
      ShiftAll(segs, cnt, diff);
    }

    /** The buffer begins `diff` positions later. */
    method Rebase(diff: nat)
      requires Shape()
      modifies this`seqNum, this`base
      ensures Shape() && base == old(base) + diff
    {
      WrapAdd(isn + base, diff);
      seqNum := U32(seqNum + diff);
      base := base + diff;
    }
  }

  /** The byte at stream position `p` is waiting in the buffer. */
  ghost predicate Holds(segs: seq<Seg>, base: nat, p: int) {
    Covers(segs, p - base)
  }

  ghost predicate SameHolding(was: seq<Seg>, base: nat, now: seq<Seg>, base': nat) {
    forall p: int :: Holds(now, base', p) <==> Holds(was, base, p)
  }

  /** From position `from` on, what is held is what was held before, and the
      positions `lo .. hi` too if they were `kept`. */
  ghost predicate Grew(was: seq<Seg>, base: nat, now: seq<Seg>, base': nat, lo: nat, hi: nat, kept: bool, from: int) {
    forall p: int :: p >= from ==> (Holds(now, base', p) <==> Holds(was, base, p) || (kept && lo <= p < hi))
  }

  lemma ShiftedHolds(segs: seq<Seg>, base: nat, d: nat)
    requires forall i :: 0 <= i < |segs| ==> d <= segs[i].first && d <= segs[i].second
    ensures SameHolding(segs, base, Shifted(segs, d), base + d)
  {
    var now, base' := Shifted(segs, d), base + d;
    forall p: int
      ensures Holds(now, base', p) <==> Holds(segs, base, p)
    {
      ShiftedCovers(segs, d, p - (base + d));
    }
  }

  lemma GrewBy(was: seq<Seg>, base: nat, now: seq<Seg>, lo: nat, hi: nat, kept: bool, pos: nat, from: nat)
    requires if kept then Gained(was, now, lo, hi, from) else was == now
    requires Sorted(was) && was[0].first <= from && pos <= base + lo
    requires pos < base + lo ==> lo == was[0].second
    ensures Grew(was, base, now, base, pos, base + hi, kept, base + from)
  {
    forall p: int | p >= base + from
      ensures Holds(now, base, p) <==> Holds(was, base, p) || (kept && pos <= p < base + hi)
    {
      if pos <= p < base + lo {
        assert was[0].first <= p - base < was[0].second;
      }
    }
  }

  lemma GrewThenMoved(was: seq<Seg>, base: nat, mid: seq<Seg>, base1: nat, now: seq<Seg>, base2: nat,
                      lo: nat, hi: nat, kept: bool, from: int)
    requires Grew(was, base, mid, base1, lo, hi, kept, from) && SameHolding(mid, base1, now, base2)
    ensures Grew(was, base, now, base2, lo, hi, kept, from)
  {
    forall p: int | p >= from
      ensures Holds(now, base2, p) <==> Holds(was, base, p) || (kept && lo <= p < hi)
    {
      assert Holds(now, base2, p) <==> Holds(mid, base1, p);
    }
  }

  /** The new range is in the list; its data is not in the buffer yet. */
  ghost predicate Inserted(was: seq<Seg>, now: seq<Seg>, buf: seq<byte>, stream: seq<byte>, base: nat,
                           lo: nat, hi: nat, i: nat, j: nat, data: seq<byte>) {
    && ReceiverOk(was, buf, stream, base) && Located(was, lo, hi, i, j)
    && was[0].second <= lo < hi <= |buf| && now == Merged(was, lo, hi, i, j)
    && base + hi <= |stream| && data == stream[base + lo..base + hi]
  }

  /** From offset `from` on, `now` covers what `was` did and the range. */
  ghost predicate Gained(was: seq<Seg>, now: seq<Seg>, lo: nat, hi: nat, from: int) {
    forall x: int :: x >= from ==> (Covers(now, x) <==> Covers(was, x) || lo <= x < hi)
  }

  lemma HandedOver(was: seq<Seg>, now: seq<Seg>, buf: seq<byte>, buf': seq<byte>, stream: seq<byte>, base: nat,
                   lo: nat, hi: nat, i: nat, j: nat, data: seq<byte>, kept: nat)
    requires Inserted(was, now, buf, stream, base, lo, hi, i, j, data)
    requires now[0] == Seg(lo, hi) && kept <= |data| && Written(buf, buf', hi - kept, data[|data| - kept..])
    ensures ReceiverOk(AfterTaking(now, kept), buf', stream, base)
    ensures Gained(was, AfterTaking(now, kept), lo, hi, hi - kept)
  {
    ZeroCopyOk(was, buf, buf', stream, base, lo, hi, i, j, data, kept);
    MergedThenTaken(was, lo, hi, i, j, kept);
  }

  lemma Stored(was: seq<Seg>, now: seq<Seg>, buf: seq<byte>, buf': seq<byte>, stream: seq<byte>, base: nat,
               lo: nat, hi: nat, i: nat, j: nat, data: seq<byte>)
    requires Inserted(was, now, buf, stream, base, lo, hi, i, j, data) && Written(buf, buf', lo, data)
    ensures ReceiverOk(now, buf', stream, base)
    ensures Gained(was, now, lo, hi, now[0].first)
  {
    MergedOk(was, buf, buf', stream, base, lo, hi, i, j, data);
    MergedThenTaken(was, lo, hi, i, j, 0);
  }

  lemma MergedThenTaken(was: seq<Seg>, lo: nat, hi: nat, i: nat, j: nat, kept: nat)
    requires Sorted(was) && lo < hi && was[0].second <= lo && Located(was, lo, hi, i, j)
    requires var m := Merged(was, lo, hi, i, j); kept <= m[0].second - m[0].first
    ensures var m := Merged(was, lo, hi, i, j);
            Gained(was, AfterTaking(m, kept), lo, hi, m[0].second - kept) && Gained(was, m, lo, hi, m[0].first)
  {
    var m := Merged(was, lo, hi, i, j);
    MergedSorted(was, lo, hi, i, j);
    forall x: int
      ensures Covers(m, x) <==> Covers(was, x) || lo <= x < hi
      ensures Covers(AfterTaking(m, kept), x) <==> Covers(m, x) && x >= m[0].second - kept
    {
      MergedCovers(was, lo, hi, i, j, x);
      ConsumedCovers(m, kept, x);
    }
  }

  lemma FirstAfterMerge(was: seq<Seg>, lo: nat, hi: nat, i: nat, j: nat)
    requires Sorted(was) && lo < hi && was[0].second <= lo && Located(was, lo, hi, i, j)
    ensures (i == 0 <==> was[0].second == lo) && (i == 0 ==> j > 0)
    ensures var m := Merged(was, lo, hi, i, j)[0];
            && m.first == was[0].first && (i > 0 ==> m == was[0]) && (i == 0 ==> hi <= m.second)
            && (i == 0 && |was| == 1 ==> m.second == hi) && (m == Seg(lo, hi) ==> i == 0)
  {
    MergedSorted(was, lo, hi, i, j);
  }
}
