/** What a segment does to what a connection has received, as values: which segments
    are acceptable, what is in order afterwards, what is kept and what is freed. */
module RecvSpec {
  import opened Words
  import opened Segments
  import opened Reassembly
  import opened RangeBuffer
  import opened RecvWindow

  /** What became of a segment. `given` is what the consumer was shown, `last` what
      was left for it when the FIN was reached. */
  datatype Outcome =
    | Unacceptable
    | Overrun(given: Option<seq<byte>>)
    | Processed(given: Option<seq<byte>>, last: Option<seq<byte>>)

  /** The acceptance test of the code on true offsets: `got` is the end of the
      in-order data, `size` the end of the buffer, `a .. e` the segment, FIN included. */
  predicate Acceptable(a: int, e: int, got: nat, size: nat) {
    !((a < got || a >= size) && (e <= got || e > size))
  }

  method InWindow(loc: uint32, end: uint32, got: nat, size: nat, ghost a: int, ghost e: int) returns (ok: bool)
    requires loc == U32(a) && end == U32(e) && size - TWO31 <= a <= e < TWO31 && got <= size < TWO31
    ensures ok <==> Acceptable(a, e, got, size)
  {
    OffsetDistance(loc, a, got);
    OffsetDistance(loc, a, size);
    OffsetDistance(end, e, got);
    OffsetDistance(end, e, size);
    ok := !((S32(loc - got) < 0 || S32(loc - size) >= 0) && (S32(end - got) <= 0 || S32(end - size) > 0));
  }

  /** Cuts an acceptable segment to the window: `lo .. hi` is what is left of its text,
      without the first `skip` bytes, and `finHere` says whether its FIN is still there. */
  method Clip(loc: uint32, end: uint32, fin: bool, got: nat, size: nat, ghost a: int, ghost e: int)
    returns (lo: nat, hi: nat, skip: nat, finHere: bool)
    requires loc == U32(a) && end == U32(e) && size - TWO31 <= a <= e - One(fin) && e < TWO31 && got <= size < TWO31
    requires Acceptable(a, e, got, size)
    ensures lo == (if a < got then got else a) && hi == (if e - One(fin) < size then e - One(fin) else size)
    ensures skip == lo - a && (finHere <==> fin && e - One(fin) <= size)
  {
    OffsetDistance(loc, a, got);
    OffsetDistance(end, e, got);
    lo, skip, finHere := loc, 0, fin;
    var diff := S32(loc - got);
    if diff < 0 {
      lo, skip := U32(loc - diff), -diff;
    }
    hi := U32(end - One(fin));
    if hi > size {
      hi, finHere := size, false;
    }
  }

  /** It is the test of section 3.10.7.4 of RFC 9293 with RCV.NXT = got and
      RCV.WND = size - got, except that an empty segment may also sit exactly at the
      right edge of the window. */
  lemma AcceptableIsRfc(a: int, e: int, got: nat, size: nat)
    requires got < size && a <= e
    ensures a < e ==> (Acceptable(a, e, got, size) <==> got <= a < size || got <= e - 1 < size)
    ensures a == e ==> (Acceptable(a, e, got, size) <==> got <= a < size || a == size)
  {
  }

  // ---- what is kept when there are too many ranges ----

  /** From offset `from` on, `now` covers what `was` did and the range `lo .. hi`, but
      nothing at or after `limit`. */
  ghost predicate GainedBelow(was: seq<Seg>, now: seq<Seg>, lo: nat, hi: nat, from: int, limit: int) {
    forall x: int :: x >= from ==> (Covers(now, x) <==> x < limit && (Covers(was, x) || lo <= x < hi))
  }

  /** The same for stream positions. */
  ghost predicate GrewBelow(was: seq<Seg>, base: nat, now: seq<Seg>, base': nat, lo: int, hi: int,
                            from: int, limit: int) {
    forall p: int :: p >= from ==>
                       (Holds(now, base', p) <==> p < limit && (Holds(was, base, p) || lo <= p < hi))
  }

  /** `payload` is the piece of the stream at `pos`; without text, `pos` may be anywhere. */
  ghost predicate IsPiece(payload: seq<byte>, stream: seq<byte>, pos: nat) {
    payload == [] || (pos + |payload| <= |stream| && payload == stream[pos..pos + |payload|])
  }

  /** The in-order data ended at `received` and is consumed up to `consumed`; the
      consumer was shown all of it, or there was nothing new. */
  ghost predicate Advanced(given: Option<seq<byte>>, received: nat, consumed: nat, received': int, consumed': nat,
                           stream: seq<byte>, handler: seq<byte> -> nat) {
    match given
    case Some(data) =>
      && received <= received' <= |stream| && consumed <= received' && data == stream[consumed..received']
      && consumed' == received' - handler(data)
    case None => received' == received && consumed' == consumed
  }

  lemma ShownAdvances(given: Option<seq<byte>>, was: Seg, now: Seg, lo: nat, hi: nat,
                      stream: seq<byte>, base: nat, handler: seq<byte> -> nat)
    requires Shown(given, was, now, lo, hi, stream, base, handler) && was.second < hi
    ensures given.Some? <==> lo == was.second
    ensures given.Some? ==> hi <= now.second
    ensures Advanced(given, base + was.second, base + was.first, base + now.second, base + now.first,
                     stream, handler)
  {
  }

  lemma GrewToo(was: seq<Seg>, base: nat, mid: seq<Seg>, now: seq<Seg>, base': nat, lo: nat, hi: nat,
                from: int, limit: int)
    requires GainedBelow(was, mid, lo, hi, from, limit) && SameHolding(mid, base, now, base')
    ensures GrewBelow(was, base, now, base', base + lo, base + hi, base + from, base + limit)
  {
    forall p: int | p >= base + from
      ensures Holds(now, base', p) <==> p < base + limit && (Holds(was, base, p) || base + lo <= p < base + hi)
    {
      assert Holds(now, base', p) <==> Holds(mid, base, p);
    }
  }

  /** The FIN of a segment has been taken exactly when the whole stream is there; the
      consumer has then been shown what it had not consumed. */
  ghost predicate Ended(r: Outcome, fin: bool, finReceived: bool, received: nat, consumed: nat, stream: seq<byte>) {
    match r
    case Processed(_, last) =>
      && (finReceived <==> fin && received - One(finReceived) == |stream|)
      && (last.Some? <==> finReceived)
      && (last.Some? ==> consumed <= |stream| && last.value == stream[consumed..])
    case _ => !finReceived
  }

  /** Adding an empty range. */
  lemma HeldInside(segs: seq<Seg>, buf: seq<byte>, stream: seq<byte>, base: nat, lo: int, hi: int, from: int)
    requires ReceiverOk(segs, buf, stream, base) && hi <= lo
    ensures GrewBelow(segs, base, segs, base, lo, hi, from, base + |buf| + 1)
  {
    forall p: int | p >= from && Holds(segs, base, p)
      ensures p < base + |buf|
    {
      assert AgreesAt(buf, stream, base, p - base);
    }
  }

  /** Forgetting the last range. */
  lemma WithoutLast(segs: seq<Seg>, buf: seq<byte>, stream: seq<byte>, base: nat)
    requires ReceiverOk(segs, buf, stream, base) && |segs| >= 2
    ensures ReceiverOk(segs[..|segs| - 1], buf, stream, base)
  {
    var use, last: nat := segs[..|segs| - 1], |segs| - 1;
    forall i: nat | i < |use|
      ensures InPlace(use, i)
    {
      assert InPlace(segs, i);
    }
    forall x: int | Covers(use, x)
      ensures AgreesAt(buf, stream, base, x)
    {
      var i :| 0 <= i < |use| && use[i].first <= x < use[i].second;
      assert segs[i] == use[i];
    }
    LastIsLast(segs, last - 1);
  }

  lemma WithoutLastCovers(segs: seq<Seg>, x: int)
    requires Sorted(segs) && |segs| >= 2
    ensures Covers(segs[..|segs| - 1], x) <==> Covers(segs, x) && x < segs[|segs| - 1].first
  {
    var use, last: nat := segs[..|segs| - 1], |segs| - 1;
    if Covers(use, x) {
      var i: nat :| i < |use| && use[i].first <= x < use[i].second;
      assert InPlace(segs, i) && segs[i] == use[i];
    }
    if Covers(segs, x) && x < segs[last].first {
      var i :| 0 <= i < |segs| && segs[i].first <= x < segs[i].second;
      assert use[i] == segs[i];
    }
  }

  /** What is covered after adding a range, with the last range forgotten or not. */
  lemma GainedAfter(was: seq<Seg>, use: seq<Seg>, now: seq<Seg>, buf: seq<byte>, stream: seq<byte>, base: nat,
                    lo: nat, hi: nat, from: int)
    requires Sorted(was) && ReceiverOk(now, buf, stream, base) && Gained(use, now, lo, hi, from)
    requires use == was || (|was| >= 2 && use == was[..|was| - 1] && hi < was[|was| - 1].first)
    ensures GainedBelow(was, now, lo, hi, from, if use == was then |buf| + 1 else was[|was| - 1].first)
    ensures |was| >= 2 ==> was[0].second < was[|was| - 1].first
  {
    assert InPlace(was, 0);
    forall x: int | x >= from
      ensures var limit := if use == was then |buf| + 1 else was[|was| - 1].first;
              Covers(now, x) <==> x < limit && (Covers(was, x) || lo <= x < hi)
    {
      if use != was {
        WithoutLastCovers(was, x);
      } else if Covers(now, x) {
        assert AgreesAt(buf, stream, base, x);
      }
    }
  }

  /** Writing after the last range changes no received byte. */
  lemma WrittenBeyond(segs: seq<Seg>, was: seq<byte>, buf: seq<byte>, stream: seq<byte>, base: nat,
                      lo: nat, data: seq<byte>)
    requires ReceiverOk(segs, was, stream, base) && Written(was, buf, lo, data)
    requires segs[|segs| - 1].second <= lo
    ensures ReceiverOk(segs, buf, stream, base)
    ensures forall x: int :: Covers(segs, x) ==> x < lo
  {
    forall x: int | Covers(segs, x)
      ensures AgreesAt(buf, stream, base, x) && x < lo
    {
      var i :| 0 <= i < |segs| && segs[i].first <= x < segs[i].second;
      LastIsLast(segs, i);
      assert AgreesAt(was, stream, base, x);
    }
  }

  /** When the consumer has taken everything, nothing is waiting. */
  lemma AllConsumed(segs: seq<Seg>, base: nat)
    requires Sorted(segs) && segs[0].first == segs[|segs| - 1].second
    ensures |segs| == 1 && SameHolding(segs, base, [Seg(0, 0)], base + segs[0].first)
  {
    assert InPlace(segs, 0) && InPlace(segs, |segs| - 1);
  }

  // ---- what is in order afterwards ----

  /** The received ranges, as offsets from stream position `base`. */
  datatype Rcv = Rcv(segs: seq<Seg>, base: nat)

  /** The position up to which everything has arrived, and the consumed one. */
  function Got(v: Rcv): (p: nat)
    requires |v.segs| > 0
  {
    v.base + v.segs[0].second
  }

  function Used(v: Rcv): (p: nat)
    requires |v.segs| > 0
  {
    v.base + v.segs[0].first
  }

  /** The end of what a range up to `hi` touches. */
  function Reached(segs: seq<Seg>, hi: nat): (end: nat)
    ensures end >= hi
  {
    if segs == [] then hi
    else
      var last := segs[|segs| - 1];
      if last.first <= hi then Max(last.second, hi) else Reached(segs[..|segs| - 1], hi)
  }

  /** The end of the in-order data once the range `lo .. hi` is added. */
  function InOrderEnd(segs: seq<Seg>, lo: int, hi: int): (end: nat)
    requires |segs| > 0
  {
    if lo < hi && lo == segs[0].second then Reached(segs, hi) else segs[0].second
  }

  lemma {:induction false} ReachedIs(segs: seq<Seg>, hi: nat, j: nat)
    requires 0 < j <= |segs| && segs[j - 1].first <= hi
    requires forall k :: j <= k < |segs| ==> segs[k].first > hi
    ensures Reached(segs, hi) == Max(segs[j - 1].second, hi)
    decreases |segs|
  {
    if j < |segs| { ReachedIs(segs[..|segs| - 1], hi, j); }
  }

  /** It is where the first of the merged ranges ends. */
  lemma MergedEnd(segs: seq<Seg>, lo: nat, hi: nat, i: nat, j: nat)
    requires Sorted(segs) && lo < hi && segs[0].second <= lo && Located(segs, lo, hi, i, j)
    ensures Merged(segs, lo, hi, i, j)[0].second == InOrderEnd(segs, lo, hi)
  {
    MergedSorted(segs, lo, hi, i, j);
    if i == 0 {
      assert LocatedAt(segs, lo, hi, i, j, j - 1);
      forall k | j <= k < |segs|
        ensures segs[k].first > hi
      {
        assert LocatedAt(segs, lo, hi, i, j, k);
      }
      ReachedIs(segs, hi, j);
    }
  }

  /** So it is the first position after the in-order data that has not arrived. */
  lemma EndIsFirstGap(segs: seq<Seg>, lo: nat, hi: nat, i: nat, j: nat, x: int)
    requires Sorted(segs) && lo < hi && segs[0].second <= lo && Located(segs, lo, hi, i, j)
    ensures segs[0].second <= x < InOrderEnd(segs, lo, hi) ==> Covers(segs, x) || lo <= x < hi
    ensures x == InOrderEnd(segs, lo, hi) ==> !Covers(segs, x) && !(lo <= x < hi)
  {
    var m := Merged(segs, lo, hi, i, j);
    MergedEnd(segs, lo, hi, i, j);
    MergedSorted(segs, lo, hi, i, j);
    MergedCovers(segs, lo, hi, i, j, x);
    assert InPlace(m, 0);
    if segs[0].second <= x < m[0].second { assert Covers(m, x); }
  }

  /** Where the last of the merged ranges ends, if the new one touches the first. */
  lemma MergedLast(segs: seq<Seg>, lo: nat, hi: nat, i: nat, j: nat)
    requires Sorted(segs) && lo < hi && segs[0].second == lo && Located(segs, lo, hi, i, j)
    ensures var m := Merged(segs, lo, hi, i, j);
            |m| > 0 && m[|m| - 1].second == Max(hi, segs[|segs| - 1].second)
  {
    MergedSorted(segs, lo, hi, i, j);
    if j < |segs| { assert LocatedAt(segs, lo, hi, i, j, |segs| - 1) && InPlace(segs, |segs| - 1); }
  }

  /** How many bytes at the front of the buffer are freed: nothing until it is worth a
      full segment, and then only if nothing has to be moved or half the buffer is won. */
  function FreedBytes(first: int, last: nat, rmss: nat, size: nat): (d: nat)
    ensures d == 0 || rmss <= d == first
  {
    if 0 <= first && first >= rmss && (first == last || first >= size / 2) then first else 0
  }

  /** What adding the range `lo .. hi` has done to the list, before anything is freed. */
  ghost predicate RangeEffect(was: seq<Seg>, now: seq<Seg>, base: nat, size: nat, lo: nat, hi: nat,
                              stream: seq<byte>, handler: seq<byte> -> nat, given: Option<seq<byte>>, limit: nat) {
    && |was| > 0 && |now| > 0 && was[0].second <= lo < hi && now[0].second == InOrderEnd(was, lo, hi) < limit
    && Shown(given, was[0], now[0], lo, hi, stream, base, handler)
    && (if given.Some? then now[|now| - 1].second == Max(hi, was[|was| - 1].second) else |now| >= 2)
    && GainedBelow(was, now, lo, hi, now[0].first, limit) == true
    && (|was| < MAX_SEG || given.Some? ==> limit > size) && (limit <= size ==> limit == lo || hi < limit)
  }

  /** The same, for the verifier to take apart on demand. */
  ghost predicate Took(was: seq<Seg>, now: seq<Seg>, base: nat, size: nat, lo: nat, hi: nat, stream: seq<byte>,
                       handler: seq<byte> -> nat, given: Option<seq<byte>>, limit: nat) {
    forall s: seq<Seg> :: s == now ==> RangeEffect(was, s, base, size, lo, hi, stream, handler, given, limit)
  }

  /** What the text `pos .. pos + len` of an acceptable segment has done, from `v` to `v'`.
      All of it is said of the state before, the segment and the consumer's answer. */
  ghost predicate TextEffect(v: Rcv, v': Rcv, size: nat, rmss: nat, stream: seq<byte>, pos: nat, len: nat,
                             handler: seq<byte> -> nat, given: Option<seq<byte>>, limit: nat) {
    && |v.segs| > 0 && |v'.segs| > 0
    && var lo, hi := Max(pos, Got(v)) - v.base, Min(pos + len, v.base + size) - v.base;
    // the in-order data ends at the first position that has not arrived
    && Got(v') == v.base + InOrderEnd(v.segs, lo, hi) < limit
    // the consumer is called exactly when in-order data arrives, and sees all of it
    && (given.Some? <==> pos <= Got(v) < pos + len)
    && Advanced(given, Got(v), Used(v), Got(v'), Used(v'), stream, handler)
    // what is freed
    && v'.base == v.base + FreedBy(v, size, rmss, lo, hi, if given.Some? then handler(given.value) else 0)
    // everything waiting stays, and the segment is added, up to a limit that matters only
    // when all ranges were in use
    && GrewBelow(v.segs, v.base, v'.segs, v'.base, v.base + lo, v.base + hi, Used(v'), limit) == true
    && (|v.segs| < MAX_SEG || given.Some? ==> limit > v.base + size)
    && (limit <= v.base + size ==> limit == v.base + lo || v.base + hi < limit)
  }

  /** The same, said with a quantifier so that the verifier takes it apart only where
      `TextEffect` is asked for. */
  ghost predicate TextTaken(v: Rcv, v': Rcv, size: nat, rmss: nat, stream: seq<byte>, pos: nat, len: nat,
                            handler: seq<byte> -> nat, given: Option<seq<byte>>, limit: nat) {
    forall w: Rcv :: w == v' ==> TextEffect(v, w, size, rmss, stream, pos, len, handler, given, limit)
  }

  /** What is freed when the range `lo .. hi` arrives and the consumer leaves `left` bytes
      of what it is shown. */
  function FreedBy(v: Rcv, size: nat, rmss: nat, lo: int, hi: int, left: nat): (d: nat)
    requires |v.segs| > 0
  {
    if lo < hi && lo == v.segs[0].second then
      FreedBytes(InOrderEnd(v.segs, lo, hi) - left, Max(hi, v.segs[|v.segs| - 1].second), rmss, size)
    else 0
  }

  /** A received FIN counts as one more byte. */
  function WithoutFin(v: Rcv, finReceived: bool): (v': Rcv)
    requires |v.segs| > 0
  {
    if finReceived && v.segs[0].second > 0 then v.(segs := v.segs[0 := Seg(v.segs[0].first, v.segs[0].second - 1)])
    else v
  }

  /** What the whole segment has done: its FIN is taken exactly when everything before it
      has arrived. */
  ghost predicate Taken(v: Rcv, v': Rcv, size: nat, rmss: nat, stream: seq<byte>, pos: nat, len: nat, fin: bool,
                        handler: seq<byte> -> nat, r: Outcome, finReceived: bool, limit: nat) {
    && |v'.segs| > 0 && !r.Unacceptable?
    && TextTaken(v, WithoutFin(v', finReceived), size, rmss, stream, pos, len, handler, r.given, limit)
    && Ended(r, fin, finReceived, Got(v'), Used(v'), stream)
    && (r.Processed? ==> (finReceived <==> fin && Got(v') - One(finReceived) == pos + len))
    && (r.Overrun? <==> Got(v') - One(finReceived) == v'.base + size)
  }

  /** What becomes of any segment: nothing, if it is not acceptable or all of the stream is
      there already, and otherwise what `Taken` says. */
  ghost predicate Answered(v: Rcv, known: bool, v': Rcv, finReceived: bool, size: nat, rmss: nat, stream: seq<byte>,
                           pos: nat, len: nat, fin: bool, handler: seq<byte> -> nat, r: Outcome, limit: nat) {
    && |v.segs| > 0
    && (r.Unacceptable? <==> !Acceptable(pos - v.base, pos + len + One(fin) - v.base, v.segs[0].second, size))
    && if r.Unacceptable? || known then
         (r.Unacceptable? || r == Processed(None, None)) && v' == v && finReceived == known
       else Taken(v, v', size, rmss, stream, pos, len, fin, handler, r, finReceived, limit) == true
  }

  /** From the pieces: the range was added to `use`, the list or the list without its last
      range, and delivered if it touches the first. */
  lemma TookFrom(was: seq<Seg>, use: seq<Seg>, now: seq<Seg>, buf: seq<byte>, stream: seq<byte>, base: nat,
                 lo: nat, hi: nat, i: nat, j: nat, handler: seq<byte> -> nat, given: Option<seq<byte>>)
    requires Sorted(was) && was[0].second <= lo < hi && ReceiverOk(now, buf, stream, base)
    requires use == was || (|was| == MAX_SEG && use == was[..|was| - 1] && i == j && hi < was[|was| - 1].first)
    requires Sorted(use) && Located(use, lo, hi, i, j) && Gained(use, now, lo, hi, now[0].first)
    requires now == Merged(use, lo, hi, i, j)[0 := now[0]] && now[0].second == Merged(use, lo, hi, i, j)[0].second
    requires Shown(given, was[0], now[0], lo, hi, stream, base, handler)
    ensures Took(was, now, base, |buf|, lo, hi, stream, handler, given,
                 if use == was then |buf| + 1 else was[|was| - 1].first)
  {
    FirstAfterMerge(use, lo, hi, i, j);
    MergedEnd(use, lo, hi, i, j);
    GainedAfter(was, use, now, buf, stream, base, lo, hi, now[0].first);
    LastIsLast(now, 0);
    if given.Some? {
      MergedLast(use, lo, hi, i, j);
    } else {
      assert |Merged(use, lo, hi, i, j)| >= 2;
    }
  }

  /** Data for which there is no range was written behind everything. */
  lemma TookNothing(was: seq<Seg>, base: nat, size: nat, lo: nat, hi: nat, stream: seq<byte>,
                    handler: seq<byte> -> nat)
    requires Sorted(was) && |was| == MAX_SEG && was[|was| - 1].second < lo < hi <= size
    requires forall x: int :: Covers(was, x) ==> x < lo
    ensures Took(was, was, base, size, lo, hi, stream, handler, None, lo)
  {
    LastIsLast(was, 0);
    assert InPlace(was, 0);
  }

  /** What can be freed has been freed; the same bytes are held. */
  ghost predicate Compacted(v: Rcv, v': Rcv, size: nat, rmss: nat) {
    && |v.segs| > 0 && |v'.segs| > 0 && SameHolding(v.segs, v.base, v'.segs, v'.base) == true
    && Got(v') == Got(v) && Used(v') == Used(v)
    && v'.base == v.base + FreedBytes(v.segs[0].first, v.segs[|v.segs| - 1].second, rmss, size)
  }

  /** Adding the text and then freeing what can be freed. */
  lemma TextThenFreed(v: Rcv, mid: seq<Seg>, v': Rcv, size: nat, rmss: nat, stream: seq<byte>, pos: nat, len: nat,
                      lo: nat, hi: nat, handler: seq<byte> -> nat, given: Option<seq<byte>>,
                      below: nat, limit: nat)
    requires Took(v.segs, mid, v.base, size, lo, hi, stream, handler, given, below) == true
    requires limit == v.base + below
    requires Sorted(mid) == true && |v.segs| > 0 && Compacted(Rcv(mid, v.base), v', size, rmss) == true
    requires v.base + lo == Max(pos, Got(v)) && v.base + hi == Min(pos + len, v.base + size)
    requires v.segs[0].first < rmss || v.segs[0].first < size / 2
    ensures TextTaken(v, v', size, rmss, stream, pos, len, handler, given, limit)
  {
    assert RangeEffect(v.segs, mid, v.base, size, lo, hi, stream, handler, given, below);
    ShownAdvances(given, v.segs[0], mid[0], lo, hi, stream, v.base, handler);
    GrewToo(v.segs, v.base, mid, v'.segs, v'.base, lo, hi, mid[0].first, below);
    FreedRight(v, mid, size, rmss, lo, hi, stream, handler, given, below);
    assert TextEffect(v, v', size, rmss, stream, pos, len, handler, given, limit);
  }

  /** What is freed is what the state before and the consumer's answer say. */
  lemma FreedRight(v: Rcv, mid: seq<Seg>, size: nat, rmss: nat, lo: nat, hi: nat, stream: seq<byte>,
                   handler: seq<byte> -> nat, given: Option<seq<byte>>, below: nat)
    requires RangeEffect(v.segs, mid, v.base, size, lo, hi, stream, handler, given, below) == true
    requires Sorted(mid) == true
    requires v.segs[0].first < rmss || v.segs[0].first < size / 2
    ensures FreedBytes(mid[0].first, mid[|mid| - 1].second, rmss, size)
            == FreedBy(v, size, rmss, lo, hi, if given.Some? then handler(given.value) else 0)
  {
    if given.None? { assert InPlace(mid, 0) && InPlace(mid, |mid| - 1); }
  }

  /** A segment without text in the window. */
  lemma NoText(v: Rcv, buf: seq<byte>, rmss: nat, stream: seq<byte>, pos: nat, len: nat, handler: seq<byte> -> nat)
    requires ReceiverOk(v.segs, buf, stream, v.base)
    requires Max(pos, Got(v)) >= Min(pos + len, v.base + |buf|) && v.segs[0].second < |buf|
    ensures TextTaken(v, v, |buf|, rmss, stream, pos, len, handler, None, v.base + |buf| + 1)
  {
    var lo, hi := Max(pos, Got(v)), Min(pos + len, v.base + |buf|);
    HeldInside(v.segs, buf, stream, v.base, lo, hi, Used(v));
    LastIsLast(v.segs, 0);
  }

  lemma {:induction false} ReachedBound(segs: seq<Seg>, hi: nat, size: nat)
    requires hi <= size && forall k :: 0 <= k < |segs| ==> segs[k].second <= size
    ensures Reached(segs, hi) <= size
  {
    if segs != [] { ReachedBound(segs[..|segs| - 1], hi, size); }
  }

  /** What is in order stays inside the window. */
  lemma InsideWindow(v: Rcv, v': Rcv, size: nat, rmss: nat, stream: seq<byte>, pos: nat, len: nat,
                     handler: seq<byte> -> nat, given: Option<seq<byte>>, limit: nat)
    requires TextTaken(v, v', size, rmss, stream, pos, len, handler, given, limit)
    requires Sorted(v.segs) && v.segs[|v.segs| - 1].second <= size
    ensures |v'.segs| > 0 && Got(v') <= v.base + size && v.base <= v'.base
  {
    assert TextEffect(v, v', size, rmss, stream, pos, len, handler, given, limit);
    forall k | 0 <= k < |v.segs|
      ensures v.segs[k].second <= size
    {
      LastIsLast(v.segs, k);
    }
    var lo, hi := Max(pos, Got(v)) - v.base, Min(pos + len, v.base + size) - v.base;
    if lo < hi { ReachedBound(v.segs, hi, size); }
  }

  /** The text, without or with a FIN after it. `w` is what is held before the FIN. */
  lemma TextIsAll(v: Rcv, w: Rcv, size: nat, rmss: nat, stream: seq<byte>, pos: nat, len: nat, fin: bool,
                  handler: seq<byte> -> nat, r: Outcome, limit: nat)
    requires !r.Unacceptable? && TextTaken(v, w, size, rmss, stream, pos, len, handler, r.given, limit)
    requires |w.segs| > 0 && (r.Overrun? <==> Got(w) == w.base + size)
    requires r.Processed? ==> r.last.None? && !(fin && Got(w) == |stream|)
    requires fin ==> pos + len == |stream|
    ensures Taken(v, w, size, rmss, stream, pos, len, fin, handler, r, false, limit)
  {
  }

  lemma TextAndFin(v: Rcv, w: Rcv, v': Rcv, size: nat, rmss: nat, stream: seq<byte>, pos: nat, len: nat,
                   handler: seq<byte> -> nat, given: Option<seq<byte>>, limit: nat)
    requires TextTaken(v, w, size, rmss, stream, pos, len, handler, given, limit) && |v'.segs| > 0
    requires |w.segs| > 0 && WithoutFin(v', true) == w && Got(w) == |stream| == pos + len
    requires Used(v') <= |stream| && Got(v') > Got(w)
    requires Got(w) != w.base + size
    ensures Taken(v, v', size, rmss, stream, pos, len, true, handler, Processed(given, Some(stream[Used(v')..])),
                  true, limit)
  {
  }

  // ---- the right edge of the window ----

  /** Where the in-order data ends after a segment. */
  ghost function EndAfter(v: Rcv, size: nat, pos: nat, len: nat): (p: nat)
    requires |v.segs| > 0
  {
    v.base + InOrderEnd(v.segs, Max(pos, Got(v)) - v.base, Min(pos + len, v.base + size) - v.base)
  }

  /** What the consumer answers, when it is shown the data that is in order then. */
  ghost function Answer(v: Rcv, size: nat, stream: seq<byte>, pos: nat, len: nat, handler: seq<byte> -> nat)
    : (left: nat)
    requires |v.segs| > 0
  {
    var end := EndAfter(v, size, pos, len);
    if pos <= Got(v) < pos + len && Used(v) <= end <= |stream| then handler(stream[Used(v)..end]) else 0
  }

  /** How many bytes at the front of the buffer it frees. */
  ghost function Frees(v: Rcv, size: nat, rmss: nat, stream: seq<byte>, pos: nat, len: nat, handler: seq<byte> -> nat)
    : (d: nat)
    requires |v.segs| > 0
  {
    FreedBy(v, size, rmss, Max(pos, Got(v)) - v.base, Min(pos + len, v.base + size) - v.base,
            Answer(v, size, stream, pos, len, handler))
  }

  /** How many positions it puts in order: bytes, and its FIN if that comes next and the
      buffer is not full. */
  ghost function Gains(v: Rcv, size: nat, rmss: nat, stream: seq<byte>, pos: nat, len: nat, fin: bool,
                       handler: seq<byte> -> nat): (n: int)
    requires |v.segs| > 0
  {
    var end := EndAfter(v, size, pos, len);
    var edge := v.base + Frees(v, size, rmss, stream, pos, len, handler) + size;
    end - Got(v) + One(fin && end == pos + len && end != edge)
  }

  /** These describe the state after the segment. */
  lemma AfterSegment(v: Rcv, v': Rcv, size: nat, rmss: nat, stream: seq<byte>, pos: nat, len: nat, fin: bool,
                     handler: seq<byte> -> nat, r: Outcome, finReceived: bool, limit: nat)
    requires |v.segs| > 0 && |v'.segs| > 0
    requires Taken(v, v', size, rmss, stream, pos, len, fin, handler, r, finReceived, limit)
    ensures v'.base == v.base + Frees(v, size, rmss, stream, pos, len, handler)
    ensures Got(v') == Got(v) + Gains(v, size, rmss, stream, pos, len, fin, handler) && Got(v') >= Got(v)
  {
    var w := WithoutFin(v', finReceived);
    assert TextEffect(v, w, size, rmss, stream, pos, len, handler, r.given, limit);
  }

  /** What a segment does to the right edge of the window. The unscaled one never moves
      left. The scaled one moves left exactly when what is put in order exceeds, in the
      part that the scaling cannot express, what was left over and what is freed; and
      never by as much as a unit of the scale. All this is known before the segment. */
  ghost predicate EdgeRule(v: Rcv, v': Rcv, size: nat, gains: int, frees: nat, shift: nat) {
    && |v.segs| > 0 && |v'.segs| > 0 && v.segs[0].second <= size && v'.segs[0].second <= size
    && Edge(v.base, v.segs[0].second, size) <= Edge(v'.base, v'.segs[0].second, size)
    && var was, now := ScaledEdge(v.base, v.segs[0].second, size, shift),
                       ScaledEdge(v'.base, v'.segs[0].second, size, shift);
    && (was <= now <==> gains % Pow2(shift) <= (size - v.segs[0].second) % Pow2(shift) + frees)
    && was < now + Pow2(shift)
  }

  lemma EdgeRuleHolds(v: Rcv, v': Rcv, size: nat, gains: int, frees: nat, shift: nat)
    requires |v.segs| > 0 && |v'.segs| > 0 && v.segs[0].second <= size && v'.segs[0].second <= size
    requires v'.base == v.base + frees && Got(v') == Got(v) + gains && gains >= 0
    ensures EdgeRule(v, v', size, gains, frees, shift)
  {
    ScaledEdgeStays(v.base, v.segs[0].second, gains, frees, size, shift);
  }
  /** The rule, for every shift of the window, of a segment that is taken. */
  ghost predicate EdgeMoves(v: Rcv, v': Rcv, size: nat, rmss: nat, stream: seq<byte>, pos: nat, len: nat, fin: bool,
                            handler: seq<byte> -> nat) {
    && |v.segs| > 0
    && forall shift: nat :: EdgeRule(v, v', size, Gains(v, size, rmss, stream, pos, len, fin, handler),
                                     Frees(v, size, rmss, stream, pos, len, handler), shift)
  }

  lemma EdgeMovesRight(v: Rcv, v': Rcv, size: nat, rmss: nat, stream: seq<byte>, pos: nat, len: nat, fin: bool,
                       handler: seq<byte> -> nat, r: Outcome, finReceived: bool, limit: nat)
    requires |v.segs| > 0 && |v'.segs| > 0 && v.segs[0].second <= size && v'.segs[0].second <= size
    requires Taken(v, v', size, rmss, stream, pos, len, fin, handler, r, finReceived, limit) == true
    ensures EdgeMoves(v, v', size, rmss, stream, pos, len, fin, handler) == true
  {
    AfterSegment(v, v', size, rmss, stream, pos, len, fin, handler, r, finReceived, limit);
    var gains, frees := Gains(v, size, rmss, stream, pos, len, fin, handler),
                        Frees(v, size, rmss, stream, pos, len, handler);
    forall shift: nat
      ensures EdgeRule(v, v', size, gains, frees, shift)
    {
      EdgeRuleHolds(v, v', size, gains, frees, shift);
    }
  }
}
