/** What both stream receivers have in common: a buffer whose received ranges hold
    the bytes of one stream, and the bytes handed over and consumed so far. */
module Reassembly {
  import opened Words
  import opened Segments

  datatype Option<T> = None | Some(value: T)

  ghost predicate AgreesAt(buf: seq<byte>, stream: seq<byte>, base: nat, x: int) {
    0 <= x < |buf| && base + x < |stream| && buf[x] == stream[base + x]
  }

  /** Offset `x` of the buffer stands for position `base + x` of the stream; on the
      received ranges the two hold the same bytes. */
  ghost predicate Agrees(buf: seq<byte>, segs: seq<Seg>, stream: seq<byte>, base: nat) {
    forall x: int {:trigger AgreesAt(buf, stream, base, x)} :: Covers(segs, x) ==> AgreesAt(buf, stream, base, x)
  }

  /** The state of a receiver: ranges in order and inside the buffer, and buffer and
      stream in agreement. */
  ghost predicate ReceiverOk(segs: seq<Seg>, buf: seq<byte>, stream: seq<byte>, base: nat) {
    && Sorted(segs) && segs[|segs| - 1].second <= |buf|
    && Agrees(buf, segs, stream, base) && base + segs[0].second <= |stream|
  }

  /** The bytes consumed so far are a gap-free, duplicate-free piece of the stream,
      from `start` to `upTo`. */
  ghost predicate TakenOk(stream: seq<byte>, start: nat, upTo: nat, taken: seq<byte>) {
    start <= upTo <= |stream| && taken == stream[start..upTo]
  }

  lemma TakenMore(stream: seq<byte>, start: nat, upTo: nat, taken: seq<byte>, given: seq<byte>, kept: nat)
    requires TakenOk(stream, start, upTo, taken) && upTo + |given| <= |stream| && kept <= |given|
    requires given == stream[upTo..upTo + |given|]
    ensures TakenOk(stream, start, upTo + |given| - kept, taken + given[..|given| - kept])
  {
    assert given[..|given| - kept] == stream[upTo..upTo + |given| - kept];
  }

  lemma LastIsLast(segs: seq<Seg>, k: nat)
    requires Sorted(segs) && k < |segs|
    ensures segs[k].second <= segs[|segs| - 1].second && segs[k].first <= segs[|segs| - 1].second
  {
    assert InPlace(segs, k) && InPlace(segs, |segs| - 1);
  }

  /** A piece of a packet's payload is a piece of the stream. */
  lemma PieceOfPiece(stream: seq<byte>, pos: nat, payload: seq<byte>, skip: nat, n: nat)
    requires pos + |payload| <= |stream| && payload == stream[pos..pos + |payload|] && skip + n <= |payload|
    ensures payload[skip..skip + n] == stream[pos + skip..pos + skip + n]
  {
    var a, b := payload[skip..skip + n], stream[pos + skip..pos + skip + n];
    forall k | 0 <= k < n
      ensures a[k] == b[k]
    {
      assert payload[skip + k] == stream[pos + (skip + k)];
    }
  }

  // ---- memory ----

  /** The bytes `data` written over `was` from offset `at` on. */
  ghost predicate Written(was: seq<byte>, now: seq<byte>, at: nat, data: seq<byte>) {
    && |now| == |was| && at + |data| <= |was|
    && forall x :: 0 <= x < |was| ==> now[x] == if at <= x < at + |data| then data[x - at] else was[x]
  }

  /** `memcpy` into the buffer from memory outside it. */
  method CopyIn(buf: array<byte>, at: nat, data: seq<byte>)
    requires at + |data| <= buf.Length
    modifies buf
    ensures Written(old(buf[..]), buf[..], at, data)
  {
    forall x | 0 <= x < |data| {
      buf[at + x] := data[x];
    }
  }

  /** `memcpy` within the buffer; the two areas must not overlap. */
  method CopyDown(buf: array<byte>, from: nat, size: nat)
    requires from + size <= buf.Length && size <= from
    modifies buf
    ensures Written(old(buf[..]), buf[..], 0, old(buf[from..from + size]))
  {
    var data := buf[from..from + size];
    CopyIn(buf, 0, data);
  }

  // ---- insertion ----

  /** Copying the data of a range into the buffer makes the merged list agree. */
  lemma MergedAgrees(segs: seq<Seg>, was: seq<byte>, buf: seq<byte>, stream: seq<byte>, base: nat,
                     lo: nat, hi: nat, i: nat, j: nat, data: seq<byte>)
    requires Sorted(segs) && lo < hi && segs[0].second <= lo && Located(segs, lo, hi, i, j)
    requires Agrees(was, segs, stream, base) && base + hi <= |stream| && data == stream[base + lo..base + hi]
    requires Written(was, buf, lo, data)
    ensures Agrees(buf, Merged(segs, lo, hi, i, j), stream, base)
  {
    forall x: int | Covers(Merged(segs, lo, hi, i, j), x)
      ensures AgreesAt(buf, stream, base, x)
    {
      MergedCovers(segs, lo, hi, i, j, x);
      if !(lo <= x < hi) {
        assert AgreesAt(was, stream, base, x);
      }
    }
  }

  /** A range of the buffer that is entirely received is a piece of the stream. */
  lemma RangeIsSlice(segs: seq<Seg>, buf: seq<byte>, stream: seq<byte>, base: nat, k: nat)
    requires Agrees(buf, segs, stream, base) && k < |segs| && segs[k].first <= segs[k].second <= |buf|
    requires base + segs[k].second <= |stream|
    ensures buf[segs[k].first..segs[k].second] == stream[base + segs[k].first..base + segs[k].second]
  {
    var a, b := buf[segs[k].first..segs[k].second], stream[base + segs[k].first..base + segs[k].second];
    forall x | 0 <= x < |a|
      ensures a[x] == b[x]
    {
      assert segs[k].first <= segs[k].first + x < segs[k].second;
      assert Covers(segs, segs[k].first + x);
      assert AgreesAt(buf, stream, base, segs[k].first + x);
    }
  }

  /** The merged first range ends inside the stream. */
  lemma FirstEnds(segs: seq<Seg>, buf: seq<byte>, stream: seq<byte>, base: nat)
    requires Sorted(segs) && Agrees(buf, segs, stream, base) && segs[0].first < segs[0].second
    ensures base + segs[0].second <= |stream|
  {
    assert Covers(segs, segs[0].second - 1);
    assert AgreesAt(buf, stream, base, segs[0].second - 1);
  }

  // ---- consumption ----

  function AfterTaking(segs: seq<Seg>, kept: nat): (r: seq<Seg>)
    requires |segs| >= 1 && kept <= segs[0].second
  {
    segs[0 := Seg(segs[0].second - kept, segs[0].second)]
  }

  method SetFirst(segs: array<Seg>, n: nat, s: Seg)
    requires 0 < n <= segs.Length
    modifies segs
    ensures segs[..n] == old(segs[..n])[0 := s]
  {
    segs[0] := s;
  }

  /** The consumer takes all but `kept` bytes of the first range. */
  lemma ConsumedOk(segs: seq<Seg>, buf: seq<byte>, stream: seq<byte>, base: nat, kept: nat)
    requires ReceiverOk(segs, buf, stream, base) && kept <= segs[0].second - segs[0].first
    ensures ReceiverOk(AfterTaking(segs, kept), buf, stream, base)
  {
    var r := AfterTaking(segs, kept);
    forall i: nat | i < |r|
      ensures InPlace(r, i)
    {
      assert InPlace(segs, i);
    }
    forall x: int | Covers(r, x)
      ensures AgreesAt(buf, stream, base, x)
    {
      ConsumedCovers(segs, kept, x);
    }
  }

  lemma ConsumedCovers(segs: seq<Seg>, kept: nat, x: int)
    requires Sorted(segs) && kept <= segs[0].second - segs[0].first
    ensures Covers(AfterTaking(segs, kept), x) <==> Covers(segs, x) && x >= segs[0].second - kept
  {
    var r := AfterTaking(segs, kept);
    assert InPlace(segs, 0);
    if Covers(r, x) {
      var k :| 0 <= k < |r| && r[k].first <= x < r[k].second;
      assert k > 0 ==> r[k] == segs[k] && segs[0].second < segs[k].first;
      assert segs[k].first <= x < segs[k].second;
    }
    if Covers(segs, x) && x >= segs[0].second - kept {
      var k :| 0 <= k < |segs| && segs[k].first <= x < segs[k].second;
      assert r[k].first <= x < r[k].second;
    }
  }

  // ---- delivery ----

  /** After the new range is merged and its data copied, everything holds again. */
  lemma MergedOk(segs: seq<Seg>, was: seq<byte>, buf: seq<byte>, stream: seq<byte>, base: nat,
                 lo: nat, hi: nat, i: nat, j: nat, data: seq<byte>)
    requires ReceiverOk(segs, was, stream, base)
    requires segs[0].second <= lo < hi <= |was| && Located(segs, lo, hi, i, j)
    requires base + hi <= |stream| && data == stream[base + lo..base + hi] && Written(was, buf, lo, data)
    ensures ReceiverOk(Merged(segs, lo, hi, i, j), buf, stream, base)
  {
    var r := Merged(segs, lo, hi, i, j);
    MergedSorted(segs, lo, hi, i, j);
    MergedAgrees(segs, was, buf, stream, base, lo, hi, i, j, data);
    assert r[|r| - 1].second <= |buf| by {
      assert j < |segs| ==> r[|r| - 1] == segs[|segs| - 1];
      assert 0 < j ==> segs[j - 1].second <= segs[|segs| - 1].second by {
        if 0 < j { LastIsLast(segs, j - 1); }
      }
    }
    if i == 0 { FirstEnds(r, buf, stream, base); }
  }

  function Overwritten(was: seq<byte>, at: nat, data: seq<byte>): (now: seq<byte>)
    requires at + |data| <= |was|
    ensures Written(was, now, at, data)
  {
    was[..at] + data + was[at + |data|..]
  }

  /** Handing the packet's own memory over and storing only what the consumer
      leaves has the same effect as storing everything first. */
  lemma ZeroCopyOk(segs: seq<Seg>, was: seq<byte>, buf: seq<byte>, stream: seq<byte>, base: nat,
                   lo: nat, hi: nat, i: nat, j: nat, data: seq<byte>, kept: nat)
    requires ReceiverOk(segs, was, stream, base)
    requires segs[0].second <= lo < hi <= |was| && Located(segs, lo, hi, i, j)
    requires base + hi <= |stream| && data == stream[base + lo..base + hi] && kept <= |data|
    requires Merged(segs, lo, hi, i, j)[0] == Seg(lo, hi)
    requires Written(was, buf, hi - kept, data[|data| - kept..])
    ensures ReceiverOk(AfterTaking(Merged(segs, lo, hi, i, j), kept), buf, stream, base)
  {
    var full, m := Overwritten(was, lo, data), Merged(segs, lo, hi, i, j);
    MergedOk(segs, was, full, stream, base, lo, hi, i, j, data);
    ConsumedOk(m, full, stream, base, kept);
    forall x: int | Covers(AfterTaking(m, kept), x)
      ensures AgreesAt(buf, stream, base, x)
    {
      ConsumedCovers(m, kept, x);
      assert AgreesAt(full, stream, base, x);
      if x >= hi {
        assert was[x] == full[x];
      }
    }
  }

  // ---- compaction ----

  function Shifted(segs: seq<Seg>, d: nat): (r: seq<Seg>)
    requires forall i :: 0 <= i < |segs| ==> d <= segs[i].first && d <= segs[i].second
    ensures |r| == |segs|
    ensures forall i :: 0 <= i < |r| ==> r[i] == Seg(segs[i].first - d, segs[i].second - d)
  {
    seq(|segs|, i requires 0 <= i < |segs| => Seg(segs[i].first - d, segs[i].second - d))
  }

  lemma ShiftedCovers(segs: seq<Seg>, d: nat, x: int)
    requires forall i :: 0 <= i < |segs| ==> d <= segs[i].first && d <= segs[i].second
    ensures Covers(Shifted(segs, d), x) <==> Covers(segs, x + d)
  {
    var r := Shifted(segs, d);
    if Covers(segs, x + d) {
      var k :| 0 <= k < |segs| && segs[k].first <= x + d < segs[k].second;
      assert r[k].first <= x < r[k].second;
    }
  }

  method ShiftAll(segs: array<Seg>, n: nat, d: nat)
    requires n <= segs.Length && forall i :: 0 <= i < n ==> d <= segs[..n][i].first && d <= segs[..n][i].second
    modifies segs
    ensures segs[..n] == Shifted(old(segs[..n]), d)
  {
    ghost var was := segs[..n];
    var i := 0;
    while i < n
      invariant 0 <= i <= n
      invariant forall k :: i <= k < n ==> segs[k] == was[k]
      invariant forall k :: 0 <= k < i ==> segs[k] == Seg(was[k].first - d, was[k].second - d)
    {
      assert d <= was[i].first && d <= was[i].second;
      segs[i] := Seg(segs[i].first - d, segs[i].second - d);
      i := i + 1;
    }
  }

  lemma AllBeyondFirst(segs: seq<Seg>)
    requires Sorted(segs)
    ensures forall i :: 0 <= i < |segs| ==> segs[0].first <= segs[i].first && segs[0].first <= segs[i].second
  {
    assert InPlace(segs, 0);
    forall i: nat | i < |segs|
      ensures segs[0].first <= segs[i].first && segs[0].first <= segs[i].second
    {
      assert InPlace(segs, i);
    }
  }

  /** Moving everything not yet consumed to the front of the buffer, and the base
      along with it, changes no stream position. */
  lemma CompactedOk(segs: seq<Seg>, was: seq<byte>, buf: seq<byte>, stream: seq<byte>, base: nat)
    requires ReceiverOk(segs, was, stream, base) && segs[0].first <= segs[|segs| - 1].second
    requires Written(was, buf, 0, was[segs[0].first..segs[|segs| - 1].second])
    requires forall i :: 0 <= i < |segs| ==> segs[0].first <= segs[i].first && segs[0].first <= segs[i].second
    ensures ReceiverOk(Shifted(segs, segs[0].first), buf, stream, base + segs[0].first)
  {
    var d := segs[0].first;
    var r := Shifted(segs, d);
    forall i: nat | i < |r|
      ensures InPlace(r, i)
    {
      assert InPlace(segs, i);
    }
    forall x: int | Covers(r, x)
      ensures AgreesAt(buf, stream, base + d, x)
    {
      ShiftedCovers(segs, d, x);
      var k :| 0 <= k < |segs| && segs[k].first <= x + d < segs[k].second;
      LastIsLast(segs, k);
      assert AgreesAt(was, stream, base, x + d);
    }
  }
}
