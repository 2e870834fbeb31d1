/** Whole runs of a sender: what one moment says about every later one. */
module SendRuns {
  import opened Words
  import opened SegmentChecksum
  import opened SendSpec
  import opened SendWire

  /** What each operation does, and so any number of them: accepted bytes, packets and
      the window only grow. Once the FIN is queued, stream and window are fixed, and so
      are the pieces, except that the last one may be sent; a FIN that was not sent at
      once is then inside the window. */
  ghost predicate Later(m: Moment, m': Moment) {
    && m'.st.isn == m.st.isn && m.st.stream <= m'.st.stream && m.wire <= m'.wire && m.wnd <= m'.wnd
    && m.st.una <= m'.st.una && m.st.next <= m'.st.next
    && (m.st.finSent ==> Frozen(m, m'))
  }

  ghost predicate Frozen(m: Moment, m': Moment) {
    && m'.st.finSent && m'.st.stream == m.st.stream && m'.wnd == m.wnd
    && (FinOut(m'.st) ==> FinOut(m.st) || |m.st.stream| + 2 <= m.wnd)
    && if m'.st.data == m.st.data then m'.st.dataSize == m.st.dataSize && m'.st.cuts == m.st.cuts
       else && m'.st.data == m.st.data + 1 && m.st.dataSize > 0 && m'.st.dataSize == 0
            && |m.st.cuts| > 0 && m'.st.cuts == m.st.cuts + [m.st.cuts[|m.st.cuts| - 1]]
  }

  lemma LaterAgain(a: Moment, b: Moment, c: Moment)
    requires Later(a, b) == true && Later(b, c) == true
    ensures Later(a, c) == true
  {
  }

  /** Every packet that was added carries the stamp. */
  ghost predicate Stamped(was: seq<Packet>, now: seq<Packet>, stamp: Refresh) {
    was <= now && forall i :: |was| <= i < |now| ==> now[i].stamp == stamp
  }

  ghost predicate LaterBy(m: Moment, m': Moment, stamp: Refresh) {
    Later(m, m') && Stamped(m.wire, m'.wire, stamp)
  }

  lemma LaterByAgain(a: Moment, b: Moment, c: Moment, stamp: Refresh)
    requires LaterBy(a, b, stamp) == true && LaterBy(b, c, stamp) == true
    ensures LaterBy(a, c, stamp) == true
  {
  }

  /** What has been sent ends before the edge. */
  ghost predicate Within(st: State, edge: int) {
    st.next < |st.cuts| && st.cuts[st.next] <= edge
  }

  /** The piece being filled has been sent. */
  lemma LastIsLater(m: Moment, m': Moment, stamp: Refresh, checksum: uint16, p: Packet)
    requires Sizes(m.st) && m.st.next == m.st.data && m.st.dataSize > 0 && m.st.next + 1 < |m.st.q|
    requires m' == m.(st := SentLast(m.st, stamp, checksum), wire := m.wire + [p]) && p.stamp == stamp
    ensures Stamped(m.wire, m'.wire, stamp) && Within(m'.st, m.st.cuts[m.st.next] + m.st.dataSize)
    ensures m.st.cuts[m.st.next] + m.st.dataSize <= m.wnd ==> Later(m, m')
  {
  }

  /** A full piece has been sent. */
  lemma FullIsLater(m: Moment, m': Moment, stamp: Refresh, checksum: uint16, p: Packet)
    requires Sizes(m.st) && m.st.next < m.st.data && m.st.next + 1 < |m.st.q| && p.stamp == stamp
    requires m.st.cuts[m.st.next + 1] == m.st.cuts[m.st.next] + m.st.smss
    requires m' == m.(st := SentFull(m.st, stamp, checksum), wire := m.wire + [p])
    ensures LaterBy(m, m', stamp) && Within(m'.st, m.st.cuts[m.st.next] + m.st.smss)
  {
  }

  ghost predicate Run(ms: seq<Moment>) {
    && |ms| > 0 && (forall i: nat :: i < |ms| ==> Right(ms[i]))
    && forall i: nat :: i + 1 < |ms| ==> Next(ms, i)
  }

  ghost predicate Next(ms: seq<Moment>, i: nat)
    requires i + 1 < |ms|
  {
    Later(ms[i], ms[i + 1])
  }

  lemma {:induction false} RunLater(ms: seq<Moment>, i: nat, n: nat)
    requires Run(ms) && i <= n < |ms|
    ensures i < n ==> Later(ms[i], ms[n])
  {
    if i < n {
      RunLater(ms, i, n - 1);
      assert Next(ms, n - 1);
      if i < n - 1 { LaterAgain(ms[i], ms[n - 1], ms[n]); }
    }
  }

  /** Nothing waits that an edge would let through. */
  ghost predicate Idle(st: State, edge: int) {
    && |st.cuts| == st.data + 2 && st.next <= st.data
    && var size := if st.next == st.data then st.dataSize else st.smss;
    size == 0 || st.cuts[st.next] + size > edge
  }

  /** If all that was accepted fits, and nothing that fits is waiting, all is sent. */
  lemma FittingIsSent(st: State, edge: int)
    requires RingOk(st) && st.cuts[st.data + 1] <= edge && Idle(st, edge)
    ensures st.next == st.data && st.dataSize == 0
  {
    assert PieceOk(st, st.next);
    if st.next < st.data { CutsMonotone(st, st.next + 1, st.data + 1); }
  }

  /** A piece that waits when the FIN is queued goes out only if it ends inside the
      window there is then. */
  lemma PieceStaysBehind(was: Moment, now: Moment, k: nat)
    requires SenderOk(was) && SenderOk(now) && Later(was, now)
    requires was.st.finSent && was.st.next <= k <= was.st.data && k + 1 < |was.st.cuts|
    requires was.st.cuts[k] < was.st.cuts[k + 1]
    ensures k < now.st.next ==> was.st.cuts[k + 1] <= was.wnd
  {
    assert Right(was) && Right(now);
    if k < now.st.next { CutsMonotone(was.st, k + 1, now.st.next); }
  }

  lemma NextIsTooLong(st: State, edge: int)
    requires RingOk(st) && Idle(st, edge)
    ensures st.cuts[st.next + 1] > edge || (st.next == st.data && st.dataSize == 0)
  {
    assert PieceOk(st, st.next);
  }

  /** And if it does, it is out whenever nothing that fits is left waiting. */
  lemma PieceGoesOut(was: Moment, now: Moment, k: nat)
    requires SenderOk(was) && SenderOk(now) && Later(was, now)
    requires was.st.finSent && was.st.next <= k <= was.st.data && k + 1 < |was.st.cuts|
    requires was.st.cuts[k] < was.st.cuts[k + 1]
    requires was.st.cuts[k + 1] <= was.wnd && Idle(now.st, now.wnd)
    ensures k < now.st.next
  {
    assert Right(was) && Right(now);
    if now.st.next <= k {
      NextIsTooLong(now.st, now.wnd);
      CutsMonotone(was.st, now.st.next + 1, k + 1);
    }
  }

  /** So a position that waits is sent if and only if the piece it lies in ends inside the
      window: also bytes before the edge stay behind when their piece, or the FIN that
      shares it, crosses the edge. */
  lemma PositionAfterFin(was: Moment, now: Moment, k: nat, pos: nat)
    requires SenderOk(was) && SenderOk(now) && Later(was, now)
    requires was.st.finSent && was.st.next <= k <= was.st.data && k + 1 < |was.st.cuts|
    requires was.st.cuts[k] <= pos < was.st.cuts[k + 1]
    ensures Out(now.wire, pos) ==> was.st.cuts[k + 1] <= was.wnd
    ensures Idle(now.st, now.wnd) ==> (Out(now.wire, pos) <==> was.st.cuts[k + 1] <= was.wnd)
  {
    assert Right(was) && Right(now);
    PieceStaysBehind(was, now, k);
    if was.st.cuts[k + 1] <= was.wnd && Idle(now.st, now.wnd) { PieceGoesOut(was, now, k); }
    assert Out(now.wire, pos) <==> pos < now.st.cuts[now.st.next];
    if k < now.st.next {
      CutsMonotone(was.st, k + 1, now.st.next);
    } else {
      CutsMonotone(was.st, now.st.next, k);
    }
  }

  /** And the FIN is sent, with everything before it, if and only if it was sent at once
      or lies inside the window. */
  lemma FinAfterFin(was: Moment, now: Moment)
    requires SenderOk(was) && SenderOk(now) && Later(was, now) && was.st.finSent
    ensures FinOut(now.st) <==> Out(now.wire, |was.st.stream| + 1)
    ensures FinOut(now.st) ==> FinOut(was.st) || |was.st.stream| + 2 <= was.wnd
    ensures Idle(now.st, now.wnd) ==> (FinOut(now.st) <==> FinOut(was.st) || |was.st.stream| + 2 <= was.wnd)
  {
    assert Right(was) && Right(now);
    var st := now.st;
    assert Out(now.wire, |st.stream| + 1) <==> |st.stream| + 1 < st.cuts[st.next];
    CutsMonotone(st, st.next, st.data + 1);
    if st.cuts[st.next] == |st.stream| + 2 && !FinOut(st) {
      CutsMonotone(st, st.next, st.data);
    }
    if Idle(st, now.wnd) && |st.stream| + 2 <= now.wnd { FittingIsSent(st, now.wnd); }
  }

  /** Over every run from the moment the FIN is queued: the window and the stream stay
      as they are. What waits in piece k is ever sent only if the piece ends inside that
      window, and is sent by the time nothing that fits is left waiting if it does. The
      whole stream and the FIN are sent if and only if the FIN went out at once or
      |stream| + 2 <= wnd. */
  lemma FinRun(ms: seq<Moment>, n: nat, k: nat, pos: nat)
    requires Run(ms) && 0 < n < |ms| && ms[0].st.finSent
    ensures ms[n].wnd == ms[0].wnd && ms[n].st.stream == ms[0].st.stream && ms[n].st.finSent
    ensures var st, wnd, last := ms[0].st, ms[0].wnd, ms[n];
            && (st.next <= k <= st.data && st.cuts[k] <= pos < st.cuts[k + 1] ==>
                  && (Out(last.wire, pos) ==> st.cuts[k + 1] <= wnd)
                  && (Idle(last.st, wnd) && st.cuts[k + 1] <= wnd ==> Out(last.wire, pos)))
            && (Out(last.wire, |st.stream| + 1) ==> FinOut(st) || |st.stream| + 2 <= wnd)
            && (Idle(last.st, wnd) && (FinOut(st) || |st.stream| + 2 <= wnd) ==> OutUpTo(last.wire, |st.stream| + 2))
  {
    RunLater(ms, 0, n);
    var st := ms[0].st;
    if st.next <= k <= st.data && st.cuts[k] <= pos < st.cuts[k + 1] { PositionAfterFin(ms[0], ms[n], k, pos); }
    FinAfterFin(ms[0], ms[n]);
  }
}
