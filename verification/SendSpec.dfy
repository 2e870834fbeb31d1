/** What a connection has to send, as values: the sequence space with its SYN, the
    bytes of the stream and the FIN, cut into one piece per send buffer, and the
    ring of buffers that holds the pieces not yet acknowledged. */
module SendSpec {
  import opened Words
  import opened Checksum
  import opened SegmentChecksum

  /** Position 0 is the SYN, position p in 1 .. |stream| the byte stream[p - 1], and
      position |stream| + 1 the FIN. This is the text in positions a .. b. */
  function Piece(stream: seq<byte>, a: nat, b: nat): (text: seq<byte>)
    requires a <= b
    ensures 1 <= a && b <= |stream| + 1 ==> |text| == b - a
  {
    stream[Byte(stream, a)..Byte(stream, b)]
  }

  /** The number of bytes before a position. */
  function Byte(stream: seq<byte>, p: nat): (i: nat)
    ensures i <= |stream|
  {
    if p == 0 then 0 else if p > |stream| then |stream| else p - 1
  }

  /** Bytes appended later do not change a piece, or extend the last one. */
  lemma PieceGrows(stream: seq<byte>, more: seq<byte>, a: nat, b: nat)
    requires a <= b <= |stream| + 1
    ensures Piece(stream + more, a, b) == Piece(stream, a, b)
    ensures a >= 1 && b == |stream| + 1 ==> Piece(stream + more, a, b + |more|) == Piece(stream, a, b) + more
  {
    var i, j := Byte(stream, a), Byte(stream, b);
    assert (stream + more)[i..j] == stream[i..j];
    assert j == |stream| ==> (stream + more)[i..] == stream[i..] + more;
  }

  /** The FIN adds no text. */
  lemma PieceEnds(stream: seq<byte>, a: nat)
    requires 1 <= a <= |stream| + 1
    ensures Piece(stream, a, |stream| + 2) == Piece(stream, a, |stream| + 1)
  {
  }

  // ---- the state of a sender ----

  /** What does not change in the headers of a connection: the two ends, the flags but
      for FIN, and whether there is a timestamp option, with its first word. */
  datatype Conn = Conn(srcIp: uint32, dstIp: uint32, srcPort: uint16, dstPort: uint16, flags: uint16,
                       hasTs: bool, tsHead: uint32)

  /** A send buffer: the fields of its header, and its payload. `stamp` holds the fields
      that every transmission sets: acknowledgement number, window and timestamps. */
  datatype Slot = Slot(seqNum: uint32, stamp: Refresh, checksum: uint16, len: nat, fin: bool, text: seq<byte>)

  /** The sequence space is cut into pieces; piece k, from cuts[k] to cuts[k + 1], has
      the slot q[k]. Pieces before `una` are acknowledged, those before `next` sent,
      those before `data` complete; piece `data` is being filled and has `dataSize`
      positions. The `n` slots from `una` on are live. */
  datatype State = State(conn: Conn, n: nat, cap: nat, smss: nat, una: nat, next: nat, data: nat,
                         dataSize: nat, dataSum: uint32, finSent: bool, isn: int,
                         stream: seq<byte>, cuts: seq<nat>, q: seq<Slot>)

  ghost predicate ShapeOk(st: State) {
    && st.conn.flags < 0xff00 && st.n >= 2 && 1 <= st.smss <= st.cap <= 1460 && st.cap % 2 == 0
    && st.una <= st.next <= st.data < st.una + st.n == |st.q| && st.data == |st.cuts| - 2 && 1 <= st.next
  }

  /** `sum` may serve as the data sum of a segment with this text: it is congruent to
      the sum of its words, and too small to overflow. */
  ghost predicate Summed(sum: nat, text: seq<byte>, fin: bool) {
    && Cong(sum, AlignedSum(text, false) + if fin then FIN_FLAG else 0)
    && sum <= 131435 * |text| + if fin then FIN_FLAG else 0
  }

  ghost predicate CutOk(st: State, k: nat)
    requires ShapeOk(st) && k <= st.data
  {
    && (k == 0 ==> st.cuts[0] == 0 && st.cuts[1] == 1) && (k > 0 ==> st.cuts[k] >= 1)
    && st.cuts[k] <= st.cuts[k + 1] <= st.cuts[k] + st.smss && (k < st.data ==> st.cuts[k] < st.cuts[k + 1])
    && (st.next <= k < st.data ==> st.cuts[k + 1] == st.cuts[k] + st.smss)
  }

  ghost function Text(st: State, k: nat): (text: seq<byte>)
    requires ShapeOk(st) && k <= st.data && CutOk(st, k)
  {
    Piece(st.stream, st.cuts[k], st.cuts[k + 1])
  }

  /** The FIN has been sent. Until then, no slot has the flag. */
  ghost predicate FinOut(st: State) {
    st.finSent && st.dataSize == 0
  }

  /** What slot k holds: memory, and piece k if that exists already. A complete piece
      that is not yet sent is full and has its data sum where the acknowledgement
      number will be. */
  ghost predicate PieceOk(st: State, k: nat)
    requires ShapeOk(st) && st.una <= k < |st.q|
  {
    var slot := st.q[k];
    && |slot.text| == st.cap && (slot.fin ==> FinOut(st))
    && (k <= st.data ==>
          && CutOk(st, k)
          && var text := Text(st, k);
          && |text| <= st.cap && slot.text[..|text|] == text
          && (k <= st.next ==> slot.seqNum == U32(st.isn + st.cuts[k]))
          && (k < st.next ==> slot.len == |text| && (slot.fin <==> st.cuts[k + 1] == |st.stream| + 2))
          && (st.next <= k < st.data ==> Summed(slot.stamp.ackNum, text, false)))
  }

  /** How the sizes hang together. */
  ghost predicate Sizes(st: State) {
    && ShapeOk(st) && st.cuts[st.data + 1] == st.cuts[st.data] + st.dataSize == |st.stream| + 1 + One(st.finSent)
    && st.dataSize <= st.smss && (st.data == st.una + st.n - 1 ==> st.dataSize == 0)
    && (FinOut(st) ==> st.next == st.data)
  }

  ghost predicate RingOk(st: State) {
    && Sizes(st) && (forall k: nat :: st.una <= k < |st.q| ==> PieceOk(st, k)) && CutOk(st, st.data)
    && Summed(st.dataSum, Text(st, st.data), st.finSent && st.dataSize > 0)
  }

  /** Later pieces lie behind earlier ones. */
  lemma {:induction false} CutsMonotone(st: State, j: nat, k: nat)
    requires RingOk(st) && st.una <= j <= k <= st.data + 1
    ensures st.cuts[j] <= st.cuts[k] && (j < k <= st.data ==> st.cuts[j] < st.cuts[k])
    decreases k - j
  {
    if j < k {
      CutsMonotone(st, j, k - 1);
      assert PieceOk(st, k - 1);
    }
  }

  /** All live pieces together are no longer than the ring. */
  lemma {:induction false} CutsBounded(st: State, m: nat)
    requires RingOk(st) && st.una + m <= st.data + 1
    ensures st.cuts[st.una + m] <= st.cuts[st.una] + m * st.cap
  {
    if m > 0 {
      CutsBounded(st, m - 1);
      assert PieceOk(st, st.una + m - 1);
      OneMore(m, st.cap);
    }
  }

  lemma OneMore(m: nat, c: nat)
    requires m > 0
    ensures m * c == (m - 1) * c + c
  {
  }

  // ---- steps ----

  /** The slots after piece k was sent: its header is filled in, and the next piece has
      its sequence number. */
  function SentSlots(q: seq<Slot>, k: nat, stamp: Refresh, checksum: uint16, len: nat, fin: bool, seqNum: uint32)
    : (q': seq<Slot>)
    requires k + 1 < |q|
  {
    q[k := q[k].(stamp := stamp, checksum := checksum, len := len, fin := fin)]
    [k + 1 := q[k + 1].(seqNum := seqNum)]
  }

  /** The next piece, of `inc` positions, goes out. */
  function SentNext(st: State, stamp: Refresh, checksum: uint16, len: nat, fin: bool, inc: nat): (st': State)
    requires st.next + 1 < |st.q|
  {
    st.(next := st.next + 1,
        q := SentSlots(st.q, st.next, stamp, checksum, len, fin, U32(st.q[st.next].seqNum + inc)))
  }

  /** The piece being filled is complete; a new one begins. */
  function NewPiece(st: State): (st': State)
    requires st.data + 1 < |st.cuts|
  {
    st.(data := st.data + 1, dataSize := 0, dataSum := 0, cuts := st.cuts + [st.cuts[st.data + 1]])
  }

  /** A full piece goes out. */
  function SentFull(st: State, stamp: Refresh, checksum: uint16): (st': State)
    requires st.next + 1 < |st.q|
  {
    SentNext(st, stamp, checksum, st.smss, st.q[st.next].fin, st.smss)
  }

  lemma SentFullOk(st: State, stamp: Refresh, checksum: uint16)
    requires RingOk(st) && st.next < st.data
    ensures RingOk(SentFull(st, stamp, checksum))
  {
    var st' := SentFull(st, stamp, checksum);
    forall k: nat | st.una <= k < |st.q|
      ensures PieceOk(st', k)
    {
      SentFullPiece(st, stamp, checksum, k);
    }
  }

  lemma SentFullPiece(st: State, stamp: Refresh, checksum: uint16, k: nat)
    requires RingOk(st) && st.next < st.data && st.una <= k < |st.q|
    ensures PieceOk(SentFull(st, stamp, checksum), k)
  {
    if k == st.next {
      SentFullThis(st, stamp, checksum);
    } else if k == st.next + 1 {
      SentFullNumbered(st, stamp, checksum);
    } else {
      SentFullOther(st, stamp, checksum, k);
    }
  }

  lemma SentFullOther(st: State, stamp: Refresh, checksum: uint16, k: nat)
    requires RingOk(st) && st.next < st.data && st.una <= k < |st.q| && k != st.next && k != st.next + 1
    ensures PieceOk(SentFull(st, stamp, checksum), k)
  {
    assert PieceOk(st, k);
  }

  lemma SentFullThis(st: State, stamp: Refresh, checksum: uint16)
    requires RingOk(st) && st.next < st.data
    ensures PieceOk(SentFull(st, stamp, checksum), st.next)
  {
    assert PieceOk(st, st.next);
    CutsMonotone(st, st.next + 1, st.data);
  }

  lemma SentFullNumbered(st: State, stamp: Refresh, checksum: uint16)
    requires RingOk(st) && st.next < st.data
    ensures PieceOk(SentFull(st, stamp, checksum), st.next + 1)
  {
    assert PieceOk(st, st.next + 1);
    Numbered(st);
  }

  /** The sequence number the next piece gets from this one is right. */
  lemma Numbered(st: State)
    requires RingOk(st) && st.next < st.data
    ensures U32(st.q[st.next].seqNum + st.smss) == U32(st.isn + st.cuts[st.next + 1])
  {
    assert PieceOk(st, st.next);
    WrapAdd(st.isn + st.cuts[st.next], st.smss);
  }

  /** The piece being filled goes out, all earlier ones having been sent. */
  function SentLast(st: State, stamp: Refresh, checksum: uint16): (st': State)
    requires st.next + 1 < |st.q| && st.data + 1 < |st.cuts| && (st.finSent ==> st.dataSize > 0)
  {
    NewPiece(SentNext(st, stamp, checksum, st.dataSize - One(st.finSent), st.finSent, st.dataSize))
  }

  lemma SentLastOk(st: State, stamp: Refresh, checksum: uint16)
    requires RingOk(st) && st.next == st.data && st.dataSize > 0
    ensures RingOk(SentLast(st, stamp, checksum))
  {
    var st' := SentLast(st, stamp, checksum);
    forall k: nat | st.una <= k < |st.q|
      ensures PieceOk(st', k)
    {
      SentLastPiece(st, stamp, checksum, k);
    }
  }

  lemma SentLastPiece(st: State, stamp: Refresh, checksum: uint16, k: nat)
    requires RingOk(st) && st.next == st.data && st.dataSize > 0 && st.una <= k < |st.q|
    ensures PieceOk(SentLast(st, stamp, checksum), k)
  {
    if st.data <= k <= st.data + 1 {
      SentLastNew(st, stamp, checksum, k);
    } else {
      assert PieceOk(st, k);
      if k < st.data { CutsMonotone(st, k + 1, st.data); }
      assert PieceOk(SentLast(st, stamp, checksum), k);
    }
  }

  /** The piece that has gone out, and the one that is begun. */
  lemma SentLastNew(st: State, stamp: Refresh, checksum: uint16, k: nat)
    requires RingOk(st) && st.next == st.data && st.dataSize > 0 && st.data <= k <= st.data + 1 && k < |st.q|
    ensures PieceOk(SentLast(st, stamp, checksum), k)
  {
    assert PieceOk(st, k) && PieceOk(st, st.data);
    WrapAdd(st.isn + st.cuts[st.data], st.dataSize);
    assert PieceOk(SentLast(st, stamp, checksum), k);
  }

  /** The piece being filled is full but cannot go out yet: its sum is put aside. */
  function ClosedOff(st: State): (st': State)
    requires st.data < |st.q| && st.data + 1 < |st.cuts|
  {
    NewPiece(st.(q := st.q[st.data := st.q[st.data].(stamp := st.q[st.data].stamp.(ackNum := st.dataSum))]))
  }

  lemma ClosedOffOk(st: State)
    requires RingOk(st) && st.dataSize == st.smss && !st.finSent
    ensures RingOk(ClosedOff(st))
  {
    var st' := ClosedOff(st);
    forall k: nat | st.una <= k < |st.q|
      ensures PieceOk(st', k)
    {
      ClosedOffPiece(st, k);
    }
  }

  lemma ClosedOffPiece(st: State, k: nat)
    requires RingOk(st) && st.dataSize == st.smss && !st.finSent && st.una <= k < |st.q|
    ensures PieceOk(ClosedOff(st), k)
  {
    assert PieceOk(st, k) && PieceOk(st, st.data);
  }

  /** More bytes are accepted; `text` is what the slot's memory is then. */
  function Appended(st: State, chunk: seq<byte>, sum: nat, text: seq<byte>): (st': State)
    requires st.data < |st.q| && st.data + 1 < |st.cuts| && st.dataSum + sum < TWO32
  {
    st.(stream := st.stream + chunk, dataSize := st.dataSize + |chunk|, dataSum := st.dataSum + sum,
        cuts := st.cuts[st.data + 1 := st.cuts[st.data + 1] + |chunk|],
        q := st.q[st.data := st.q[st.data].(text := text)])
  }

  ghost predicate Appends(st: State, chunk: seq<byte>, sum: nat, text: seq<byte>) {
    && Sizes(st) && !st.finSent && st.data < st.una + st.n - 1
    && 1 <= |chunk| <= st.smss - st.dataSize && |text| == st.cap == |st.q[st.data].text|
    && text[..st.dataSize + |chunk|] == st.q[st.data].text[..st.dataSize] + chunk
    && Cong(sum, AlignedSum(chunk, st.dataSize % 2 == 1)) && sum <= 131070 + |chunk| / 4
  }

  lemma AppendedOk(st: State, chunk: seq<byte>, sum: nat, text: seq<byte>)
    requires RingOk(st) && Appends(st, chunk, sum, text)
    ensures st.dataSum + sum < TWO32 && RingOk(Appended(st, chunk, sum, text))
  {
    assert PieceOk(st, st.data);
    var piece := Text(st, st.data);
    assert |piece| == st.dataSize;
    SummedMore(st.dataSum, piece, sum, chunk);
    var st' := Appended(st, chunk, sum, text);
    forall k: nat | st.una <= k < |st.q|
      ensures PieceOk(st', k)
    {
      if k != st.data { AppendedElsewhere(st, chunk, sum, text, k); } else { AppendedHere(st, chunk, sum, text); }
    }
    AppendedHere(st, chunk, sum, text);
  }

  lemma AppendedHere(st: State, chunk: seq<byte>, sum: nat, text: seq<byte>)
    requires RingOk(st) && Appends(st, chunk, sum, text) && st.dataSum + sum < TWO32
    ensures PieceOk(st, st.data) && PieceOk(Appended(st, chunk, sum, text), st.data)
    ensures Text(Appended(st, chunk, sum, text), st.data) == Text(st, st.data) + chunk
  {
    assert PieceOk(st, st.data);
    var st' := Appended(st, chunk, sum, text);
    PieceGrows(st.stream, chunk, st.cuts[st.data], st.cuts[st.data + 1]);
    assert CutOk(st', st.data);
    assert Text(st', st.data) == Text(st, st.data) + chunk;
  }

  lemma AppendedElsewhere(st: State, chunk: seq<byte>, sum: nat, text: seq<byte>, k: nat)
    requires RingOk(st) && Appends(st, chunk, sum, text) && st.dataSum + sum < TWO32
    requires st.una <= k < |st.q| && k != st.data
    ensures PieceOk(Appended(st, chunk, sum, text), k)
  {
    assert PieceOk(st, k);
    if k < st.data {
      CutsMonotone(st, k + 1, st.data);
      PieceGrows(st.stream, chunk, st.cuts[k], st.cuts[k + 1]);
    }
  }

  lemma SummedMore(a: nat, text: seq<byte>, b: nat, chunk: seq<byte>)
    requires Summed(a, text, false) && |text| + |chunk| <= 1460 && |chunk| >= 1
    requires Cong(b, AlignedSum(chunk, |text| % 2 == 1)) && b <= 131070 + |chunk| / 4
    ensures Summed(a + b, text + chunk, false) && a + b < TWO31
  {
    AlignedAppend(text, chunk, false);
    CongSum(a, AlignedSum(text, false), b, AlignedSum(chunk, |text| % 2 == 1));
  }

  /** The FIN is queued behind the bytes accepted so far. */
  function FinQueued(st: State): (st': State)
    requires st.data + 1 < |st.cuts| && st.dataSum + FIN_FLAG < TWO32
  {
    st.(finSent := true, dataSize := st.dataSize + 1, dataSum := st.dataSum + FIN_FLAG,
        cuts := st.cuts[st.data + 1 := st.cuts[st.data + 1] + 1])
  }

  lemma FinQueuedOk(st: State)
    requires RingOk(st) && !st.finSent && st.data < st.una + st.n - 1 && st.dataSize < st.smss
    ensures st.dataSum + FIN_FLAG < TWO32 && RingOk(FinQueued(st))
  {
    assert PieceOk(st, st.data);
    var st' := FinQueued(st);
    PieceEnds(st.stream, st.cuts[st.data]);
    forall k: nat | st.una <= k < |st.q|
      ensures PieceOk(st', k)
    {
      FinQueuedPiece(st, k);
    }
  }

  lemma FinQueuedPiece(st: State, k: nat)
    requires RingOk(st) && !st.finSent && st.data < st.una + st.n - 1 && st.dataSize < st.smss
    requires st.una <= k < |st.q| && st.dataSum + FIN_FLAG < TWO32
    ensures PieceOk(FinQueued(st), k)
  {
    assert PieceOk(st, k);
    if k < st.data { CutsMonotone(st, k + 1, st.data); }
    if k == st.data { PieceEnds(st.stream, st.cuts[st.data]); }
  }

  /** An acknowledgement without text is sent from a free slot. */
  function AckSent(st: State, k: nat, stamp: Refresh, checksum: uint16): (st': State)
    requires st.next < |st.q| && k < |st.q|
  {
    st.(q := st.q[k := Slot(st.q[st.next].seqNum, stamp, checksum, 0, false, st.q[k].text)])
  }

  lemma AckSentOk(st: State, k: nat, stamp: Refresh, checksum: uint16)
    requires RingOk(st) && st.data <= k < st.una + st.n
    ensures RingOk(AckSent(st, k, stamp, checksum))
  {
    var st' := AckSent(st, k, stamp, checksum);
    forall j: nat | st.una <= j < |st.q|
      ensures PieceOk(st', j)
    {
      AckSentPiece(st, k, stamp, checksum, j);
    }
  }

  lemma AckSentPiece(st: State, k: nat, stamp: Refresh, checksum: uint16, j: nat)
    requires RingOk(st) && st.data <= k < st.una + st.n && st.una <= j < |st.q|
    ensures PieceOk(AckSent(st, k, stamp, checksum), j)
  {
    assert PieceOk(st, j);
    assert PieceOk(st, st.next);
  }

  /** The oldest piece is acknowledged; its slot becomes the last free one. */
  function Released(st: State): (st': State)
    requires st.una < |st.q|
  {
    st.(una := st.una + 1, q := st.q + [st.q[st.una]])
  }

  lemma ReleasedOk(st: State)
    requires RingOk(st) && st.una < st.next
    ensures RingOk(Released(st))
  {
    var st' := Released(st);
    forall k: nat | st.una < k < |st'.q|
      ensures PieceOk(st', k)
    {
      ReleasedPiece(st, k);
    }
  }

  lemma ReleasedPiece(st: State, k: nat)
    requires RingOk(st) && st.una < st.next && st.una < k <= |st.q|
    ensures PieceOk(Released(st), k)
  {
    assert PieceOk(st, if k < |st.q| then k else st.una);
  }

  /** The oldest piece goes out again, with a new stamp. */
  function Resent(st: State, stamp: Refresh, checksum: uint16): (st': State)
    requires st.una < |st.q|
  {
    st.(q := st.q[st.una := st.q[st.una].(stamp := stamp, checksum := checksum)])
  }

  lemma ResentOk(st: State, stamp: Refresh, checksum: uint16)
    requires RingOk(st) && st.una < st.next
    ensures RingOk(Resent(st, stamp, checksum))
  {
    var st' := Resent(st, stamp, checksum);
    forall k: nat | st.una <= k < |st.q|
      ensures PieceOk(st', k)
    {
      ResentPiece(st, stamp, checksum, k);
    }
  }

  lemma ResentPiece(st: State, stamp: Refresh, checksum: uint16, k: nat)
    requires RingOk(st) && st.una < st.next && st.una <= k < |st.q|
    ensures PieceOk(Resent(st, stamp, checksum), k)
  {
    assert PieceOk(st, k);
  }
}
