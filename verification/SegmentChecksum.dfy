/** The TCP checksum of an outgoing segment: assembled from cached partial sums
    when it is first sent, patched in place whenever it is sent again. */
module SegmentChecksum {
  import opened Words
  import opened Checksum

  /** The fields of a segment as they lie in memory. `ts` is empty or holds the
      three words of the timestamp option: its header, value and echo. */
  datatype Header = Header(srcIp: uint32, dstIp: uint32, srcPort: uint16, dstPort: uint16,
                           seqNum: uint32, ackNum: uint32, flags: uint16, window: uint16, ts: seq<uint32>)

  const PROTOCOL: uint16 := 0x0600

  /** What `CSum::add` and `CSum::sub` of a 32-bit value contribute. */
  function Halves(x: uint32): (h: nat)
    ensures h <= 0x1_fffe && (x > 0 ==> h > 0)
  {
    x / 0x1_0000 + x % 0x1_0000
  }

  /** `htons`. */
  function Swap(x: uint16): (w: uint16) {
    x % 256 * 256 + x / 256
  }

  ghost predicate WellFormed(h: Header, payload: seq<byte>) {
    (|h.ts| == 0 || |h.ts| == 3) && |payload| <= 1460
  }

  function OptionSum(ts: seq<uint32>): (n: nat)
    requires |ts| == 0 || |ts| == 3
    ensures n <= 3 * 0x1_fffe
  {
    if |ts| == 0 then 0 else Halves(ts[0]) + Halves(ts[1]) + Halves(ts[2])
  }

  function LengthWord(h: Header, size: nat): (w: uint16)
    requires |h.ts| <= 3 && size <= 1460
  {
    Swap(20 + 4 * |h.ts| + size)
  }

  /** Reference: all 16-bit words of pseudo header, header, options and payload,
      except the checksum itself. */
  ghost function SegmentSum(h: Header, payload: seq<byte>): (n: nat)
    requires WellFormed(h, payload)
  {
    Halves(h.srcIp) + Halves(h.dstIp) + PROTOCOL + LengthWord(h, |payload|)
    + h.srcPort + h.dstPort + Halves(h.seqNum) + Halves(h.ackNum) + h.flags + h.window
    + OptionSum(h.ts) + WordSum(payload)
  }

  lemma {:induction false} WordSumBound(s: seq<byte>)
    ensures WordSum(s) <= 65535 * |s|
  {
    if |s| >= 2 { WordSumBound(s[2..]); }
  }

  lemma SegmentSumBound(h: Header, payload: seq<byte>)
    requires WellFormed(h, payload)
    ensures 0 < SegmentSum(h, payload) < 0x600_0000
  {
    WordSumBound(payload);
  }

  /** A receiver adds every word, checksum included, and folds to zero. */
  ghost predicate Verifies(h: Header, payload: seq<byte>, checksum: uint16) {
    && WellFormed(h, payload)
    && SegmentSum(h, payload) + checksum < TWO32
    && Fold(SegmentSum(h, payload) + checksum) == 0
  }

  lemma VerifiesIff(h: Header, payload: seq<byte>, checksum: uint16)
    requires WellFormed(h, payload)
    ensures Verifies(h, payload, checksum) <==> Cong(SegmentSum(h, payload) + checksum, 0)
  {
    SegmentSumBound(h, payload);
    FoldCancels(SegmentSum(h, payload) + checksum);
  }

  /** A folded sum verifies whenever the sum was congruent to the segment's. */
  lemma FoldVerifies(h: Header, payload: seq<byte>, sum: uint32)
    requires WellFormed(h, payload) && Cong(sum, SegmentSum(h, payload))
    ensures Verifies(h, payload, Fold(sum))
  {
    FoldCancels(sum);
    CongSum(sum + Fold(sum), 0, sum, SegmentSum(h, payload));
    assert SegmentSum(h, payload) + Fold(sum) == (sum + Fold(sum)) - (sum - SegmentSum(h, payload));
    CongSum(sum + Fold(sum), 0, sum - SegmentSum(h, payload), 0);
    VerifiesIff(h, payload, Fold(sum));
  }

  // ---- first transmission ----

  const FIN_FLAG: uint16 := 0x0100

  /** The part of the sum that never changes during a connection: addresses, ports,
      protocol, flags without FIN, and the header of the timestamp option. */
  function ConnSum(h: Header, baseFlags: uint16): (n: nat)
    ensures n <= 0xa_0000
  {
    Halves(h.srcIp) + Halves(h.dstIp) + PROTOCOL + h.srcPort + h.dstPort + baseFlags
    + if |h.ts| > 0 then Halves(h.ts[0]) else 0
  }

  /** `sendBuf`: the cached sums plus the fields set for this transmission. */
  function SentSum(h: Header, baseFlags: uint16, size: nat, dataSum: uint32): (n: nat)
    requires (|h.ts| == 0 || |h.ts| == 3) && size <= 1460
  {
    dataSum + Halves(h.seqNum) + Halves(h.ackNum) + h.window
    + (if |h.ts| > 0 then Halves(h.ts[1]) + Halves(h.ts[2]) else 0)
    + ConnSum(h, baseFlags) + LengthWord(h, size)
  }

  /** However the payload was summed, as long as the running sum is congruent to
      its words (plus the FIN bit) and below 2^31, the checksum verifies. */
  lemma SentVerifies(h: Header, baseFlags: uint16, payload: seq<byte>, fin: bool, dataSum: uint32)
    requires WellFormed(h, payload) && dataSum < TWO31
    requires h.flags == baseFlags + if fin then FIN_FLAG else 0
    requires Cong(dataSum, WordSum(payload) + if fin then FIN_FLAG else 0)
    ensures SentSum(h, baseFlags, |payload|, dataSum) < TWO32
    ensures Verifies(h, payload, Fold(SentSum(h, baseFlags, |payload|, dataSum)))
  {
    var n := SentSum(h, baseFlags, |payload|, dataSum);
    assert n - dataSum == SegmentSum(h, payload) - (WordSum(payload) + if fin then FIN_FLAG else 0);
    assert n - SegmentSum(h, payload) == dataSum - (WordSum(payload) + if fin then FIN_FLAG else 0);
    FoldVerifies(h, payload, n);
  }

  // ---- retransmission ----

  /** The fields a retransmission rewrites. */
  datatype Refresh = Refresh(ackNum: uint32, window: uint16, tsVal: uint32, tsEcr: uint32)

  function Refreshed(h: Header, r: Refresh): (h': Header) {
    h.(ackNum := r.ackNum, window := r.window,
       ts := if |h.ts| == 3 then [h.ts[0], r.tsVal, r.tsEcr] else h.ts)
  }

  /** `setVar<true>` of a 32-bit and of a 16-bit field. */
  function Replace32(sum: nat, was: uint32, now: uint32): (n: nat) {
    sum + 0x1_fffe - Halves(was) + Halves(now)
  }

  function Replace16(sum: nat, was: uint16, now: uint16): (n: nat) {
    sum + 0xffff - was + now
  }

  /** `resendUna`: start from the complement of the old checksum, take the old
      field values out and the new ones in. */
  function PatchedSum(h: Header, checksum: uint16, r: Refresh): (n: uint32)
    requires |h.ts| == 0 || |h.ts| == 3
  {
    var n := Replace16(Replace32(0xffff - checksum, h.ackNum, r.ackNum), h.window, r.window);
    if |h.ts| == 0 then n
    else Replace32(Replace32(n, h.ts[1], r.tsVal), h.ts[2], r.tsEcr)
  }

  function Patched(h: Header, checksum: uint16, r: Refresh): (c: uint16)
    requires |h.ts| == 0 || |h.ts| == 3
  {
    Fold(PatchedSum(h, checksum, r))
  }

  lemma PatchVerifies(h: Header, payload: seq<byte>, checksum: uint16, r: Refresh)
    requires Verifies(h, payload, checksum)
    ensures Verifies(Refreshed(h, r), payload, Patched(h, checksum, r))
  {
    var h', n := Refreshed(h, r), PatchedSum(h, checksum, r);
    VerifiesIff(h, payload, checksum);
    var k := if |h.ts| == 0 then 4 else 8;
    assert n - SegmentSum(h', payload) == 65535 * k - (SegmentSum(h, payload) + checksum);
    CongBy(65535 * k, 0, k);
    CongSum(65535 * k, 0, SegmentSum(h, payload) + checksum, 0);
    FoldVerifies(h', payload, n);
  }

  ghost function RefreshedAll(h: Header, rs: seq<Refresh>): (h': Header)
    decreases |rs|
  {
    if rs == [] then h else RefreshedAll(Refreshed(h, rs[0]), rs[1..])
  }

  ghost function PatchedAll(h: Header, checksum: uint16, rs: seq<Refresh>): (c: uint16)
    requires |h.ts| == 0 || |h.ts| == 3
    decreases |rs|
  {
    if rs == [] then checksum
    else PatchedAll(Refreshed(h, rs[0]), Patched(h, checksum, rs[0]), rs[1..])
  }

  /** The incrementally updated checksum verifies after any number of resends. */
  lemma {:induction false} ResendsVerify(h: Header, payload: seq<byte>, checksum: uint16, rs: seq<Refresh>)
    requires Verifies(h, payload, checksum)
    ensures Verifies(RefreshedAll(h, rs), payload, PatchedAll(h, checksum, rs))
    decreases |rs|
  {
    if rs != [] {
      PatchVerifies(h, payload, checksum, rs[0]);
      ResendsVerify(Refreshed(h, rs[0]), payload, Patched(h, checksum, rs[0]), rs[1..]);
    }
  }
}
