/** The send buffers as they lie in memory: piece k of the sequence space uses slot
    k % n of the ring, for a fixed array of headers and one block of payload memory. */
module SendSlots {
  import opened Words
  import opened Checksum
  import opened SegmentChecksum
  import opened SendSpec

  /** The headers of a send buffer. Before a complete piece is sent, `stamp.ackNum` holds
      the sum of its payload. */
  datatype Head = Head(seqNum: uint32, stamp: Refresh, checksum: uint16, len: nat, fin: bool)

  /** A buffer with these headers. */
  function Filled(h: Head, text: seq<byte>): (slot: Slot) {
    Slot(h.seqNum, h.stamp, h.checksum, h.len, h.fin, text)
  }

  /** Counters less than a ring apart use different slots. */
  lemma SlotsDistinct(j: nat, k: nat, n: nat)
    requires n > 0 && j < k < j + n
    ensures j % n != k % n
  {
    var d := k / n - j / n;
    assert k - j == n * d + (k % n - j % n);
    assert d >= 1 ==> n * d >= n;
    assert d <= 0 ==> n * d <= 0;
  }

  /** The counters of the code are 32 bits wide. For a ring whose size is a power of
      two this changes neither the slot of a counter nor which counters are equal. */
  lemma CountersMayWrap(j: nat, k: nat, n: nat)
    requires IsPow2(n) && n < TWO32 && j <= k < j + n
    ensures U32(k) % n == k % n && (U32(j) == U32(k) <==> j == k) && U32(U32(k) - U32(j)) == k - j
  {
    assert U32(k) % n == k % n by {
      var q := Pow2DividesWord(n);
      SameSlot(k, n, q);
    }
    Difference(j, k);
  }

  lemma Difference(j: nat, k: nat)
    requires j <= k < j + TWO32
    ensures U32(U32(k) - U32(j)) == k - j && (U32(j) == U32(k) <==> j == k)
  {
    WrapSub(k, j);
  }

  lemma Pow2DividesWord(n: nat) returns (q: nat)
    requires IsPow2(n) && n < TWO32
    ensures TWO32 == n * q
  {
    var e: nat :| e <= n && n == Pow2(e);
    Pow2Values();
    Pow2Add(16, 16);
    Pow2Monotone(32, e);
    Pow2Add(e, 32 - e);
    q := Pow2(32 - e);
  }

  lemma SameSlot(k: nat, n: nat, q: nat)
    requires n > 0 && TWO32 == n * q
    ensures U32(k) % n == k % n
  {
    var u, t := U32(k), k / TWO32;
    assert k == u + TWO32 * t;
    assert TWO32 * t == n * (q * t);
    ModShift(u, q * t, n);
  }

  lemma {:induction false} SlotFits(s: nat, n: nat, cap: nat)
    requires s < n
    ensures s * cap + cap <= n * cap
  {
    if cap > 0 {
      SlotFits(s, n, cap - 1);
      assert s * cap == s * (cap - 1) + s && n * cap == n * (cap - 1) + n;
    }
  }

  /** The payload memory of slot s. */
  ghost function SlotMem(mem: seq<byte>, cap: nat, n: nat, s: nat): (text: seq<byte>)
    requires |mem| == n * cap && s < n
    ensures |text| == cap
  {
    SlotFits(s, n, cap);
    mem[s * cap..s * cap + cap]
  }

  ghost predicate Mirror(q: seq<Slot>, heads: seq<Head>, mem: seq<byte>, n: nat, cap: nat, k: nat) {
    && n > 0 && |heads| == n && |mem| == n * cap && k < |q|
    && var h := heads[k % n];
    q[k] == Filled(h, SlotMem(mem, cap, n, k % n))
  }

  /** The slots of the pieces from `una` on are what memory holds. */
  ghost predicate Mirrors(q: seq<Slot>, heads: seq<Head>, mem: seq<byte>, n: nat, cap: nat, una: nat) {
    && n > 0 && |heads| == n && |mem| == n * cap && |q| == una + n
    && forall k: nat :: una <= k < una + n ==> Mirror(q, heads, mem, n, cap, k)
  }

  /** Writing the header of piece k changes the slot of no other live piece. */
  lemma HeadWritten(q: seq<Slot>, heads: seq<Head>, mem: seq<byte>, n: nat, cap: nat, una: nat, k: nat, h: Head)
    requires Mirrors(q, heads, mem, n, cap, una) && una <= k < una + n
    ensures Mirrors(q[k := Filled(h, q[k].text)], heads[k % n := h], mem, n, cap, una)
  {
    var q', heads' := q[k := Filled(h, q[k].text)], heads[k % n := h];
    forall j: nat | una <= j < una + n
      ensures Mirror(q', heads', mem, n, cap, j)
    {
      assert Mirror(q, heads, mem, n, cap, j);
      if j < k { SlotsDistinct(j, k, n); } else if k < j { SlotsDistinct(k, j, n); }
    }
  }

  /** Writing payload of piece k likewise. */
  lemma TextWritten(q: seq<Slot>, heads: seq<Head>, mem: seq<byte>, mem': seq<byte>, n: nat, cap: nat, una: nat,
                    k: nat, at: nat, src: seq<byte>)
    requires Mirrors(q, heads, mem, n, cap, una) && una <= k < una + n && at + |src| <= cap
    requires Copied(mem, mem', k % n * cap + at, src, |src|)
    ensures |mem'| == |mem| && |q[k].text| == cap
    ensures var text := SlotMem(mem', cap, n, k % n);
            && text[..at + |src|] == q[k].text[..at] + src
            && Mirrors(q[k := q[k].(text := text)], heads, mem', n, cap, una)
  {
    var text := SlotMem(mem', cap, n, k % n);
    var q' := q[k := q[k].(text := text)];
    assert Mirror(q, heads, mem, n, cap, k);
    ThisSlot(mem, mem', cap, n, k % n, at, src);
    forall j: nat | una <= j < una + n
      ensures Mirror(q', heads, mem', n, cap, j)
    {
      assert Mirror(q, heads, mem, n, cap, j);
      if j != k {
        if j < k { SlotsDistinct(j, k, n); } else { SlotsDistinct(k, j, n); }
        OtherSlot(mem, mem', cap, n, k % n, j % n, at, src);
      }
    }
  }

  lemma ThisSlot(mem: seq<byte>, mem': seq<byte>, cap: nat, n: nat, s: nat, at: nat, src: seq<byte>)
    requires |mem| == n * cap && s < n && at + |src| <= cap && Copied(mem, mem', s * cap + at, src, |src|)
    ensures |mem'| == |mem|
    ensures SlotMem(mem', cap, n, s)[..at + |src|] == SlotMem(mem, cap, n, s)[..at] + src
  {
    SlotFits(s, n, cap);
    CopiedWithin(mem, mem', s * cap, cap, at, src);
  }

  lemma CopiedWithin(mem: seq<byte>, mem': seq<byte>, a: nat, cap: nat, at: nat, src: seq<byte>)
    requires a + cap <= |mem| && at + |src| <= cap && Copied(mem, mem', a + at, src, |src|)
    ensures |mem'| == |mem| && mem'[a..a + cap][..at + |src|] == mem[a..a + cap][..at] + src
  {
    assert mem' == mem[..a + at] + src + mem[a + at + |src|..];
    assert mem'[..a + at + |src|] == mem[..a + at] + src;
    assert mem'[a..a + cap][..at + |src|] == mem'[..a + at + |src|][a..];
  }

  lemma CopiedElsewhere(mem: seq<byte>, mem': seq<byte>, at: nat, src: seq<byte>, b: nat, cap: nat)
    requires b + cap <= |mem| && (b + cap <= at || at + |src| <= b) && Copied(mem, mem', at, src, |src|)
    ensures |mem'| == |mem| && mem'[b..b + cap] == mem[b..b + cap]
  {
  }

  lemma OtherSlot(mem: seq<byte>, mem': seq<byte>, cap: nat, n: nat, s: nat, t: nat, at: nat, src: seq<byte>)
    requires |mem| == n * cap && s < n && t < n && s != t && at + |src| <= cap
    requires Copied(mem, mem', s * cap + at, src, |src|)
    ensures |mem'| == |mem| && SlotMem(mem', cap, n, t) == SlotMem(mem, cap, n, t)
  {
    SlotFits(t, n, cap);
    var a, b := s * cap, t * cap;
    assert a + cap <= b || b + cap <= a by {
      if s < t { SlotFits(s, t, cap); } else { SlotFits(t, s, cap); }
    }
    CopiedElsewhere(mem, mem', a + at, src, b, cap);
  }

  /** When piece `una` is acknowledged, its slot is the one of piece una + n. */
  lemma SlotFreed(q: seq<Slot>, heads: seq<Head>, mem: seq<byte>, n: nat, cap: nat, una: nat)
    requires Mirrors(q, heads, mem, n, cap, una)
    ensures Mirrors(q + [q[una]], heads, mem, n, cap, una + 1)
  {
    ModShift(una, 1, n);
    forall k: nat | una < k <= una + n
      ensures Mirror(q + [q[una]], heads, mem, n, cap, k)
    {
      assert Mirror(q, heads, mem, n, cap, if k < una + n then k else una);
    }
  }

  /** The slots of a ring that has not wrapped yet. */
  lemma FreshSlots(heads: seq<Head>, mem: seq<byte>, n: nat, cap: nat) returns (q: seq<Slot>)
    requires n > 0 && |heads| == n && |mem| == n * cap
    ensures Mirrors(q, heads, mem, n, cap, 0)
    ensures forall k: nat :: k < n ==> q[k] == Filled(heads[k], q[k].text) && |q[k].text| == cap
  {
    q := seq(n, k requires 0 <= k < n => Filled(heads[k], SlotMem(mem, cap, n, k)));
    forall k: nat | k < n
      ensures Mirror(q, heads, mem, n, cap, k)
    {
      ModUnique(k, 0, k, n);
    }
  }
}
