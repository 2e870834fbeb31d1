/** One's-complement checksums as the stack computes them: 16-bit words are read
    from memory in little-endian order, sums are kept in 32 bits and folded, and a
    retransmission patches the old checksum instead of summing again. */
module Checksum {
  import opened Words

  /** Equal as one's-complement sums. */
  ghost predicate Cong(a: int, b: int) {
    (a - b) % 65535 == 0
  }

  lemma CongSum(a: int, b: int, c: int, d: int)
    requires Cong(a, b) && Cong(c, d)
    ensures Cong(a + c, b + d) && Cong(a - c, b - d)
  {
  }

  lemma CongTrans(a: int, b: int, c: int)
    requires Cong(a, b) && Cong(b, c)
    ensures Cong(a, c)
  {
  }

  // ---- reference sums ----

  /** The 16-bit words of a byte string, odd lengths padded with a zero byte. */
  ghost function WordSum(s: seq<byte>): (n: nat) {
    if |s| == 0 then 0
    else if |s| == 1 then s[0]
    else s[0] + 256 * s[1] + WordSum(s[2..])
  }

  /** The same in network byte order, as RFC 1071 defines the checksum. */
  ghost function NetworkSum(s: seq<byte>): (n: nat) {
    if |s| == 0 then 0
    else if |s| == 1 then 256 * s[0]
    else 256 * s[0] + s[1] + NetworkSum(s[2..])
  }

  /** Byte order does not matter to a one's-complement sum: swapping the bytes of
      every word multiplies the sum by 256. */
  lemma {:induction false} ByteOrder(s: seq<byte>)
    ensures Cong(NetworkSum(s), 256 * WordSum(s))
  {
    if |s| >= 2 {
      ByteOrder(s[2..]);
      var k := (NetworkSum(s[2..]) - 256 * WordSum(s[2..])) / 65535;
      CongBy(NetworkSum(s), 256 * WordSum(s), k - s[1]);
    }
  }

  /** So a byte string cancels in one byte order exactly when it does in the other. */
  lemma CancelsInBothOrders(s: seq<byte>)
    ensures Cong(NetworkSum(s), 0) <==> Cong(WordSum(s), 0)
  {
    ByteOrder(s);
    var n: int, w: int := NetworkSum(s), WordSum(s);
    var k := (n - 256 * w) / 65535;
    assert n == 256 * w + 65535 * k;
    if Cong(w, 0) {
      CongBy(n, 0, 256 * (w / 65535) + k);
    }
    if Cong(n, 0) {
      CongBy(w, 0, 256 * (n / 65535) - 256 * k - w);
    }
  }

  /** Bytes at odd addresses count 256-fold. */
  ghost function AlignedSum(s: seq<byte>, odd: bool): (n: nat) {
    if s == [] then 0
    else s[0] * (if odd then 256 else 1) + AlignedSum(s[1..], !odd)
  }

  lemma {:induction false} AlignedIsWordSum(s: seq<byte>)
    ensures AlignedSum(s, false) == WordSum(s)
  {
    if |s| >= 2 {
      assert s[1..][1..] == s[2..];
      AlignedIsWordSum(s[2..]);
    } else if |s| == 1 {
      assert s[1..] == [];
    }
  }

  lemma {:induction false} AlignedAppend(a: seq<byte>, b: seq<byte>, odd: bool)
    ensures AlignedSum(a + b, odd) == AlignedSum(a, odd) + AlignedSum(b, odd != (|a| % 2 == 1))
    decreases |a|
  {
    if a == [] {
      assert a + b == b;
    } else {
      assert (a + b)[1..] == a[1..] + b;
      AlignedAppend(a[1..], b, !odd);
    }
  }

  // ---- reading words ----

  function Word16(s: seq<byte>, i: nat): (w: uint16)
    requires i + 2 <= |s|
  {
    s[i] as int + 256 * (s[i + 1] as int)
  }

  function Word32(s: seq<byte>, i: nat): (w: uint32)
    requires i + 4 <= |s|
  {
    Word16(s, i) + 0x1_0000 * Word16(s, i + 2)
  }

  lemma Word16Cong(s: seq<byte>, i: nat)
    requires i + 2 <= |s|
    ensures Word16(s, i) == AlignedSum(s[i..i + 2], false)
  {
    var t := s[i..i + 2];
    assert t[0] == s[i] && t[1..] == [s[i + 1]] && t[1..][1..] == [];
    assert AlignedSum(t[1..], true) == 256 * (s[i + 1] as int);
  }

  lemma Word32Cong(s: seq<byte>, i: nat)
    requires i + 4 <= |s|
    ensures Cong(Word32(s, i), AlignedSum(s[i..i + 4], false))
  {
    Word16Cong(s, i);
    Word16Cong(s, i + 2);
    AlignedAppend(s[i..i + 2], s[i + 2..i + 4], false);
    assert s[i..i + 4] == s[i..i + 2] + s[i + 2..i + 4];
  }

  // ---- the running payload sum ----

  /** The partial sum after the bytes before `i`: congruent to their aligned sum,
      and too small for 64 bits to overflow. */
  ghost predicate Partial(sum: nat, src: seq<byte>, i: nat, odd: bool) {
    i <= |src| && Cong(sum, AlignedSum(src[..i], odd)) && sum <= 0x4000_0000 * i
  }

  lemma PartialStep(sum: nat, src: seq<byte>, i: nat, j: nat, odd: bool, w: nat)
    requires Partial(sum, src, i, odd) && i <= j <= |src| && w <= 0x4000_0000 * (j - i)
    requires Cong(w, AlignedSum(src[i..j], odd != (i % 2 == 1)))
    ensures Partial(sum + w, src, j, odd)
  {
    AlignedAppend(src[..i], src[i..j], odd);
    assert src[..j] == src[..i] + src[i..j];
    CongSum(sum, AlignedSum(src[..i], odd), w, AlignedSum(src[i..j], odd != (i % 2 == 1)));
  }

  /** Copies `src` to `dst` from offset `at` on and sums it on the way, eight bytes
      at a time once the destination is even. */
  method CopyAndSum(dst: array<byte>, at: nat, src: seq<byte>) returns (ret: uint32)
    requires 1 <= |src| < TWO32 && at + |src| <= dst.Length
    modifies dst
    ensures Copied(old(dst[..]), dst[..], at, src, |src|)
    ensures Cong(ret, AlignedSum(src, at % 2 == 1)) && ret <= 131070 + |src| / 4
  {
    ghost var was := dst[..];
    var sum: nat, i: nat := 0, 0;
    if at % 2 == 1 {
      sum := AddByte(dst, at, src, 0, 0, was);
      i := 1;
    }
    i, sum := AddBlocks(dst, at, src, i, sum, was);
    sum := AddTail(dst, at, src, i, sum, was);
    AllSummed(was, dst[..], at, src, sum);
    ret := Narrow(sum, |src|);
  }

  method AddBlocks(dst: array<byte>, at: nat, src: seq<byte>, from: nat, sum: nat, ghost was: seq<byte>)
    returns (i: nat, sum': nat)
    requires from <= |src| && (at + from) % 2 == 0 && Progress(was, dst[..], at, src, from, sum)
    modifies dst
    ensures i <= |src| < i + 8 && (at + i) % 2 == 0 && Progress(was, dst[..], at, src, i, sum') == true
  {
    i, sum' := from, sum;
    while |src| - i >= 8
      invariant i <= |src| && Progress(was, dst[..], at, src, i, sum') == true && (at + i) % 2 == 0
    {
      sum' := AddDouble(dst, at, src, i, sum', was);
      sum' := AddDouble(dst, at, src, i + 4, sum', was);
      i := i + 8;
    }
  }

  /** The last seven bytes at most: four, two and one. */
  method AddTail(dst: array<byte>, at: nat, src: seq<byte>, from: nat, sum: nat, ghost was: seq<byte>)
    returns (sum': nat)
    requires from <= |src| < from + 8 && (at + from) % 2 == 0
    requires Progress(was, dst[..], at, src, from, sum)
    modifies dst
    ensures Progress(was, dst[..], at, src, |src|, sum') == true
  {
    var i: nat := from;
    sum' := sum;
    if |src| - i >= 4 {
      sum' := AddDouble(dst, at, src, i, sum', was);
      i := i + 4;
    }
    if |src| - i >= 2 {
      sum' := AddWord(dst, at, src, i, sum', was);
      i := i + 2;
    }
    if |src| - i >= 1 {
      sum' := AddByte(dst, at, src, i, sum', was);
      i := i + 1;
    }
    assert i == |src|;
  }

  lemma AllSummed(was: seq<byte>, now: seq<byte>, at: nat, src: seq<byte>, sum: nat)
    requires Progress(was, now, at, src, |src|, sum) && |src| < TWO32
    ensures Copied(was, now, at, src, |src|)
    ensures sum <= 0x4000_0000 * |src| && Cong(Narrow(sum, |src|), AlignedSum(src, at % 2 == 1))
  {
    assert src[..|src|] == src;
    NarrowCong(sum, |src|);
    CongTrans(Narrow(sum, |src|), sum, AlignedSum(src, at % 2 == 1));
  }

  /** The bytes before `i` are copied and summed. */
  ghost predicate Progress(was: seq<byte>, now: seq<byte>, at: nat, src: seq<byte>, i: nat, sum: nat) {
    Copied(was, now, at, src, i) && Partial(sum, src, i, at % 2 == 1)
  }

  /** A single byte, in the high half of its word if its address is odd. */
  method AddByte(dst: array<byte>, at: nat, src: seq<byte>, i: nat, sum: nat, ghost was: seq<byte>)
    returns (sum': nat)
    requires i < |src| && Progress(was, dst[..], at, src, i, sum)
    modifies dst
    ensures Progress(was, dst[..], at, src, i + 1, sum') == true
  {
    CopyBlock(dst, at, src, i, 1, was);
    var w := (if (at + i) % 2 == 1 then 256 else 1) * (src[i] as int);
    assert src[i..i + 1][1..] == [];
    PartialStep(sum, src, i, i + 1, at % 2 == 1, w);
    sum' := sum + w;
  }

  method AddWord(dst: array<byte>, at: nat, src: seq<byte>, i: nat, sum: nat, ghost was: seq<byte>)
    returns (sum': nat)
    requires i + 2 <= |src| && (at + i) % 2 == 0 && Progress(was, dst[..], at, src, i, sum)
    modifies dst
    ensures Progress(was, dst[..], at, src, i + 2, sum') == true
  {
    CopyBlock(dst, at, src, i, 2, was);
    Word16Cong(src, i);
    PartialStep(sum, src, i, i + 2, at % 2 == 1, Word16(src, i));
    sum' := sum + Word16(src, i);
  }

  method AddDouble(dst: array<byte>, at: nat, src: seq<byte>, i: nat, sum: nat, ghost was: seq<byte>)
    returns (sum': nat)
    requires i + 4 <= |src| && (at + i) % 2 == 0 && Progress(was, dst[..], at, src, i, sum)
    modifies dst
    ensures Progress(was, dst[..], at, src, i + 4, sum') == true
  {
    CopyBlock(dst, at, src, i, 4, was);
    Word32Cong(src, i);
    PartialStep(sum, src, i, i + 4, at % 2 == 1, Word32(src, i));
    sum' := sum + Word32(src, i);
  }

  /** What is copied after the bytes before `i` have been. */
  ghost predicate Copied(was: seq<byte>, now: seq<byte>, at: nat, src: seq<byte>, i: nat) {
    i <= |src| && at + |src| <= |was| && now == was[..at] + src[..i] + was[at + i..]
  }

  /** The 64-bit sum brought down to 32 bits, half by half. */
  function Narrow(sum: nat, size: nat): (r: uint32)
    requires sum <= 0x4000_0000 * size && size < TWO32
    ensures r <= 131070 + size / 4
  {
    assert sum / TWO32 <= size / 4;
    var low := sum % TWO32;
    sum / TWO32 + low / 0x1_0000 + low % 0x1_0000
  }

  lemma NarrowCong(sum: nat, size: nat)
    requires sum <= 0x4000_0000 * size && size < TWO32
    ensures Cong(Narrow(sum, size), sum)
  {
    var hi, low := sum / TWO32, sum % TWO32;
    var top := low / 0x1_0000;
    assert sum - Narrow(sum, size) == 65535 * (0x1_0001 * hi + top);
    CongBy(Narrow(sum, size), sum, -(0x1_0001 * hi + top));
  }

  lemma CongBy(a: int, b: int, k: int)
    requires a - b == 65535 * k
    ensures Cong(a, b)
  {
  }

  /** One store of `n` bytes, following what is copied already. */
  method CopyBlock(dst: array<byte>, at: nat, src: seq<byte>, i: nat, n: nat, ghost was: seq<byte>)
    requires i + n <= |src| && Copied(was, dst[..], at, src, i)
    modifies dst
    ensures Copied(was, dst[..], at, src, i + n)
  {
    forall k | 0 <= k < n {
      dst[at + i + k] := src[i + k];
    }
  }

  // ---- folding ----

  /** `CSum::fold`. */
  function Fold(sum: uint32): (c: uint16) {
    var res := sum / 0x1_0000 + sum % 0x1_0000;
    var res' := res + res / 0x1_0000;
    0xffff - res' % 0x1_0000
  }

  /** The folded complement cancels the sum, and is zero exactly for a sum that
      already cancels and is not itself zero. */
  lemma FoldCancels(sum: uint32)
    ensures Cong(sum + Fold(sum), 0)
    ensures Fold(sum) == 0 <==> Cong(sum, 0) && sum != 0
  {
    var hi, res := sum / 0x1_0000, sum / 0x1_0000 + sum % 0x1_0000;
    assert sum == res + 65535 * hi;
    if res < 0x1_0000 {
      assert Fold(sum) == 0xffff - res;
      CongBy(sum + Fold(sum), 0, hi + 1);
    } else {
      assert Fold(sum) == 0x1_fffe - res;
      CongBy(sum + Fold(sum), 0, hi + 2);
    }
    FoldedZero(res, sum, hi);
  }

  lemma FoldedZero(res: nat, sum: nat, hi: nat)
    requires sum == res + 65535 * hi && res <= 0x1_fffe && (res == 0 ==> hi == 0)
    ensures Cong(sum, 0) && sum != 0 <==> res == 0xffff || res == 0x1_fffe
  {
    ModShift(res, hi, 65535);
    assert sum % 65535 == res % 65535;
  }
}
