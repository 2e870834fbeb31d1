/** Received ranges of a stream, as buffer offsets: a list of ranges in order, no
    two of them touching. The first is where in-order data goes and may be empty;
    the others lie beyond gaps. */
module Segments {
  import opened Words

  datatype Seg = Seg(first: nat, second: nat)

  /** Range `i` is not empty, unless it is the first, and ends before the later ones. */
  ghost predicate InPlace(segs: seq<Seg>, i: nat)
    requires i < |segs|
  {
    && segs[i].first <= segs[i].second && (i > 0 ==> segs[i].first < segs[i].second)
    && forall j :: i < j < |segs| ==> segs[i].second < segs[j].first
  }

  ghost predicate Sorted(segs: seq<Seg>) {
    |segs| >= 1 && segs[0].first <= segs[0].second && forall i: nat :: i < |segs| ==> InPlace(segs, i)
  }

  ghost predicate Covers(segs: seq<Seg>, x: int) {
    exists i :: 0 <= i < |segs| && segs[i].first <= x < segs[i].second
  }

  /** Range `k` lies on the side of `[lo, hi]` that its index says. */
  ghost predicate LocatedAt(segs: seq<Seg>, lo: nat, hi: nat, i: nat, j: nat, k: nat)
    requires k < |segs|
  {
    && (k < i <==> segs[k].second < lo)
    && (i <= k < j ==> segs[k].first <= hi)
    && (j <= k ==> segs[k].first > hi)
  }

  /** `i` is the first range not entirely before `[lo, hi]`, `j` the first one
      from there on entirely after it. */
  ghost predicate Located(segs: seq<Seg>, lo: nat, hi: nat, i: nat, j: nat) {
    i <= j <= |segs| && forall k: nat :: k < |segs| ==> LocatedAt(segs, lo, hi, i, j, k)
  }

  /** The new range together with everything it touches. */
  function Joined(segs: seq<Seg>, lo: nat, hi: nat, i: nat, j: nat): (s: Seg)
    requires i <= j <= |segs|
  {
    if i == j then Seg(lo, hi) else Seg(Min(segs[i].first, lo), Max(segs[j - 1].second, hi))
  }

  function Merged(segs: seq<Seg>, lo: nat, hi: nat, i: nat, j: nat): (r: seq<Seg>)
    requires i <= j <= |segs|
  {
    segs[..i] + [Joined(segs, lo, hi, i, j)] + segs[j..]
  }

  /** The list stays in order and now covers the new range as well, no more. */
  lemma MergedSorted(segs: seq<Seg>, lo: nat, hi: nat, i: nat, j: nat)
    requires Sorted(segs) && lo < hi && segs[0].second <= lo && Located(segs, lo, hi, i, j)
    ensures Sorted(Merged(segs, lo, hi, i, j))
    ensures Merged(segs, lo, hi, i, j)[0].first == segs[0].first
    ensures i == 0 <==> segs[0].second == lo
    ensures i == 0 ==> j > 0
    ensures i > 0 ==> Merged(segs, lo, hi, i, j)[0] == segs[0]
  {
    var r := Merged(segs, lo, hi, i, j);
    assert InPlace(segs, 0) && LocatedAt(segs, lo, hi, i, j, 0);
    if i < j {
      assert InPlace(segs, i) && InPlace(segs, j - 1);
      assert LocatedAt(segs, lo, hi, i, j, i) && LocatedAt(segs, lo, hi, i, j, j - 1);
    }
    forall a: nat | a < |r|
      ensures InPlace(r, a)
    {
      if a < i {
        assert r[a] == segs[a] && InPlace(segs, a) && LocatedAt(segs, lo, hi, i, j, a);
        assert forall b :: i < b < |r| ==> r[b] == segs[b - i - 1 + j];
      } else if a > i {
        assert r[a] == segs[a - i - 1 + j] && InPlace(segs, a - i - 1 + j);
        assert forall b :: a < b < |r| ==> r[b] == segs[b - i - 1 + j];
      } else {
        forall b: nat | i < b < |r|
          ensures r[i].second < r[b].first
        {
          assert r[b] == segs[b - i - 1 + j] && LocatedAt(segs, lo, hi, i, j, b - i - 1 + j);
        }
      }
    }
  }

  lemma JoinedSpans(segs: seq<Seg>, lo: nat, hi: nat, i: nat, j: nat, k: nat)
    requires Sorted(segs) && i <= k < j <= |segs|
    ensures Joined(segs, lo, hi, i, j).first <= segs[k].first
    ensures segs[k].second <= Joined(segs, lo, hi, i, j).second
  {
    assert InPlace(segs, i) && InPlace(segs, k) && InPlace(segs, j - 1);
  }

  lemma MergedCoversOld(segs: seq<Seg>, lo: nat, hi: nat, i: nat, j: nat, x: int)
    requires Sorted(segs) && Located(segs, lo, hi, i, j) && Covers(segs, x)
    ensures Covers(Merged(segs, lo, hi, i, j), x)
  {
    var r := Merged(segs, lo, hi, i, j);
    var k :| 0 <= k < |segs| && segs[k].first <= x < segs[k].second;
    if k < i {
      assert r[k] == segs[k];
    } else if k < j {
      JoinedSpans(segs, lo, hi, i, j, k);
      assert r[i] == Joined(segs, lo, hi, i, j);
    } else {
      assert r[k - j + i + 1] == segs[k];
    }
  }

  lemma MergedCovers(segs: seq<Seg>, lo: nat, hi: nat, i: nat, j: nat, x: int)
    requires Sorted(segs) && lo < hi && segs[0].second <= lo && Located(segs, lo, hi, i, j)
    ensures Covers(Merged(segs, lo, hi, i, j), x) <==> Covers(segs, x) || lo <= x < hi
  {
    var r := Merged(segs, lo, hi, i, j);
    if Covers(segs, x) {
      MergedCoversOld(segs, lo, hi, i, j, x);
    } else if lo <= x < hi {
      assert r[i].first <= x < r[i].second;
    } else if Covers(r, x) {
      var k :| 0 <= k < |r| && r[k].first <= x < r[k].second;
      NewRange(segs, lo, hi, i, j, x, k);
      JoinedCovers(segs, lo, hi, i, j, x);
    }
  }

  /** What the merged list covers beyond the old one lies in the joined range. */
  lemma NewRange(segs: seq<Seg>, lo: nat, hi: nat, i: nat, j: nat, x: int, k: nat)
    requires i <= j <= |segs| && k < |Merged(segs, lo, hi, i, j)|
    requires Merged(segs, lo, hi, i, j)[k].first <= x < Merged(segs, lo, hi, i, j)[k].second
    ensures k == i || Covers(segs, x)
  {
    var r := Merged(segs, lo, hi, i, j);
    if k < i {
      assert r[k] == segs[k];
    } else if k > i {
      assert r[k] == segs[k - i - 1 + j];
    }
  }

  /** The joined range has no holes: at most its two ends stick out. */
  lemma JoinedCovers(segs: seq<Seg>, lo: nat, hi: nat, i: nat, j: nat, x: int)
    requires Located(segs, lo, hi, i, j)
    requires Joined(segs, lo, hi, i, j).first <= x < Joined(segs, lo, hi, i, j).second
    ensures Covers(segs, x) || lo <= x < hi
  {
    assert i < j ==> LocatedAt(segs, lo, hi, i, j, i) && LocatedAt(segs, lo, hi, i, j, j - 1);
    if i < j && x < lo {
      assert segs[i].first <= x < segs[i].second;
    } else if i < j && x >= hi {
      assert segs[j - 1].first <= x < segs[j - 1].second;
    }
  }

  // ---- in place ----

  /** The two searches. */
  method Locate(segs: array<Seg>, n: nat, lo: nat, hi: nat) returns (i: nat, j: nat)
    requires n <= segs.Length && Sorted(segs[..n]) && lo < hi
    ensures Located(segs[..n], lo, hi, i, j)
  {
    i := 0;
    while i < n && segs[i].second < lo
      invariant i <= n && forall k :: 0 <= k < i ==> segs[..n][k].second < lo
    {
      i := i + 1;
    }
    j := i;
    while j < n && segs[j].first <= hi
      invariant i <= j <= n && forall k :: i <= k < j ==> segs[..n][k].first <= hi
    {
      j := j + 1;
    }
    SearchStops(segs[..n], lo, hi, i, j);
  }

  lemma SearchStops(segs: seq<Seg>, lo: nat, hi: nat, i: nat, j: nat)
    requires Sorted(segs) && i <= j <= |segs|
    requires forall k :: 0 <= k < i ==> segs[k].second < lo
    requires forall k :: i <= k < j ==> segs[k].first <= hi
    requires i < |segs| ==> segs[i].second >= lo
    requires j < |segs| ==> segs[j].first > hi
    ensures Located(segs, lo, hi, i, j)
  {
    if i < |segs| { assert InPlace(segs, i); }
    if j < |segs| { assert InPlace(segs, j); }
    forall k: nat | k < |segs|
      ensures LocatedAt(segs, lo, hi, i, j, k)
    {
      assert InPlace(segs, k);
    }
  }

  /** Makes room at `i` and puts the new range there. */
  method InsertAt(segs: array<Seg>, n: nat, i: nat, lo: nat, hi: nat)
    requires i <= n < segs.Length
    modifies segs
    ensures segs[..n + 1] == Merged(old(segs[..n]), lo, hi, i, i)
  {
    ghost var was := segs[..n];
    var j := n;
    while j > i
      invariant i <= j <= n
      invariant forall k :: 0 <= k < j ==> segs[k] == was[k]
      invariant forall k :: j < k <= n ==> segs[k] == was[k - 1]
    {
      segs[j] := segs[j - 1];
      j := j - 1;
    }
    segs[i] := Seg(lo, hi);
    assert forall k :: 0 <= k <= n ==> segs[..n + 1][k] == Merged(was, lo, hi, i, i)[k];
  }

  /** Moves the ranges from `b` on down to `a`. */
  method CloseGap(segs: array<Seg>, n: nat, a: nat, b: nat) returns (n': nat)
    requires a < b <= n <= segs.Length
    modifies segs
    ensures n' == n - (b - a) && segs[..n'] == old(segs[..n])[..a] + old(segs[..n])[b..]
  {
    ghost var was, d := segs[..n], b - a;
    var to, k := a, b;
    while k < n
      invariant b <= k <= n && to + d == k
      invariant forall m :: 0 <= m < a ==> segs[m] == was[m]
      invariant forall m :: a <= m < to ==> segs[m] == was[m + d]
      invariant forall m :: k <= m < n ==> segs[m] == was[m]
    {
      segs[to] := segs[k];
      to, k := to + 1, k + 1;
    }
    n' := to;
  }

  /** Joins the ranges `i .. j` with the new one and closes the gap they leave. */
  method MergeAt(segs: array<Seg>, n: nat, i: nat, j: nat, lo: nat, hi: nat) returns (n': nat)
    requires i < j <= n <= segs.Length
    modifies segs
    ensures n' == n - (j - i) + 1 && segs[..n'] == Merged(old(segs[..n]), lo, hi, i, j)
  {
    ghost var was := segs[..n];
    segs[i] := Seg(Min(segs[i].first, lo), Max(segs[j - 1].second, hi));
    ghost var joined := segs[..n];
    assert joined[..i + 1] == was[..i] + [Joined(was, lo, hi, i, j)] && joined[j..] == was[j..];
    n' := n;
    if i + 1 < j {
      n' := CloseGap(segs, n, i + 1, j);
    } else {
      assert joined == joined[..i + 1] + joined[j..];
    }
  }
}
