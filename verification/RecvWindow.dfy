/** The receive window a connection advertises, with and without scaling. */
module RecvWindow {
  import opened Words

  /** The window scale a receiver with a buffer of this size announces. */
  function Scale(size: nat): (shift: nat) {
    Min(14, if Msb(size) < 16 then 0 else Msb(size) - 16)
  }

  function ShiftedRight(n: nat, shift: nat): (r: nat) {
    if shift == 0 then n else ShiftedRight(n / 2, shift - 1)
  }

  lemma {:induction false} ShiftDivides(n: nat, shift: nat)
    ensures 0 <= n - ShiftedRight(n, shift) * Pow2(shift) < Pow2(shift)
  {
    if shift == 0 {
    } else {
      ShiftDivides(n / 2, shift - 1);
      var r, half := ShiftedRight(n, shift), Pow2(shift - 1);
      assert r * Pow2(shift) == 2 * (r * half);
    }
  }

  /** The window field for `space` free bytes, before it is cut to 16 bits. */
  function WindowField(space: nat, scaled: bool, shift: nat): (field: nat) {
    if scaled then ShiftedRight(space, shift) else Min(65535, space)
  }

  /** The number of bytes the peer understands by it. */
  function Granted(space: nat, scaled: bool, shift: nat): (bytes: nat) {
    WindowField(space, scaled, shift) * if scaled then Pow2(shift) else 1
  }

  /** The scaled field fits its 16 bits for every fill of the buffer, if and only if
      the buffer is smaller than 2^30. */
  lemma FieldFits(size: nat)
    ensures size < 0x4000_0000 <==>
            forall space: nat :: space <= size ==> WindowField(space, true, Scale(size)) <= 65535
  {
    var shift := Scale(size);
    Pow2Values();
    if size < 0x4000_0000 {
      forall space: nat | space <= size
        ensures WindowField(space, true, shift) <= 65535
      {
        SmallFits(size, space);
      }
    } else {
      Pow2Monotone(Msb(size), 30);
      ShiftDivides(size, shift);
      AtMost(65536, WindowField(size, true, shift), Pow2(shift));
    }
  }

  lemma SmallFits(size: nat, space: nat)
    requires space <= size < 0x4000_0000
    ensures WindowField(space, true, Scale(size)) <= 65535
  {
    var shift := Scale(size);
    Pow2Values();
    Pow2Monotone(30, Msb(size) - if size == 0 then 0 else 1);
    Pow2Monotone(Msb(size), 16 + shift);
    Pow2Add(16, shift);
    ShiftDivides(space, shift);
    AtMost(WindowField(space, true, shift), 65535, Pow2(shift));
  }

  lemma AtMost(a: nat, b: nat, m: nat)
    requires a * m < (b + 1) * m
    ensures a <= b
  {
  }

  /** The peer is promised the free space, less what the scaling cannot express. */
  lemma ScaledGrant(space: nat, shift: nat)
    ensures Granted(space, true, shift) == space - space % Pow2(shift)
  {
    ShiftDivides(space, shift);
    var r := ShiftedRight(space, shift);
    ModUnique(space, r, space - r * Pow2(shift), Pow2(shift));
  }

  /** The right edge when `got` bytes of a buffer that starts at `base` are in order. */
  function ScaledEdge(base: nat, got: nat, size: nat, shift: nat): (edge: nat)
    requires got <= size
  {
    base + got + Granted(size - got, true, shift)
  }

  /** When `gain` more bytes are in order and `freed` bytes at the front are freed, the
      right edge stays or moves right if and only if `gain` does not exceed, in the part
      the scaling cannot express, what was left over before and what was freed. It never
      moves left by as much as one unit of the scale. */
  lemma ScaledEdgeStays(base: nat, got: nat, gain: nat, freed: nat, size: nat, shift: nat)
    requires got <= size && freed <= got + gain <= size + freed
    ensures ScaledEdge(base, got, size, shift) <= ScaledEdge(base + freed, got + gain - freed, size, shift)
            <==> gain % Pow2(shift) <= (size - got) % Pow2(shift) + freed
    ensures ScaledEdge(base, got, size, shift) < ScaledEdge(base + freed, got + gain - freed, size, shift) + Pow2(shift)
  {
    ScaledGrant(size - got, shift);
    ScaledGrant(size - (got + gain - freed), shift);
    LeftOver(size - got, gain, freed, Pow2(shift));
  }

  /** What is left over of `space - gain + freed`, compared with before. */
  lemma LeftOver(space: nat, gain: nat, freed: nat, m: nat)
    requires m > 0 && gain <= space + freed
    ensures (space - gain + freed) % m <= space % m + freed <==> gain % m <= space % m + freed
    ensures (space - gain + freed) % m < m
  {
    var r, x := space % m, gain % m;
    var q := space / m - gain / m;
    assert space - gain + freed == (r - x + freed) + m * q;
    ModShift(r - x + freed, q, m);
    if x <= r + freed {
      ModAtMost(r - x + freed, m);
    } else {
      ModUnique(r - x + freed, -1, r - x + freed + m, m);
    }
  }

  lemma ModAtMost(n: nat, m: nat)
    requires m > 0
    ensures n % m <= n
  {
    var q := n / m;
    assert n == m * q + n % m && m * q >= 0;
  }

  lemma MsbIs(n: nat, b: nat)
    requires b > 0 && Pow2(b - 1) <= n < Pow2(b)
    ensures Msb(n) == b
  {
    var c := Msb(n);
    if c < b { Pow2Monotone(c, b - 1); }
    if b < c { Pow2Monotone(b, c - 1); }
  }

  lemma ScaleOf128K()
    ensures Scale(0x2_0000) == 2 && Pow2(2) == 4
  {
    assert Pow2(1) == 2 && Pow2(2) == 4;
    assert Pow2(17) == 0x2_0000 && Pow2(18) == 0x4_0000 by {
      Pow2Values();
      Pow2Add(16, 1);
      Pow2Add(16, 2);
    }
    MsbIs(0x2_0000, 18);
  }

  /** The stream position the unscaled window lets the peer send up to, when `got`
      bytes of a buffer that starts at `base` are in order. */
  function Edge(base: nat, got: nat, size: nat): (edge: nat)
    ensures got <= size ==> edge == Min(base + got + 65535, base + size)
  {
    base + got + if got < size then WindowField(size - got, false, 0) else 0
  }
}
