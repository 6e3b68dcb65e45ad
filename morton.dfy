/**
 * Icon untiling (src/util.c). The console stores a 48x48 icon as 8x8 tiles
 * whose pixels follow a Morton (Z-order) curve; `UntileIcon` rewrites such an
 * icon in place into plain row-major order.
 *
 * The C helpers compute on 32-bit unsigned integers, so they are modelled on
 * `bv32`. The layout they implement is also defined independently on `int`,
 * by halving (`Interleave`, `TiledIndex`), and lemmas show that the two agree.
 */
module Morton {

  /** A pixel of the icon: an unsigned 16-bit value. */
  type u16 = x: int | 0 <= x < 0x1_0000

  /** Side of the square icon, in pixels. */
  const Side: int := 48
  const PixelCount: int := Side * Side

  // ---------------------------------------------------------------------
  // The C helpers, on 32-bit words
  // ---------------------------------------------------------------------

  /**
   * Interleaves the low three bits of x and y (the rest of both is ignored):
   * bits 0, 1, 2 of x land at result bits 0, 2, 4 and bits 0, 1, 2 of y at
   * result bits 1, 3, 5.
   */
  function MortonInterleave(x: bv32, y: bv32): (r: bv32)
    ensures r < 64
    ensures r == (x & 1) | ((y & 1) << 1) | ((x & 2) << 1) | ((y & 2) << 2) | ((x & 4) << 2) | ((y & 4) << 3)
  {
    var i := (x & 7) | ((y & 7) << 8);
    var i1 := (i ^ (i << 2)) & 0x1313;
    var i2 := (i1 ^ (i1 << 1)) & 0x1515;
    (i2 | (i2 >> 7)) & 0x3F
  }

  /** Only x & 7 and y & 7 matter. */
  lemma MortonUsesLowBitsOnly(x: bv32, y: bv32)
    ensures MortonInterleave(x, y) == MortonInterleave(x & 7, y & 7)
  {
  }

  /** Offset of pixel (x, y) inside its row of tiles: its place on the Z curve plus 64 per tile to its left. */
  function MortonOffset(x: bv32, y: bv32): (r: bv32)
    ensures x < 48 ==> r < 384 && r == MortonInterleave(x, y) + (x >> 3) * 64
  {
    MortonInterleave(x, y) + (x & !7) * 8
  }

  /** The index `untileIcon` reads for the pixel in column i, row j of the untiled icon. */
  function SourceIndex(i: bv32, j: bv32): (r: bv32)
    requires i < 48 && j < 48
    ensures r < 2304
    ensures r == MortonInterleave(i, j) + (i >> 3) * 64 + (j >> 3) * 384
  {
    MortonOffset(i, j) + (j & !7) * 48
  }

  // ---------------------------------------------------------------------
  // The layout on integers
  // ---------------------------------------------------------------------

  function Pow2(n: nat): (r: nat)
    ensures r >= 1
  {
    if n == 0 then 1 else 2 * Pow2(n - 1)
  }

  function Pow4(n: nat): (r: nat)
    ensures r >= 1
  {
    if n == 0 then 1 else 4 * Pow4(n - 1)
  }

  lemma Div2(n: nat, q: nat, r: nat)
    requires r < 2 && n == 2 * q + r
    ensures n / 2 == q && n % 2 == r
  {
  }

  lemma Div4(n: nat, q: nat, r: nat)
    requires r < 4 && n == 4 * q + r
    ensures n / 4 == q && n % 4 == r
  {
  }

  lemma Div6(n: nat, q: nat, r: nat)
    requires r < 6 && n == 6 * q + r
    ensures n / 6 == q && n % 6 == r
  {
  }

  lemma Div8(n: nat, q: nat, r: nat)
    requires r < 8 && n == 8 * q + r
    ensures n / 8 == q && n % 8 == r
  {
  }

  lemma DivSide(n: nat, q: nat, r: nat)
    requires r < Side && n == Side * q + r
    ensures n / Side == q && n % Side == r
  {
  }

  lemma Div64(n: nat, q: nat, r: nat)
    requires r < 64 && n == 64 * q + r
    ensures n / 64 == q && n % 64 == r
  {
  }

  /** Interleaves the low n bits of x and y: bit k of x goes to bit 2k, bit k of y to bit 2k + 1. */
  function Interleave(x: nat, y: nat, n: nat): (m: nat)
    ensures m < Pow4(n)
  {
    if n == 0 then 0 else x % 2 + 2 * (y % 2) + 4 * Interleave(x / 2, y / 2, n - 1)
  }

  /** Gathers the n bits of m at even positions 0, 2, ..., 2n - 2. */
  function EvenBits(m: nat, n: nat): (x: nat)
    ensures x < Pow2(n)
  {
    if n == 0 then 0 else m % 2 + 2 * EvenBits(m / 4, n - 1)
  }

  /** The even bits of an interleaving give back x. */
  lemma {:induction false} UnzipColumn(x: nat, y: nat, n: nat)
    requires x < Pow2(n)
    ensures EvenBits(Interleave(x, y, n), n) == x
  {
    if n > 0 {
      var rest := Interleave(x / 2, y / 2, n - 1);
      var m := Interleave(x, y, n);
      Div4(m, rest, x % 2 + 2 * (y % 2));
      Div2(m, y % 2 + 2 * rest, x % 2);
      UnzipColumn(x / 2, y / 2, n - 1);
    }
  }

  /** The odd bits of an interleaving give back y. */
  lemma {:induction false} UnzipRow(x: nat, y: nat, n: nat)
    requires y < Pow2(n)
    ensures EvenBits(Interleave(x, y, n) / 2, n) == y
  {
    if n > 0 {
      var rest := Interleave(x / 2, y / 2, n - 1);
      var m := Interleave(x, y, n);
      Div2(m, y % 2 + 2 * rest, x % 2);
      Div2(m / 2, rest, y % 2);
      Div4(m / 2, rest / 2, y % 2 + 2 * (rest % 2));
      UnzipRow(x / 2, y / 2, n - 1);
    }
  }

  /** Interleaving the even and odd bits of m gives back m. */
  lemma {:induction false} Zip(m: nat, n: nat)
    requires m < Pow4(n)
    ensures Interleave(EvenBits(m, n), EvenBits(m / 2, n), n) == m
  {
    if n > 0 {
      var q := m / 4;
      var b0, b1 := m % 2, m / 2 % 2;
      Div2(m, m / 2, b0);
      Div2(m / 2, m / 2 / 2, b1);
      Div4(m, m / 2 / 2, b0 + 2 * b1);
      Div4(m / 2, q / 2, b1 + 2 * (q % 2));
      var c, r := EvenBits(m, n), EvenBits(m / 2, n);
      Div2(c, EvenBits(q, n - 1), b0);
      Div2(r, EvenBits(q / 2, n - 1), b1);
      assert q < Pow4(n - 1);
      Zip(q, n - 1);
      assert Interleave(c, r, n) == b0 + 2 * b1 + 4 * Interleave(EvenBits(q, n - 1), EvenBits(q / 2, n - 1), n - 1);
    }
  }

  /** Position of column x, row y (both below 8) on the Z curve of a tile. */
  function ZOrder(x: nat, y: nat): (m: nat)
    ensures m < 64
  {
    Interleave(x, y, 3)
  }

  /** Column inside its tile of Z-curve position m. */
  function ZColumn(m: nat): (x: nat)
    ensures x < 8
  {
    EvenBits(m, 3)
  }

  /** Row inside its tile of Z-curve position m. */
  function ZRow(m: nat): (y: nat)
    ensures y < 8
  {
    EvenBits(m / 2, 3)
  }

  /**
   * The tiled layout on array indices: the icon is a 6x6 grid of 8x8 tiles
   * stored row by row, 64 pixels per tile, each tile in Z order.
   */
  function TiledIndex(x: nat, y: nat): (s: nat)
    requires x < Side && y < Side
    ensures s < PixelCount
  {
    assert x / 8 < 6 && y / 8 < 6;
    ZOrder(x % 8, y % 8) + 64 * (x / 8 + 6 * (y / 8))
  }

  /** The source index read for output position p = x + 48 * y. */
  function SourceOf(p: nat): (s: nat)
    requires p < PixelCount
    ensures s < PixelCount
  {
    TiledIndex(p % Side, p / Side)
  }

  /** The output position that receives source pixel s. */
  function TargetOf(s: nat): (p: nat)
    requires s < PixelCount
    ensures p < PixelCount
  {
    var m, t := s % 64, s / 64;
    assert t < 36 && t % 6 < 6 && t / 6 < 6;
    var x := 8 * (t % 6) + ZColumn(m);
    var y := 8 * (t / 6) + ZRow(m);
    x + Side * y
  }

  // ---------------------------------------------------------------------
  // Properties of the layout
  // ---------------------------------------------------------------------

  /** Every output position gets its pixel back: TargetOf undoes SourceOf. */
  lemma {:induction false} TargetUndoesSource(p: nat)
    requires p < PixelCount
    ensures TargetOf(SourceOf(p)) == p
  {
    var x, y := p % Side, p / Side;
    var cx, a, cy, b := x % 8, x / 8, y % 8, y / 8;
    var m := ZOrder(cx, cy);
    var t := a + 6 * b;
    Div64(SourceOf(p), t, m);
    Div6(t, b, a);
    UnzipColumn(cx, cy, 3);
    UnzipRow(cx, cy, 3);
  }

  /** Every source pixel is read for exactly one output position: SourceOf undoes TargetOf. */
  lemma {:induction false} SourceUndoesTarget(s: nat)
    requires s < PixelCount
    ensures SourceOf(TargetOf(s)) == s
  {
    var m, t := s % 64, s / 64;
    var a, b := t % 6, t / 6;
    var cx, cy := ZColumn(m), ZRow(m);
    var x, y := 8 * a + cx, 8 * b + cy;
    DivSide(TargetOf(s), y, x);
    Div8(x, a, cx);
    Div8(y, b, cy);
    Zip(m, 3);
  }

  /** Distinct output positions read distinct source pixels. */
  lemma {:induction false} SourcesDistinct(p: nat, q: nat)
    requires p < PixelCount && q < PixelCount && p != q
    ensures SourceOf(p) != SourceOf(q)
  {
    TargetUndoesSource(p);
    TargetUndoesSource(q);
  }

  // ---------------------------------------------------------------------
  // The 32-bit computation agrees with the layout
  // ---------------------------------------------------------------------

  lemma InterleaveWord(x: bv32, y: bv32)
    requires x < 8 && y < 8
    ensures MortonInterleave(x, y) as int == (x & 1) as int + 2 * (y & 1) as int + 2 * (x & 2) as int
                                             + 4 * (y & 2) as int + 4 * (x & 4) as int + 8 * (y & 4) as int
  {
  }

  lemma ThreeBitWord(x: bv32) returns (x0: nat, x1: nat, x2: nat)
    requires x < 8
    ensures x0 < 2 && x1 < 2 && x2 < 2 && x as int == x0 + 2 * x1 + 4 * x2
    ensures (x & 1) as int == x0 && (x & 2) as int == 2 * x1 && (x & 4) as int == 4 * x2
  {
    x0, x1, x2 := (x & 1) as int, (x & 2) as int / 2, (x & 4) as int / 4;
  }

  lemma ZOrderOfBits(x: nat, y: nat, x0: nat, x1: nat, x2: nat, y0: nat, y1: nat, y2: nat)
    requires x0 < 2 && x1 < 2 && x2 < 2 && x == x0 + 2 * x1 + 4 * x2
    requires y0 < 2 && y1 < 2 && y2 < 2 && y == y0 + 2 * y1 + 4 * y2
    ensures ZOrder(x, y) == x0 + 2 * y0 + 4 * x1 + 8 * y1 + 16 * x2 + 32 * y2
  {
    Div2(x, x1 + 2 * x2, x0);
    Div2(x1 + 2 * x2, x2, x1);
    Div2(x2, 0, x2);
    Div2(y, y1 + 2 * y2, y0);
    Div2(y1 + 2 * y2, y2, y1);
    Div2(y2, 0, y2);
    assert Interleave(x2, y2, 1) == x2 + 2 * y2;
    assert Interleave(x1 + 2 * x2, y1 + 2 * y2, 2) == x1 + 2 * y1 + 4 * (x2 + 2 * y2);
  }

  /** On words below 8, the bit-twiddling interleave computes ZOrder of their values cx and cy. */
  lemma InterleaveValue(x: bv32, y: bv32, cx: nat, cy: nat)
    requires x < 8 && y < 8 && x as int == cx && y as int == cy
    ensures MortonInterleave(x, y) as int == ZOrder(cx, cy)
  {
    InterleaveWord(x, y);
    var x0, x1, x2 := ThreeBitWord(x);
    var y0, y1, y2 := ThreeBitWord(y);
    ZOrderOfBits(cx, cy, x0, x1, x2, y0, y1, y2);
  }

  lemma WordBits(w: bv32) returns (c: nat, a: nat)
    requires w < 48
    ensures w & 7 < 8 && w >> 3 < 6
    ensures c < 8 && a < 6 && w as int == c + 8 * a && (w & 7) as int == c && (w >> 3) as int == a
  {
    c, a := (w & 7) as int, (w >> 3) as int;
  }

  lemma WordValue(r: bv32, m: bv32, a: bv32, b: bv32)
    requires m < 64 && a < 6 && b < 6 && r == m + a * 64 + b * 384
    ensures r as int == m as int + a as int * 64 + b as int * 384
  {
  }

  lemma SourceIndexWord(i: bv32, j: bv32)
    requires i < 48 && j < 48
    ensures i >> 3 < 6 && j >> 3 < 6
    ensures SourceIndex(i, j) as int == MortonInterleave(i & 7, j & 7) as int + 64 * (i >> 3) as int + 384 * (j >> 3) as int
  {
    MortonUsesLowBitsOnly(i, j);
    WordValue(SourceIndex(i, j), MortonInterleave(i, j), i >> 3, j >> 3);
  }

  /** The 32-bit index splits into the Z-curve position, the tile column and the tile row. */
  lemma SourceIndexParts(i: bv32, j: bv32) returns (a: nat, b: nat)
    requires i < 48 && j < 48
    ensures a < 6 && i as int == (i & 7) as int + 8 * a
    ensures b < 6 && j as int == (j & 7) as int + 8 * b
    ensures SourceIndex(i, j) as int == MortonInterleave(i & 7, j & 7) as int + 64 * a + 384 * b
  {
    SourceIndexWord(i, j);
    var _, _ := WordBits(i);
    var _, _ := WordBits(j);
    a, b := (i >> 3) as int, (j >> 3) as int;
  }

  /** The interleaving of two words below 8, bit by bit. */
  lemma InterleaveBits(x: bv32, y: bv32) returns (x0: nat, x1: nat, x2: nat, y0: nat, y1: nat, y2: nat)
    requires x < 8 && y < 8
    ensures x0 < 2 && x1 < 2 && x2 < 2 && x as int == x0 + 2 * x1 + 4 * x2
    ensures y0 < 2 && y1 < 2 && y2 < 2 && y as int == y0 + 2 * y1 + 4 * y2
    ensures MortonInterleave(x, y) as int == x0 + 2 * y0 + 4 * x1 + 8 * y1 + 16 * x2 + 32 * y2
  {
    InterleaveWord(x, y);
    x0, x1, x2 := ThreeBitWord(x);
    y0, y1, y2 := ThreeBitWord(y);
  }

  /** The bits of column i and row j, and the 32-bit index read for them. */
  lemma SourceIndexBits(i: bv32, j: bv32) returns (x0: nat, x1: nat, x2: nat, y0: nat, y1: nat, y2: nat, a: nat, b: nat)
    requires i < 48 && j < 48
    ensures x0 < 2 && x1 < 2 && x2 < 2 && a < 6 && i as int == x0 + 2 * x1 + 4 * x2 + 8 * a
    ensures y0 < 2 && y1 < 2 && y2 < 2 && b < 6 && j as int == y0 + 2 * y1 + 4 * y2 + 8 * b
    ensures SourceIndex(i, j) as int == x0 + 2 * y0 + 4 * x1 + 8 * y1 + 16 * x2 + 32 * y2 + 64 * a + 384 * b
  {
    a, b := SourceIndexParts(i, j);
    assert i & 7 < 8 && j & 7 < 8;
    x0, x1, x2, y0, y1, y2 := InterleaveBits(i & 7, j & 7);
  }

  /** SourceOf, for the output position given by the bits of its column and row. */
  lemma SourceOfBits(p: nat, x0: nat, x1: nat, x2: nat, y0: nat, y1: nat, y2: nat, a: nat, b: nat)
    requires x0 < 2 && x1 < 2 && x2 < 2 && a < 6 && y0 < 2 && y1 < 2 && y2 < 2 && b < 6
    requires p == x0 + 2 * x1 + 4 * x2 + 8 * a + Side * (y0 + 2 * y1 + 4 * y2 + 8 * b)
    ensures p < PixelCount && SourceOf(p) == x0 + 2 * y0 + 4 * x1 + 8 * y1 + 16 * x2 + 32 * y2 + 64 * a + 384 * b
  {
    var cx, cy := x0 + 2 * x1 + 4 * x2, y0 + 2 * y1 + 4 * y2;
    DivSide(p, cy + 8 * b, cx + 8 * a);
    Div8(cx + 8 * a, a, cx);
    Div8(cy + 8 * b, b, cy);
    ZOrderOfBits(cx, cy, x0, x1, x2, y0, y1, y2);
  }

  /**
   * For every pixel of the icon, the index the 32-bit computation reads for
   * column i, row j is SourceOf of the output position i + 48 * j.
   */
  lemma SourceIndexValue(i: bv32, j: bv32, p: nat)
    requires i < 48 && j < 48 && p == i as int + Side * j as int
    ensures p < PixelCount && SourceIndex(i, j) as int == SourceOf(p)
  {
    var x0, x1, x2, y0, y1, y2, a, b := SourceIndexBits(i, j);
    SourceOfBits(p, x0, x1, x2, y0, y1, y2, a, b);
  }

  // ---------------------------------------------------------------------
  // untileIcon
  // ---------------------------------------------------------------------

  /** The 32-bit word holding a loop counter, which is below 48. */
  function Word(n: int): (w: bv32)
    requires 0 <= n < 48
    ensures w as int == n && w < 48
  {
    (n as bv8) as bv32
  }

  /**
   * The index untileIcon reads for column i, row j: the ints are passed to
   * the 32-bit helpers, and the tile-row offset is added on 32 bits.
   */
  method SourceOffset(i: int, j: int) returns (src: int)
    requires 0 <= i < Side && 0 <= j < Side
    ensures src == SourceOf(i + Side * j)
  {
    var wi, wj := Word(i), Word(j);
    var offset := SourceIndex(wi, wj);
    SourceIndexValue(wi, wj, i + Side * j);
    src := offset as int;
  }

  /**
   * Untiles the icon in place: output pixel p = i + 48 * j (column i, row j)
   * receives the pixel at SourceOf(p). The output is first built in a scratch
   * buffer, which is then copied back over the icon.
   */
  method UntileIcon(data: array<u16>)
    requires data.Length == PixelCount
    modifies data
    ensures forall p :: 0 <= p < PixelCount ==> data[p] == old(data[SourceOf(p)])
  {
    var dst := new u16[PixelCount];
    var j := 0;
    while j < Side
      invariant 0 <= j <= Side && unchanged(data)
      invariant forall p :: 0 <= p < Side * j ==> dst[p] == data[SourceOf(p)]
    {
      var i := 0;
      while i < Side
        invariant 0 <= i <= Side && unchanged(data)
        invariant forall p :: 0 <= p < Side * j + i ==> dst[p] == data[SourceOf(p)]
      {
        var src := SourceOffset(i, j);
        dst[i + Side * j] := data[src];
        i := i + 1;
      }
      j := j + 1;
    }
    forall k | 0 <= k < PixelCount {
      data[k] := dst[k];
    }
  }
}
