/**
 * Pixelation of the screenshot in slock: `compute_pixel` replaces one
 * square tile of the `width * height` pixel buffer by the per-lane mean of
 * that tile, and the loop in `main` runs it over a grid of tiles stepping by
 * `pixel_size`, clipping the tiles on the right and bottom edges.
 */
module Pixelation {
  import opened Common

  /** One pixel as its four byte lanes (`struct Pixel` without the union). */
  datatype Pixel = Pixel(a: byte, red: byte, green: byte, blue: byte)

  /** The range of a 32-bit `unsigned int`. */
  const Word: nat := 0x1_0000_0000

  /** The `DATA32` word that the union overlays on a pixel (lane `a` is the low byte). */
  function Pack(p: Pixel): (w: nat)
    ensures w < Word
  {
    p.a as nat + 0x100 * p.red as nat + 0x1_0000 * p.green as nat + 0x100_0000 * p.blue as nat
  }

  /** The lanes the union reads out of a `DATA32` word. */
  function Unpack(w: nat): Pixel
    requires w < Word
  {
    Pixel((w % 0x100) as byte, (w / 0x100 % 0x100) as byte, (w / 0x1_0000 % 0x100) as byte, (w / 0x100_0000) as byte)
  }

  /** Reading a written pixel back through the union gives the same lanes. */
  lemma PackUnpack(p: Pixel)
    ensures Pack(p) < Word && Unpack(Pack(p)) == p
  {
    var w := Pack(p);
    assert w / 0x100 == p.red as nat + 0x100 * p.green as nat + 0x1_0000 * p.blue as nat;
    assert w / 0x1_0000 == p.green as nat + 0x100 * p.blue as nat;
    assert w / 0x100_0000 == p.blue as nat;
  }

  /** Every `DATA32` word is the packing of its lanes. */
  lemma UnpackPack(w: nat)
    requires w < Word
    ensures Pack(Unpack(w)) == w
  {
    var q1 := w / 0x100;
    var q2 := q1 / 0x100;
    var q3 := q2 / 0x100;
    assert w / 0x1_0000 == q2;
    assert w / 0x100_0000 == q3;
  }

  function Min(a: nat, b: nat): nat { if a < b then a else b }

  // ----- arithmetic facts about the row-major layout -----

  lemma MulMono(a: nat, b: nat, c: nat)
    requires b <= c
    ensures a * b <= a * c
  {
    assert a * c == a * b + a * (c - b);
  }

  /** Division by `b` undoes the row-major index `b * q + r`. */
  lemma {:induction false} DivMod(b: nat, q: nat, r: nat)
    requires r < b
    ensures (b * q + r) / b == q && (b * q + r) % b == r
  {
    var k := b * q + r;
    var q', r' := k / b, k % b;
    assert k == b * q' + r';
    if q' < q {
      MulMono(b, q' + 1, q);
      assert false;
    } else if q' > q {
      MulMono(b, q + 1, q');
      assert false;
    }
  }

  /** An index below `width * height` lies in one of the `height` rows. */
  lemma RowInRange(k: nat, width: nat, height: nat)
    requires k < width * height
    ensures width > 0 && Row(k, width) < height
  {
    if width == 0 {
      assert false;
    }
    if Row(k, width) >= height {
      MulMono(width, height, Row(k, width));
      assert false;
    }
  }

  // ----- lane sums -----

  /** Four lane accumulators. */
  datatype Sums = Sums(a: nat, red: nat, green: nat, blue: nat)

  /** Reduction modulo 2^32, as `unsigned int` arithmetic does. */
  function Wrap(x: nat): (r: nat)
    ensures r < Word && (x < Word ==> r == x)
  {
    x % Word
  }

  /** `alpha += p.a; red += p.red; ...` on 32-bit unsigned accumulators. */
  function Add(s: Sums, p: Pixel): (r: Sums)
    // each 32-bit accumulator stays in range and is exact while the sum fits
    ensures r.a < Word && r.red < Word && r.green < Word && r.blue < Word
    ensures s.a + p.a as nat < Word ==> r.a == s.a + p.a as nat
    ensures s.red + p.red as nat < Word ==> r.red == s.red + p.red as nat
    ensures s.green + p.green as nat < Word ==> r.green == s.green + p.green as nat
    ensures s.blue + p.blue as nat < Word ==> r.blue == s.blue + p.blue as nat
  {
    Sums(Wrap(s.a + p.a as nat), Wrap(s.red + p.red as nat),
         Wrap(s.green + p.green as nat), Wrap(s.blue + p.blue as nat))
  }

  /** The accumulators after visiting `s` in order, starting from zero. */
  function Total(s: seq<Pixel>): Sums
  {
    if s == [] then Sums(0, 0, 0, 0) else Add(Total(s[..|s| - 1]), s[|s| - 1])
  }

  /** The true lane sums of `s`, without wrap-around. */
  function ExactTotal(s: seq<Pixel>): (t: Sums)
    ensures t.a <= 255 * |s| && t.red <= 255 * |s| && t.green <= 255 * |s| && t.blue <= 255 * |s|
  {
    if s == [] then Sums(0, 0, 0, 0)
    else
      var t := ExactTotal(s[..|s| - 1]);
      var p := s[|s| - 1];
      Sums(t.a + p.a as nat, t.red + p.red as nat, t.green + p.green as nat, t.blue + p.blue as nat)
  }

  /** The accumulators never wrap while `255 * count` fits in 32 bits. */
  lemma {:induction false} NoWrap(s: seq<Pixel>)
    requires 255 * |s| < Word
    ensures Total(s) == ExactTotal(s)
  {
    if s != [] {
      NoWrap(s[..|s| - 1]);
    }
  }

  /** `p.red = red / rect_area`: a lane sum divided by the area and stored in an `unsigned char`. */
  function Lane(v: nat, area: nat): (r: byte)
    requires area > 0
    ensures v <= 255 * area ==> r as nat == v / area
  {
    LaneFits(v, area);
    (v / area % 256) as byte
  }

  /** The pixel `compute_pixel` writes: every lane divided by the area. */
  function Mean(s: Sums, area: nat): (r: Pixel)
    requires area > 0
    // a lane sum of at most 255 per pixel gives the floor average in that lane
    ensures s.a <= 255 * area ==> r.a as nat == s.a / area
    ensures s.red <= 255 * area ==> r.red as nat == s.red / area
    ensures s.green <= 255 * area ==> r.green as nat == s.green / area
    ensures s.blue <= 255 * area ==> r.blue as nat == s.blue / area
  {
    Pixel(Lane(s.a, area), Lane(s.red, area), Lane(s.green, area), Lane(s.blue, area))
  }

  /** A lane average of bytes is itself a byte, so the store into `unsigned char` keeps it. */
  lemma LaneFits(t: nat, n: nat)
    requires n > 0
    ensures t <= 255 * n ==> t / n < 256
  {
    var q := t / n;
    assert t == n * q + t % n;
    if q > 255 && t <= 255 * n {
      MulMono(n, 256, q);
    }
  }

  /** `n` copies of the byte `v` average to `v`. */
  lemma LaneUniform(n: nat, v: byte)
    requires n > 0
    ensures Lane(n * v as nat, n) == v
  {
    DivMod(n, v as nat, 0);
  }

  /** Without wrap-around, every lane of the mean is the floor of the lane's average. */
  lemma FloorMean(s: seq<Pixel>)
    requires 0 < |s| && 255 * |s| < Word
    ensures var m := Mean(Total(s), |s|);
            var t := ExactTotal(s);
            && m.a as nat == t.a / |s| && m.red as nat == t.red / |s|
            && m.green as nat == t.green / |s| && m.blue as nat == t.blue / |s|
  {
    NoWrap(s);
  }

  lemma {:induction false} ExactTotalUniform(s: seq<Pixel>, p: Pixel)
    requires forall i :: 0 <= i < |s| ==> s[i] == p
    ensures ExactTotal(s) == Sums(|s| * p.a as nat, |s| * p.red as nat, |s| * p.green as nat, |s| * p.blue as nat)
  {
    if s != [] {
      var n := |s| - 1;
      ExactTotalUniform(s[..n], p);
      LinearStep(n, p.a as nat);
      LinearStep(n, p.red as nat);
      LinearStep(n, p.green as nat);
      LinearStep(n, p.blue as nat);
    }
  }

  lemma LinearStep(n: nat, v: nat)
    ensures n * v + v == (n + 1) * v
  {
  }

  /** A tile whose pixels are all equal averages to that pixel. */
  lemma UniformMean(s: seq<Pixel>, p: Pixel)
    requires 0 < |s| && 255 * |s| < Word
    requires forall i :: 0 <= i < |s| ==> s[i] == p
    ensures Mean(Total(s), |s|) == p
  {
    NoWrap(s);
    ExactTotalUniform(s, p);
    LaneUniform(|s|, p.a);
    LaneUniform(|s|, p.red);
    LaneUniform(|s|, p.green);
    LaneUniform(|s|, p.blue);
  }

  // ----- tiles of the row-major buffer -----

  /** Index of the pixel in row `r`, column `c` of a buffer `width` pixels wide. */
  function Idx(width: nat, r: nat, c: nat): nat
  {
    width * r + c
  }

  /** The pixels of the `w` by `h` rectangle with top-left corner (x, y), row by row. */
  function Tile(data: seq<Pixel>, width: nat, x: nat, y: nat, w: nat, h: nat): (t: seq<Pixel>)
    requires x + w <= width && width * (y + h) <= |data|
    ensures |t| == w * h
    decreases h
  {
    if h == 0 then []
    else
      MulMono(width, y + h - 1, y + h);
      Tile(data, width, x, y, w, h - 1) + data[Idx(width, y + h - 1, x)..Idx(width, y + h - 1, x) + w]
  }

  /** The row of index `k` in a buffer `width` pixels wide. */
  function Row(k: nat, width: nat): nat
    requires width > 0
  {
    k / width
  }

  /** The column of index `k` in a buffer `width` pixels wide. */
  function Col(k: nat, width: nat): (c: nat)
    requires width > 0
    ensures c < width
  {
    k % width
  }

  /** Row and column recover the pair an index was made of. */
  lemma Compose(width: nat, r: nat, c: nat)
    requires c < width
    ensures Row(Idx(width, r, c), width) == r && Col(Idx(width, r, c), width) == c
  {
    DivMod(width, r, c);
  }

  /** Every index is made of its row and column. */
  lemma Decompose(k: nat, width: nat)
    requires width > 0
    ensures Idx(width, Row(k, width), Col(k, width)) == k
  {
  }

  /** Row `y + j` of a rectangle inside the buffer adds one slice of `w` pixels to its tile. */
  lemma TileStep(data: seq<Pixel>, width: nat, x: nat, y: nat, w: nat, j: nat, h: nat)
    requires x + w <= width && width * (y + h) <= |data| && j < h
    ensures width * (y + j + 1) <= |data| && Idx(width, y + j, x) + w <= |data|
    ensures Tile(data, width, x, y, w, j + 1)
            == Tile(data, width, x, y, w, j) + data[Idx(width, y + j, x)..Idx(width, y + j, x) + w]
  {
    MulMono(width, y + j + 1, y + h);
    assert width * (y + j + 1) == width * (y + j) + width;
  }

  /** Whether index `k` lies in the `w` by `h` rectangle with top-left corner (x, y). */
  predicate InRect(k: nat, width: nat, x: nat, y: nat, w: nat, h: nat)
  {
    width > 0 && y <= Row(k, width) < y + h && x <= Col(k, width) < x + w
  }

  /** A tile depends only on the pixels inside it. */
  lemma {:induction false} TileFrame(d1: seq<Pixel>, d2: seq<Pixel>, width: nat, x: nat, y: nat, w: nat, h: nat)
    requires x + w <= width && width * (y + h) <= |d1| == |d2|
    requires forall k :: 0 <= k < |d1| && InRect(k, width, x, y, w, h) ==> d1[k] == d2[k]
    ensures Tile(d1, width, x, y, w, h) == Tile(d2, width, x, y, w, h)
    decreases h
  {
    if h > 0 {
      MulMono(width, y + h - 1, y + h);
      TileFrame(d1, d2, width, x, y, w, h - 1);
      var base := Idx(width, y + h - 1, x);
      var row1, row2 := d1[base..base + w], d2[base..base + w];
      forall i | 0 <= i < w ensures row1[i] == row2[i] {
        Compose(width, y + h - 1, x + i);
        assert InRect(base + i, width, x, y, w, h);
      }
      assert row1 == row2;
    }
  }

  lemma MulPos(a: nat, b: nat)
    requires a > 0 && b > 0
    ensures a * b > 0
  {
    MulMono(a, 1, b);
  }

  // ----- compute_pixel -----

  /** The tile at (x, y), `ps` square but clipped to the right and bottom edges of the buffer. */
  function ClippedTile(data: seq<Pixel>, width: nat, height: nat, ps: nat, x: nat, y: nat): (t: seq<Pixel>)
    requires |data| == width * height && x < width && y < height && ps > 0
    ensures |t| == Min(ps, width - x) * Min(ps, height - y) > 0
  {
    var w, h := Min(ps, width - x), Min(ps, height - y);
    MulMono(width, y + h, height);
    MulPos(w, h);
    Tile(data, width, x, y, w, h)
  }

  /** The pixel `compute_pixel` writes over the tile at (x, y): lane sums divided by the actual pixel count. */
  function BlockMean(data: seq<Pixel>, width: nat, height: nat, ps: nat, x: nat, y: nat): Pixel
    requires |data| == width * height && x < width && y < height && ps > 0
  {
    var t := ClippedTile(data, width, height, ps, x, y);
    Mean(Total(t), |t|)
  }

  /** The mean of a tile depends only on the pixels inside it. */
  lemma BlockMeanFrame(d1: seq<Pixel>, d2: seq<Pixel>, width: nat, height: nat, ps: nat, x: nat, y: nat)
    requires |d1| == |d2| == width * height && x < width && y < height && ps > 0
    requires forall k :: 0 <= k < |d1| && InRect(k, width, x, y, Min(ps, width - x), Min(ps, height - y)) ==> d1[k] == d2[k]
    ensures BlockMean(d1, width, height, ps, x, y) == BlockMean(d2, width, height, ps, x, y)
  {
    var w, h := Min(ps, width - x), Min(ps, height - y);
    MulMono(width, y + h, height);
    TileFrame(d1, d2, width, x, y, w, h);
    assert ClippedTile(d1, width, height, ps, x, y) == ClippedTile(d2, width, height, ps, x, y);
  }

  /** The inner summing loop: add the `w` pixels from index `base` on to the accumulators. */
  method SumRow(data: array<Pixel>, base: nat, w: nat, acc0: Sums, ghost seen: seq<Pixel>) returns (acc: Sums)
    requires base + w <= data.Length && acc0 == Total(seen)
    ensures acc == Total(seen + data[base..base + w])
  {
    acc := acc0;
    var i := 0;
    assert seen + data[base..base] == seen;
    while i < w
      invariant i <= w
      invariant acc == Total(seen + data[base..base + i])
    {
      var p := data[base + i];
      ghost var before := seen + data[base..base + i];
      assert seen + data[base..base + i + 1] == before + [p];
      assert (before + [p])[..|before|] == before;
      acc := Add(acc, p);
      i := i + 1;
    }
  }

  /** The summing loops of `compute_pixel`: visit the tile row by row. */
  method SumTile(data: array<Pixel>, width: nat, x: nat, y: nat, w: nat, h: nat) returns (acc: Sums)
    requires x + w <= width && width * (y + h) <= data.Length
    ensures acc == Total(Tile(data[..], width, x, y, w, h))
  {
    acc := Sums(0, 0, 0, 0);
    var j := 0;
    while j < h
      invariant j <= h
      invariant acc == Total(Tile(data[..], width, x, y, w, j))
    {
      TileStep(data[..], width, x, y, w, j, h);
      var base := Idx(width, y + j, x);
      acc := SumRow(data, base, w, acc, Tile(data[..], width, x, y, w, j));
      j := j + 1;
    }
  }

  /** Row `y + j` of a rectangle, columns `x` to `x + w`, is a run of consecutive indices. */
  lemma RowBand(k: nat, width: nat, x: nat, y: nat, w: nat, j: nat)
    requires x + w <= width
    ensures InRect(k, width, x, y, w, j + 1) <==>
            InRect(k, width, x, y, w, j) || Idx(width, y + j, x) <= k < Idx(width, y + j, x) + w
  {
    var base := Idx(width, y + j, x);
    if base <= k < base + w {
      Compose(width, y + j, x + (k - base));
    }
    if width > 0 && Row(k, width) == y + j {
      Decompose(k, width);
    }
  }

  /** The inner writing loop: store `p` over the `w` pixels from index `base` on. */
  method FillRow(data: array<Pixel>, base: nat, w: nat, p: Pixel)
    requires base + w <= data.Length
    modifies data
    ensures forall k :: 0 <= k < data.Length ==> data[k] == if base <= k < base + w then p else old(data[k])
  {
    var i := 0;
    while i < w
      invariant i <= w
      invariant forall k :: 0 <= k < data.Length ==> data[k] == if base <= k < base + i then p else old(data[k])
    {
      data[base + i] := p;
      i := i + 1;
    }
  }

  /** The writing loops of `compute_pixel`: store `p` over the whole rectangle. */
  method Fill(data: array<Pixel>, width: nat, x: nat, y: nat, w: nat, h: nat, p: Pixel)
    requires x + w <= width && width * (y + h) <= data.Length
    modifies data
    ensures forall k :: 0 <= k < data.Length ==>
              data[k] == if InRect(k, width, x, y, w, h) then p else old(data[k])
  {
    var j := 0;
    while j < h
      invariant j <= h
      invariant forall k :: 0 <= k < data.Length ==>
                  data[k] == if InRect(k, width, x, y, w, j) then p else old(data[k])
    {
      MulMono(width, y + j + 1, y + h);
      var base := Idx(width, y + j, x);
      assert base + w <= data.Length;
      ghost var mid := data[..];
      FillRow(data, base, w, p);
      forall k | 0 <= k < data.Length
        ensures data[k] == if InRect(k, width, x, y, w, j + 1) then p else old(data[k])
      {
        RowBand(k, width, x, y, w, j);
        assert mid[k] == if InRect(k, width, x, y, w, j) then p else old(data[k]);
      }
      j := j + 1;
    }
  }

  /** `compute_pixel`: overwrite the clipped tile at (x, y) with its per-lane mean. */
  method ComputePixel(data: array<Pixel>, width: nat, height: nat, x: nat, y: nat, ps: nat)
    requires data.Length == width * height && x < width && y < height && ps > 0
    modifies data
    ensures forall k :: 0 <= k < data.Length ==>
              data[k] == if InRect(k, width, x, y, Min(ps, width - x), Min(ps, height - y))
                         then BlockMean(old(data[..]), width, height, ps, x, y) else old(data[k])
  {
    var w := Min(ps, width - x);
    var h := Min(ps, height - y);
    MulMono(width, y + h, height);
    var acc := SumTile(data, width, x, y, w, h);
    MulPos(w, h);
    var p := Mean(acc, w * h);
    Fill(data, width, x, y, w, h, p);
  }

  // ----- the pixelation pass of main -----

  /** The column (or row) where the grid tile holding column (or row) `c` starts. */
  function Origin(c: nat, ps: nat): (o: nat)
    requires ps > 0
    ensures o <= c < o + ps
  {
    assert c == ps * (c / ps) + c % ps;
    c - c % ps
  }

  /** A pixel inside the tile that starts at the multiple `x` of `ps` has `x` as its grid origin. */
  lemma GridOrigin(c: nat, ps: nat, t: nat, x: nat, w: nat)
    requires x == ps * t && x <= c < x + w && w <= ps
    ensures Origin(c, ps) == x
  {
    DivMod(ps, t, c - x);
  }

  /**
   * The pixel the whole pass leaves at index `k`: the mean, over the original
   * buffer, of the grid tile that holds `k` (tile origins are the multiples
   * of `ps`).
   */
  function Pixelated(orig: seq<Pixel>, width: nat, height: nat, ps: nat, k: nat): Pixel
    requires |orig| == width * height && k < |orig| && ps > 0
  {
    RowInRange(k, width, height);
    BlockMean(orig, width, height, ps, Origin(Col(k, width), ps), Origin(Row(k, width), ps))
  }

  /** Pixels already replaced while the pass is at row band `y` (`h` high) and column `x`. */
  predicate Done(k: nat, width: nat, x: nat, y: nat, h: nat)
  {
    InRect(k, width, 0, 0, width, y) || InRect(k, width, 0, y, x, h)
  }

  /** One call of `compute_pixel` in the pass: the tile at (x, y) joins the finished part. */
  lemma AfterTile(orig: seq<Pixel>, before: seq<Pixel>, after: seq<Pixel>, width: nat, height: nat, ps: nat,
                  x: nat, y: nat, tx: nat, ty: nat)
    requires |orig| == |before| == |after| == width * height
    requires x < width && y < height && ps > 0 && x == ps * tx && y == ps * ty
    requires forall k :: 0 <= k < |before| ==>
               before[k] == if Done(k, width, x, y, Min(ps, height - y)) then Pixelated(orig, width, height, ps, k) else orig[k]
    requires forall k :: 0 <= k < |after| ==>
               after[k] == if InRect(k, width, x, y, Min(ps, width - x), Min(ps, height - y))
                           then BlockMean(before, width, height, ps, x, y) else before[k]
    ensures forall k :: 0 <= k < |after| ==>
              after[k] == if Done(k, width, x + Min(ps, width - x), y, Min(ps, height - y))
                          then Pixelated(orig, width, height, ps, k) else orig[k]
  {
    var w, h := Min(ps, width - x), Min(ps, height - y);
    BlockMeanFrame(before, orig, width, height, ps, x, y);
    var m := BlockMean(orig, width, height, ps, x, y);
    forall k | 0 <= k < |after|
      ensures after[k] == if Done(k, width, x + w, y, h) then Pixelated(orig, width, height, ps, k) else orig[k]
    {
      if InRect(k, width, x, y, w, h) {
        GridOrigin(Row(k, width), ps, ty, y, h);
        GridOrigin(Col(k, width), ps, tx, x, w);
        assert after[k] == m;
      } else {
        assert after[k] == before[k];
      }
    }
  }

  /** A row band finished up to the right edge joins the rows above it. */
  lemma BandDone(k: nat, width: nat, y: nat, h: nat)
    ensures Done(k, width, width, y, h) <==> InRect(k, width, 0, 0, width, y + h)
  {
  }

  /** The nested loop of `main` that calls `compute_pixel` on every tile of the grid. */
  method Pixelate(data: array<Pixel>, width: nat, height: nat, ps: nat)
    requires data.Length == width * height && ps > 0
    modifies data
    ensures forall k :: 0 <= k < data.Length ==> data[k] == Pixelated(old(data[..]), width, height, ps, k)
  {
    ghost var orig := data[..];
    var y := 0;
    ghost var ty := 0;
    while y < height
      invariant y <= height && (y < height ==> y == ps * ty)
      invariant forall k :: 0 <= k < data.Length ==>
                  data[k] == if InRect(k, width, 0, 0, width, y) then Pixelated(orig, width, height, ps, k) else orig[k]
    {
      var h := Min(ps, height - y);
      var x := 0;
      ghost var tx := 0;
      while x < width
        invariant x <= width && (x < width ==> x == ps * tx)
        invariant forall k :: 0 <= k < data.Length ==>
                    data[k] == if Done(k, width, x, y, h) then Pixelated(orig, width, height, ps, k) else orig[k]
      {
        ghost var before := data[..];
        ComputePixel(data, width, height, x, y, ps);
        AfterTile(orig, before, data[..], width, height, ps, x, y, tx, ty);
        LinearStep(tx, ps);
        x, tx := Min(x + ps, width), tx + 1;
      }
      forall k | 0 <= k < data.Length
        ensures data[k] == if InRect(k, width, 0, 0, width, y + h) then Pixelated(orig, width, height, ps, k) else orig[k]
      {
        BandDone(k, width, y, h);
      }
      LinearStep(ty, ps);
      y, ty := Min(y + ps, height), ty + 1;
    }
    forall k | 0 <= k < data.Length ensures InRect(k, width, 0, 0, width, height) {
      RowInRange(k, width, height);
    }
  }

  // ----- what the pass computes -----

  /** A rectangle inside a `maxW` by `maxH` one holds no more pixels than it. */
  lemma ClippedArea(w: nat, h: nat, maxW: nat, maxH: nat)
    requires w <= maxW && h <= maxH
    ensures w * h <= maxW * maxH
  {
    MulMono(w, h, maxH);
    MulMono(maxH, w, maxW);
  }

  /** The pixels of a tile of a uniform buffer are all that buffer's pixel. */
  lemma {:induction false} TileUniform(data: seq<Pixel>, width: nat, x: nat, y: nat, w: nat, h: nat, p: Pixel)
    requires x + w <= width && width * (y + h) <= |data|
    requires forall k :: 0 <= k < |data| ==> data[k] == p
    ensures forall q :: q in Tile(data, width, x, y, w, h) ==> q == p
    decreases h
  {
    if h > 0 {
      MulMono(width, y + h - 1, y + h);
      TileUniform(data, width, x, y, w, h - 1, p);
      var base := Idx(width, y + h - 1, x);
      var row := data[base..base + w];
      assert Tile(data, width, x, y, w, h) == Tile(data, width, x, y, w, h - 1) + row;
      assert forall q :: q in row ==> q in data;
    }
  }

  /**
   * While a tile's lane sums cannot overflow 32 bits, `compute_pixel` stores
   * the floor of each lane's average over the pixels actually in the
   * (possibly clipped) tile.
   */
  lemma BlockMeanIsAverage(data: seq<Pixel>, width: nat, height: nat, ps: nat, x: nat, y: nat)
    requires |data| == width * height && x < width && y < height && ps > 0
    requires 255 * (Min(ps, width - x) * Min(ps, height - y)) < Word
    ensures var tile := ClippedTile(data, width, height, ps, x, y);
            var m, t := BlockMean(data, width, height, ps, x, y), ExactTotal(tile);
            && m.a as nat == t.a / |tile| && m.red as nat == t.red / |tile|
            && m.green as nat == t.green / |tile| && m.blue as nat == t.blue / |tile|
  {
    FloorMean(ClippedTile(data, width, height, ps, x, y));
  }

  /** A tile of a one-colour buffer averages to that colour. */
  lemma BlockUniform(orig: seq<Pixel>, width: nat, height: nat, ps: nat, x: nat, y: nat, p: Pixel)
    requires |orig| == width * height && x < width && y < height && ps > 0
    requires 255 * (Min(ps, width - x) * Min(ps, height - y)) < Word
    requires forall k :: 0 <= k < |orig| ==> orig[k] == p
    ensures BlockMean(orig, width, height, ps, x, y) == p
  {
    var w, h := Min(ps, width - x), Min(ps, height - y);
    MulMono(width, y + h, height);
    TileUniform(orig, width, x, y, w, h, p);
    var t := ClippedTile(orig, width, height, ps, x, y);
    assert forall i :: 0 <= i < |t| ==> t[i] in t;
    UniformMean(t, p);
  }

  /** Pixelating a screen of one colour leaves it unchanged. */
  lemma PixelatedUniform(orig: seq<Pixel>, width: nat, height: nat, ps: nat, p: Pixel)
    requires |orig| == width * height && ps > 0 && 255 * (Min(ps, width) * Min(ps, height)) < Word
    requires forall k :: 0 <= k < |orig| ==> orig[k] == p
    ensures forall k :: 0 <= k < |orig| ==> Pixelated(orig, width, height, ps, k) == p
  {
    forall k | 0 <= k < |orig| ensures Pixelated(orig, width, height, ps, k) == p {
      RowInRange(k, width, height);
      var x, y := Origin(Col(k, width), ps), Origin(Row(k, width), ps);
      ClippedArea(Min(ps, width - x), Min(ps, height - y), Min(ps, width), Min(ps, height));
      BlockUniform(orig, width, height, ps, x, y, p);
    }
  }
}
