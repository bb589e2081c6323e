/** gradHist: the orientation histograms of the cells.

    Every pixel (x, y) of the covered part of the image (x < w0, y < h0) is quantized (module
    Quantization, with norm 1 / bin_size^2) and deposits its two shares M0 and M1 in the histogram H.
    A deposit is a contribution: an orientation offset (a multiple of nb), a cell and a value; it
    lands at offset + x_cell * hb + y_cell. The model lists the contributions of every pixel in
    the order in which the source adds them, and states H as the initial H plus all of them.

    Hard binning (soft_bin off, or bin_size 1) gives both shares to the pixel's own cell.
    Soft binning spreads them bilinearly over the (up to) four cells whose centres surround the
    pixel: along each axis the position of pixel p in cell units is (p + 0.5) / bin_size - 0.5;
    its integer part is the lower neighbour (-1 before the first centre) and the fractional part
    the weight of the upper one. */
module Histogram {
  import opened Numeric
  import opened Grid
  import opened Quantization

  /** One `H[...] += v` of the source. */
  datatype Contrib = Contrib(off: int, cx: int, cy: int, v: real)

  /** Where a contribution lands in H. */
  function Target(g: Geometry, c: Contrib): int { c.off + CellIndex(g, c.cx, c.cy) }

  /** H after adding cs in order; a contribution outside H would be lost (none is, see
      PixelContribsPlaced). */
  function AddAll(g: Geometry, H: seq<real>, cs: seq<Contrib>): (r: seq<real>)
    ensures |r| == |H|
    decreases |cs|
  {
    if |cs| == 0 then H
    else
      var r := AddAll(g, H, cs[..|cs| - 1]);
      var c := cs[|cs| - 1];
      var t := Target(g, c);
      if 0 <= t < |r| then r[t := r[t] + c.v] else r
  }

  /** The sum of the values of the contributions that land at i. */
  function MassAt(g: Geometry, cs: seq<Contrib>, i: int): real
    decreases |cs|
  {
    if |cs| == 0 then 0.0
    else MassAt(g, cs[..|cs| - 1], i) + (if Target(g, cs[|cs| - 1]) == i then cs[|cs| - 1].v else 0.0)
  }

  /** The sum of all values. */
  function Total(cs: seq<Contrib>): real
    decreases |cs|
  {
    if |cs| == 0 then 0.0 else Total(cs[..|cs| - 1]) + cs[|cs| - 1].v
  }

  /** Every contribution lands inside a histogram of n entries. */
  predicate Fits(g: Geometry, cs: seq<Contrib>, n: int)
  {
    forall k :: 0 <= k < |cs| ==> 0 <= Target(g, cs[k]) < n
  }

  /** Entry i of the accumulated histogram is its initial value plus the contributions aimed at
      it, whatever their order. */
  lemma {:induction false} AddAllAt(g: Geometry, H: seq<real>, cs: seq<Contrib>, i: int)
    requires Fits(g, cs, |H|) && 0 <= i < |H|
    ensures AddAll(g, H, cs)[i] == H[i] + MassAt(g, cs, i)
    decreases |cs|
  {
    if |cs| > 0 {
      AddAllAt(g, H, cs[..|cs| - 1], i);
    }
  }

  /** Adding two lists is adding one after the other. */
  lemma {:induction false} AddAllAppend(g: Geometry, H: seq<real>, a: seq<Contrib>, b: seq<Contrib>)
    ensures AddAll(g, H, a + b) == AddAll(g, AddAll(g, H, a), b)
    decreases |b|
  {
    if |b| == 0 {
      assert a + b == a;
    } else {
      assert (a + b)[..|a + b| - 1] == a + b[..|b| - 1];
      AddAllAppend(g, H, a, b[..|b| - 1]);
    }
  }

  lemma {:induction false} TotalAppend(a: seq<Contrib>, b: seq<Contrib>)
    ensures Total(a + b) == Total(a) + Total(b)
    decreases |b|
  {
    if |b| == 0 {
      assert a + b == a;
    } else {
      assert (a + b)[..|a + b| - 1] == a + b[..|b| - 1];
      TotalAppend(a, b[..|b| - 1]);
    }
  }

  lemma {:induction false} FitsAppend(g: Geometry, a: seq<Contrib>, b: seq<Contrib>, n: int)
    requires Fits(g, a, n) && Fits(g, b, n)
    ensures Fits(g, a + b, n)
  {
  }

  /** With non-negative contributions no entry decreases: in particular a non-negative
      histogram stays non-negative. */
  lemma {:induction false} MassNonNeg(g: Geometry, cs: seq<Contrib>, i: int)
    requires forall k :: 0 <= k < |cs| ==> 0.0 <= cs[k].v
    ensures 0.0 <= MassAt(g, cs, i)
    decreases |cs|
  {
    if |cs| > 0 {
      MassNonNeg(g, cs[..|cs| - 1], i);
    }
  }

  /** The norm gradQuantize is given: 1 / bin_size^2. */
  function Norm(bs: Pos): real { 1.0 / (bs as real) / (bs as real) }

  /** Position of pixel p in cell units along one axis. */
  function CellPos(p: int, bs: Pos): real { (p as real + 0.5) / (bs as real) - 0.5 }

  /** The neighbours of a position along one axis: the lower cell lo (-1 before the first
      centre), the weight frac of the upper one, and which of the two exist. */
  datatype Split = Split(lo: int, frac: real, hasLo: bool, hasHi: bool)

  function AxisSplit(pos: real, cells: int): Split
  {
    var hasLo := pos >= 0.0;
    var lo := if hasLo then Trunc(pos) else -1;
    Split(lo, pos - lo as real, hasLo, lo < cells - 1)
  }

  /** The four bilinear weights of the source: lower-left, lower-right in y, upper in x, both
      upper. */
  datatype Shares = Shares(s0: real, s1: real, s2: real, s3: real)

  function SharesOf(xd: real, yd: real): (sh: Shares)
    ensures sh.s0 == (1.0 - xd) * (1.0 - yd) && sh.s1 == (1.0 - xd) * yd
    ensures sh.s2 == xd * (1.0 - yd) && sh.s3 == xd * yd
    ensures sh.s0 + sh.s1 + sh.s2 + sh.s3 == 1.0
  {
    var xyd := xd * yd;
    Shares(1.0 - xd - yd + xyd, yd - xyd, xd - xyd, xyd)
  }

  function Side(present: bool, cs: seq<Contrib>): seq<Contrib> { if present then cs else [] }

  /** Hard binning: both shares to the cell that holds the pixel. */
  function HardContribs(g: Geometry, q: QBin, x: int, y: int): seq<Contrib>
  {
    [Contrib(q.o0, x / g.binSize, y / g.binSize, q.m0), Contrib(q.o1, x / g.binSize, y / g.binSize, q.m1)]
  }

  /** Soft binning, in the order of the source's three row regimes: leading rows (no cell
      above), main rows (cells above and below) and trailing rows (no cell below). */
  function SoftContribs(g: Geometry, q: QBin, x: int, y: int): seq<Contrib>
  {
    SplitContribs(q, XSplit(g, x), YSplit(g, y))
  }

  /** The neighbouring cell columns of pixel column x, and the neighbouring cell rows of pixel
      row y. */
  function XSplit(g: Geometry, x: int): Split { AxisSplit(CellPos(x, g.binSize), g.Wb()) }
  function YSplit(g: Geometry, y: int): Split { AxisSplit(CellPos(y, g.binSize), g.Hb()) }

  /** The soft contributions of a pixel with splits xs and ys along the two axes. */
  function SplitContribs(q: QBin, xs: Split, ys: Split): seq<Contrib>
  {
    var sh := SharesOf(xs.frac, ys.frac);
    if !ys.hasLo then LeadContribs(q, xs, ys.lo, sh)
    else if ys.hasHi then MainContribs(q, xs, ys.lo, sh)
    else TrailContribs(q, xs, ys.lo, sh)
  }

  /** Both shares of the pixel, scaled by s, to cell (cx, cy): `H[O0 + c] += s * M0` and
      `H[O1 + c] += s * M1`. */
  function Both(q: QBin, cx: int, cy: int, s: real): seq<Contrib>
  {
    [Contrib(q.o0, cx, cy, s * q.m0), Contrib(q.o1, cx, cy, s * q.m1)]
  }

  /** Both shares to rows cy and cy + 1 of column cx, weighted sa and sb: the two stores of a
      main row, first the O0 plane, then the O1 plane. */
  function TwoRows(q: QBin, cx: int, cy: int, sa: real, sb: real): seq<Contrib>
  {
    Lanes(q.o0, cx, cy, sa, sb, q.m0) + Lanes(q.o1, cx, cy, sa, sb, q.m1)
  }

  /** One store of a main row: value v weighted sa into cell (cx, cy) and sb into the cell below,
      in plane off. */
  function Lanes(off: int, cx: int, cy: int, sa: real, sb: real, v: real): seq<Contrib>
  {
    [Contrib(off, cx, cy, sa * v), Contrib(off, cx, cy + 1, sb * v)]
  }

  /** A leading row: only the cells of the row T + 1 below the position (the first row). */
  function LeadContribs(q: QBin, xs: Split, T: int, sh: Shares): seq<Contrib>
  {
    Side(xs.hasLo, Both(q, xs.lo, T + 1, sh.s1)) + Side(xs.hasHi, Both(q, xs.lo + 1, T + 1, sh.s3))
  }

  /** A main row: rows T and T + 1 of each present column side. */
  function MainContribs(q: QBin, xs: Split, T: int, sh: Shares): seq<Contrib>
  {
    Side(xs.hasLo, TwoRows(q, xs.lo, T, sh.s0, sh.s1)) + Side(xs.hasHi, TwoRows(q, xs.lo + 1, T, sh.s2, sh.s3))
  }

  /** A trailing row: only row T (the last row). */
  function TrailContribs(q: QBin, xs: Split, T: int, sh: Shares): seq<Contrib>
  {
    Side(xs.hasLo, Both(q, xs.lo, T, sh.s0)) + Side(xs.hasHi, Both(q, xs.lo + 1, T, sh.s2))
  }

  /** The dispatch of gradHist: soft binning only when asked for and the cells are larger than
      one pixel. */
  function PixelContribs(g: Geometry, soft: bool, q: QBin, x: int, y: int): seq<Contrib>
  {
    if !soft || g.binSize == 1 then HardContribs(g, q, x, y) else SoftContribs(g, q, x, y)
  }

  /** Contributions of rows 0 .. n-1 of column x, given the column's quantized pixels. */
  function ColumnContribs(g: Geometry, soft: bool, qs: seq<QBin>, x: int, n: nat): seq<Contrib>
    requires n <= |qs|
  {
    if n == 0 then [] else ColumnContribs(g, soft, qs, x, n - 1) + PixelContribs(g, soft, qs[n - 1], x, n - 1)
  }

  /** The quantized pixels of the covered rows of column x. */
  function ColumnBins(g: Geometry, M: seq<real>, O: seq<real>, x: int): (qs: seq<QBin>)
    requires |M| == g.w * g.h && |O| == g.w * g.h && 0 <= x < g.W0()
    ensures |qs| == g.H0()
  {
    CoveredExtent(g);
    seq(g.H0(), y requires 0 <= y < g.H0() =>
      (PixelIn(g, x, y);
       Quantize(O[x * g.h + y], M[x * g.h + y], g.nOrients, g.Nb(), Norm(g.binSize))))
  }

  /** Contributions of columns 0 .. n-1 of the covered part of the image. */
  function ImageContribs(g: Geometry, soft: bool, M: seq<real>, O: seq<real>, n: nat): seq<Contrib>
    requires |M| == g.w * g.h && |O| == g.w * g.h && n <= g.W0()
  {
    if n == 0 then []
    else ImageContribs(g, soft, M, O, n - 1) + ColumnContribs(g, soft, ColumnBins(g, M, O, n - 1), n - 1, g.H0())
  }

  /** A covered pixel lies inside the image. */
  lemma PixelIn(g: Geometry, x: int, y: int)
    requires 0 <= x < g.W0() && 0 <= y < g.H0()
    ensures 0 <= x * g.h + y < g.w * g.h
  {
    CoveredExtent(g);
    PairBelow(x, y, g.w, g.h);
  }

  /** A position along an axis of `cells` cells lies strictly between -1/2 and cells - 1/2. */
  lemma PosRange(p: int, bs: Pos, cells: int)
    requires 0 <= p < cells * bs
    ensures -0.5 < CellPos(p, bs) < cells as real - 0.5
  {
    var s := bs as real;
    var r := (p as real + 0.5) / s;
    assert r * s == p as real + 0.5;
    assert (cells * bs) as real == cells as real * s;
    if r >= cells as real {
      assert r * s >= cells as real * s;
    }
  }

  /** A split along an axis of `cells` cells: a weight in [0, 1), a lower neighbour from -1 to
      cells - 1, and existence flags that say whether the lower and the upper cells are in the
      grid. */
  predicate SplitIn(sp: Split, cells: int)
  {
    0.0 <= sp.frac < 1.0 && -1 <= sp.lo < cells &&
    (sp.hasLo <==> 0 <= sp.lo) && (sp.hasHi <==> sp.lo + 1 < cells)
  }

  /** The split of every covered pixel is such a split, and lower neighbour plus weight give back
      the pixel's position. */
  lemma SplitFacts(p: int, bs: Pos, cells: int)
    requires 0 <= p < cells * bs
    ensures var sp := AxisSplit(CellPos(p, bs), cells);
      SplitIn(sp, cells) && sp.lo as real + sp.frac == CellPos(p, bs)
  {
    PosRange(p, bs, cells);
  }

  /** The weight both neighbours of a split carry together: 1 inside the grid, less at its
      borders. */
  function AxisWeight(sp: Split): (r: real)
    ensures sp.hasLo && sp.hasHi ==> r == 1.0
    ensures 0.0 <= sp.frac <= 1.0 ==> 0.0 <= r <= 1.0
  {
    Present(sp, 1.0 - sp.frac, sp.frac)
  }

  /** A contribution inside the grid: a whole orientation plane and a cell. */
  predicate Placed(g: Geometry, c: Contrib)
  {
    0 <= c.cx < g.Wb() && 0 <= c.cy < g.Hb() && 0 <= c.off < g.HistLength() && c.off % g.Nb() == 0
  }

  /** A quantized pixel whose two offsets are whole planes of H. */
  predicate BinOk(g: Geometry, q: QBin)
  {
    0 <= q.o0 < g.HistLength() && q.o0 % g.Nb() == 0 && 0 <= q.o1 < g.HistLength() && q.o1 % g.Nb() == 0
  }

  lemma PlacedFits(g: Geometry, c: Contrib)
    requires Placed(g, c)
    ensures 0 <= Target(g, c) < g.HistLength()
  {
    var o := c.off / g.Nb();
    assert c.off == o * g.Nb();
    if o >= g.nOrients {
      MulMono(o, g.nOrients, g.Nb());
    }
    HistIndexDecomp(g, o, c.cx, c.cy);
  }

  /** All contributions of a list are placed. */
  predicate AllPlaced(g: Geometry, cs: seq<Contrib>)
  {
    forall k :: 0 <= k < |cs| ==> Placed(g, cs[k])
  }

  lemma PlacedAppend(g: Geometry, a: seq<Contrib>, b: seq<Contrib>)
    requires AllPlaced(g, a) && AllPlaced(g, b)
    ensures AllPlaced(g, a + b)
  {
    forall k | 0 <= k < |a + b| ensures Placed(g, (a + b)[k]) {
      if k >= |a| {
        assert (a + b)[k] == b[k - |a|];
      }
    }
  }

  lemma AllPlacedFits(g: Geometry, cs: seq<Contrib>)
    requires AllPlaced(g, cs)
    ensures Fits(g, cs, g.HistLength())
  {
    forall k | 0 <= k < |cs| ensures 0 <= Target(g, cs[k]) < g.HistLength() {
      PlacedFits(g, cs[k]);
    }
  }

  /** Both shares of a quantized pixel whose bins are planes of H, to a cell of the grid. */
  lemma BothPlaced(g: Geometry, q: QBin, cx: int, cy: int, s: real)
    requires BinOk(g, q) && 0 <= cx < g.Wb() && 0 <= cy < g.Hb()
    ensures AllPlaced(g, Both(q, cx, cy, s))
  {
  }

  lemma TwoRowsPlaced(g: Geometry, q: QBin, cx: int, cy: int, sa: real, sb: real)
    requires BinOk(g, q) && 0 <= cx < g.Wb() && 0 <= cy && cy + 1 < g.Hb()
    ensures AllPlaced(g, TwoRows(q, cx, cy, sa, sb))
  {
    PlacedAppend(g, Lanes(q.o0, cx, cy, sa, sb, q.m0), Lanes(q.o1, cx, cy, sa, sb, q.m1));
  }

  /** A main-row store as the four-lane path writes it: one four-float load, add and store at
      the pair's first cell, whose lanes 2 and 3 carry weight 0 and fall on the two cells after
      the pair. */
  function SseStore(off: int, cx: int, cy: int, sa: real, sb: real, v: real): (cs: seq<Contrib>)
    ensures |cs| == 4 && cs[..2] == Lanes(off, cx, cy, sa, sb, v)
    ensures forall k :: 2 <= k < 4 ==> cs[k] == Contrib(off, cx, cy + k, 0.0)
  {
    Lanes(off, cx, cy, sa, sb, v) + [Contrib(off, cx, cy + 2, 0.0 * v), Contrib(off, cx, cy + 3, 0.0 * v)]
  }

  /** On a 16 x 16 image with bin size 8 and 9 orientations (H has 2 * 2 * 9 = 36 entries),
      pixel (12, 4) with orientation 3.1 is a main row with a left cell column. Its first pair
      is placed inside H, but the four-lane store of that pair in the last orientation plane
      touches H[34] .. H[37]. */
  lemma SseStoreOverruns()
    ensures var g := Geometry(16, 16, 8, 9);
      var q := Quantize(3.1, 1.0, 9, g.Nb(), Norm(8));
      var xs := XSplit(g, 12);
      var ys := YSplit(g, 4);
      var sh := SharesOf(xs.frac, ys.frac);
      g.HistLength() == 36 && BinOk(g, q) && xs.hasLo && ys.hasLo && ys.hasHi &&
      SplitContribs(q, xs, ys)[..2] == Lanes(q.o0, xs.lo, ys.lo, sh.s0, sh.s1, q.m0) &&
      AllPlaced(g, Lanes(q.o0, xs.lo, ys.lo, sh.s0, sh.s1, q.m0)) &&
      Target(g, SseStore(q.o0, xs.lo, ys.lo, sh.s0, sh.s1, q.m0)[3]) == 37
  {
    var g := Geometry(16, 16, 8, 9);
    assert g.Hb() == 2 && g.Wb() == 2 && g.Nb() == 4 && g.HistLength() == 36;
    assert 3.1 * (9.0 / Pi) >= 8.0;
    assert 3.1 * (9.0 / Pi) < 9.0;
    var q := Quantize(3.1, 1.0, 9, g.Nb(), Norm(8));
    assert q.o0 == 32 && q.o1 == 0;
    assert CellPos(12, 8) == 1.0625 && CellPos(4, 8) == 0.0625;
    var xs := XSplit(g, 12);
    var ys := YSplit(g, 4);
    assert xs.lo == 1 && xs.hasLo && !xs.hasHi;
    assert ys.lo == 0 && ys.hasLo && ys.hasHi;
    var sh := SharesOf(xs.frac, ys.frac);
    assert SplitContribs(q, xs, ys) == MainContribs(q, xs, ys.lo, sh);
    assert MainContribs(q, xs, ys.lo, sh) == TwoRows(q, xs.lo, ys.lo, sh.s0, sh.s1);
    TwoRowsPlaced(g, q, xs.lo, ys.lo, sh.s0, sh.s1);
    PlacedAppend(g, Lanes(q.o0, xs.lo, ys.lo, sh.s0, sh.s1, q.m0), Lanes(q.o1, xs.lo, ys.lo, sh.s0, sh.s1, q.m1));
  }

  /** Soft binning only reaches cells of the grid: each side is written only when its cell
      column exists, and each row regime only writes the rows that exist. */
  lemma SplitPlaced(g: Geometry, q: QBin, xs: Split, ys: Split)
    requires BinOk(g, q) && SplitIn(xs, g.Wb()) && SplitIn(ys, g.Hb()) && (ys.hasLo || ys.hasHi)
    ensures AllPlaced(g, SplitContribs(q, xs, ys))
  {
    var sh := SharesOf(xs.frac, ys.frac);
    var L, T := xs.lo, ys.lo;
    var a, b;
    if !ys.hasLo {
      a, b := Both(q, L, T + 1, sh.s1), Both(q, L + 1, T + 1, sh.s3);
      if xs.hasLo { BothPlaced(g, q, L, T + 1, sh.s1); }
      if xs.hasHi { BothPlaced(g, q, L + 1, T + 1, sh.s3); }
    } else if ys.hasHi {
      a, b := TwoRows(q, L, T, sh.s0, sh.s1), TwoRows(q, L + 1, T, sh.s2, sh.s3);
      if xs.hasLo { TwoRowsPlaced(g, q, L, T, sh.s0, sh.s1); }
      if xs.hasHi { TwoRowsPlaced(g, q, L + 1, T, sh.s2, sh.s3); }
    } else {
      a, b := Both(q, L, T, sh.s0), Both(q, L + 1, T, sh.s2);
      if xs.hasLo { BothPlaced(g, q, L, T, sh.s0); }
      if xs.hasHi { BothPlaced(g, q, L + 1, T, sh.s2); }
    }
    assert SplitContribs(q, xs, ys) == Side(xs.hasLo, a) + Side(xs.hasHi, b);
    PlacedAppend(g, Side(xs.hasLo, a), Side(xs.hasHi, b));
  }

  /** Every contribution of a covered pixel whose orientation bins are planes of H lands in a
      cell of the grid, and so inside H. */
  lemma PixelContribsPlaced(g: Geometry, soft: bool, q: QBin, x: int, y: int)
    requires 0 <= x < g.W0() && 0 <= y < g.H0() && BinOk(g, q)
    ensures AllPlaced(g, PixelContribs(g, soft, q, x, y))
    ensures Fits(g, PixelContribs(g, soft, q, x, y), g.HistLength())
  {
    if !soft || g.binSize == 1 {
      CellOfPixel(g, x, y);
    } else {
      SplitFacts(x, g.binSize, g.Wb());
      SplitFacts(y, g.binSize, g.Hb());
      SplitPlaced(g, q, XSplit(g, x), YSplit(g, y));
    }
    AllPlacedFits(g, PixelContribs(g, soft, q, x, y));
  }

  /** The cell that holds a covered pixel is a cell of the grid. */
  lemma CellOfPixel(g: Geometry, x: int, y: int)
    requires 0 <= x < g.W0() && 0 <= y < g.H0()
    ensures 0 <= x / g.binSize < g.Wb() && 0 <= y / g.binSize < g.Hb()
  {
    if x / g.binSize >= g.Wb() {
      MulMono(x / g.binSize, g.Wb(), g.binSize);
    }
    if y / g.binSize >= g.Hb() {
      MulMono(y / g.binSize, g.Hb(), g.binSize);
    }
  }

  lemma Total1(a: Contrib)
    ensures Total([a]) == a.v
  {
    assert [a][..0] == [];
  }

  lemma Total2(a: Contrib, b: Contrib)
    ensures Total([a, b]) == a.v + b.v
  {
    assert [a, b][..1] == [a];
    Total1(a);
  }

  lemma Total4(a: Contrib, b: Contrib, c: Contrib, d: Contrib)
    ensures Total([a, b, c, d]) == a.v + b.v + c.v + d.v
  {
    TotalAppend([a, b], [c, d]);
    assert [a, b] + [c, d] == [a, b, c, d];
    Total2(a, b);
    Total2(c, d);
  }

  /** What the present sides of a split carry, each with its own weight. */
  function Present(xs: Split, lo: real, hi: real): real
  {
    (if xs.hasLo then lo else 0.0) + (if xs.hasHi then hi else 0.0)
  }

  /** Only the present sides of a split contribute. */
  lemma SidesTotal(xs: Split, a: seq<Contrib>, b: seq<Contrib>)
    ensures Total(Side(xs.hasLo, a) + Side(xs.hasHi, b)) == Present(xs, Total(a), Total(b))
  {
    TotalAppend(Side(xs.hasLo, a), Side(xs.hasHi, b));
  }

  lemma BothTotal(q: QBin, cx: int, cy: int, s: real)
    ensures Total(Both(q, cx, cy, s)) == s * (q.m0 + q.m1)
  {
    Total2(Both(q, cx, cy, s)[0], Both(q, cx, cy, s)[1]);
  }

  lemma TwoRowsTotal(q: QBin, cx: int, cy: int, sa: real, sb: real)
    ensures Total(TwoRows(q, cx, cy, sa, sb)) == (sa + sb) * (q.m0 + q.m1)
  {
    var a, b := Lanes(q.o0, cx, cy, sa, sb, q.m0), Lanes(q.o1, cx, cy, sa, sb, q.m1);
    TotalAppend(a, b);
    Total2(a[0], a[1]);
    Total2(b[0], b[1]);
    assert sa * q.m0 + sb * q.m0 + (sa * q.m1 + sb * q.m1) == (sa + sb) * (q.m0 + q.m1);
  }

  lemma PresentScaled(xs: Split, lo: real, hi: real, m: real)
    ensures Present(xs, lo * m, hi * m) == Present(xs, lo, hi) * m
  {
  }

  /** A leading row carries the shares s1 and s3 of the present sides. */
  lemma LeadMass(q: QBin, xs: Split, T: int, sh: Shares)
    ensures Total(LeadContribs(q, xs, T, sh)) == Present(xs, sh.s1, sh.s3) * (q.m0 + q.m1)
  {
    var m := q.m0 + q.m1;
    var A, B := Both(q, xs.lo, T + 1, sh.s1), Both(q, xs.lo + 1, T + 1, sh.s3);
    assert Total(A) == sh.s1 * m by { BothTotal(q, xs.lo, T + 1, sh.s1); }
    assert Total(B) == sh.s3 * m by { BothTotal(q, xs.lo + 1, T + 1, sh.s3); }
    SidesTotal(xs, A, B);
    PresentScaled(xs, sh.s1, sh.s3, m);
  }

  /** A main row carries all four shares of the present sides. */
  lemma MainMass(q: QBin, xs: Split, T: int, sh: Shares)
    ensures Total(MainContribs(q, xs, T, sh)) == Present(xs, sh.s0 + sh.s1, sh.s2 + sh.s3) * (q.m0 + q.m1)
  {
    var lo, hi, m := sh.s0 + sh.s1, sh.s2 + sh.s3, q.m0 + q.m1;
    var A, B := TwoRows(q, xs.lo, T, sh.s0, sh.s1), TwoRows(q, xs.lo + 1, T, sh.s2, sh.s3);
    assert Total(A) == lo * m by { TwoRowsTotal(q, xs.lo, T, sh.s0, sh.s1); }
    assert Total(B) == hi * m by { TwoRowsTotal(q, xs.lo + 1, T, sh.s2, sh.s3); }
    SidesTotal(xs, A, B);
    PresentScaled(xs, lo, hi, m);
  }

  /** A trailing row carries the shares s0 and s2 of the present sides. */
  lemma TrailMass(q: QBin, xs: Split, T: int, sh: Shares)
    ensures Total(TrailContribs(q, xs, T, sh)) == Present(xs, sh.s0, sh.s2) * (q.m0 + q.m1)
  {
    var m := q.m0 + q.m1;
    var A, B := Both(q, xs.lo, T, sh.s0), Both(q, xs.lo + 1, T, sh.s2);
    assert Total(A) == sh.s0 * m by { BothTotal(q, xs.lo, T, sh.s0); }
    assert Total(B) == sh.s2 * m by { BothTotal(q, xs.lo + 1, T, sh.s2); }
    SidesTotal(xs, A, B);
    PresentScaled(xs, sh.s0, sh.s2, m);
  }

  /** Soft binning deposits the pixel's two shares times the weight of the neighbours present
      along x times that along y: all of it for a pixel whose four neighbours exist, less at
      the borders of the grid. Every covered row has a neighbour (SplitFacts), as required. */
  lemma RowMass(q: QBin, xs: Split, ys: Split)
    requires ys.hasLo || ys.hasHi
    ensures Total(SplitContribs(q, xs, ys)) == (q.m0 + q.m1) * AxisWeight(xs) * AxisWeight(ys)
  {
    if !ys.hasLo {
      LeadRowMass(q, xs, ys);
    } else if ys.hasHi {
      MainRowMass(q, xs, ys);
    } else {
      TrailRowMass(q, xs, ys);
    }
  }

  lemma LeadRowMass(q: QBin, xs: Split, ys: Split)
    requires !ys.hasLo && ys.hasHi
    ensures Total(LeadContribs(q, xs, ys.lo, SharesOf(xs.frac, ys.frac))) ==
      (q.m0 + q.m1) * AxisWeight(xs) * AxisWeight(ys)
  {
    var xd, yd, m := xs.frac, ys.frac, q.m0 + q.m1;
    var sh := SharesOf(xd, yd);
    var W := AxisWeight(xs);
    assert Present(xs, sh.s1, sh.s3) == W * yd by { PresentScaled(xs, 1.0 - xd, xd, yd); }
    LeadMass(q, xs, ys.lo, sh);
    Reorder(W, yd, m);
  }

  lemma MainRowMass(q: QBin, xs: Split, ys: Split)
    requires ys.hasLo && ys.hasHi
    ensures Total(MainContribs(q, xs, ys.lo, SharesOf(xs.frac, ys.frac))) ==
      (q.m0 + q.m1) * AxisWeight(xs) * AxisWeight(ys)
  {
    var xd, yd, m := xs.frac, ys.frac, q.m0 + q.m1;
    var sh := SharesOf(xd, yd);
    assert sh.s0 + sh.s1 == 1.0 - xd && sh.s2 + sh.s3 == xd by { RowShares(xd, yd); }
    MainMass(q, xs, ys.lo, sh);
    Reorder(AxisWeight(xs), 1.0, m);
  }

  lemma TrailRowMass(q: QBin, xs: Split, ys: Split)
    requires ys.hasLo && !ys.hasHi
    ensures Total(TrailContribs(q, xs, ys.lo, SharesOf(xs.frac, ys.frac))) ==
      (q.m0 + q.m1) * AxisWeight(xs) * AxisWeight(ys)
  {
    var xd, yd, m := xs.frac, ys.frac, q.m0 + q.m1;
    var sh := SharesOf(xd, yd);
    var W := AxisWeight(xs);
    assert Present(xs, sh.s0, sh.s2) == W * (1.0 - yd) by { PresentScaled(xs, 1.0 - xd, xd, 1.0 - yd); }
    TrailMass(q, xs, ys.lo, sh);
    Reorder(W, 1.0 - yd, m);
  }

  /** The two shares of one column side add up to its x weight. */
  lemma RowShares(xd: real, yd: real)
    ensures SharesOf(xd, yd).s0 + SharesOf(xd, yd).s1 == 1.0 - xd
    ensures SharesOf(xd, yd).s2 + SharesOf(xd, yd).s3 == xd
  {
  }

  lemma Reorder(a: real, b: real, m: real)
    ensures (a * b) * m == m * a * b
  {
  }

  /** The source's running position: it starts at (0 + 0.5) / bin_size - 0.5 and grows by
      1 / bin_size per pixel. */
  lemma PosStart(bs: Pos)
    ensures CellPos(0, bs) == 0.5 * (1.0 / bs as real) - 0.5
  {
  }

  lemma PosStep(p: int, bs: Pos)
    ensures CellPos(p + 1, bs) == CellPos(p, bs) + 1.0 / bs as real
    ensures CellPos(p, bs) < CellPos(p + 1, bs)
  {
    var s := bs as real;
    assert (p as real + 1.5) / s == (p as real + 0.5) / s + 1.0 / s;
  }

  lemma PosMono(p: int, p': int, bs: Pos)
    requires p <= p'
    ensures CellPos(p, bs) <= CellPos(p', bs)
  {
    var s := bs as real;
    assert (p' as real + 0.5) / s - (p as real + 0.5) / s == (p' - p) as real / s;
  }

  /** A pixel lies before the first cell centre exactly when it is one of the first
      bin_size / 2 (integer division) of its axis: the leading rows of the source. */
  lemma LeadingIff(p: int, bs: Pos)
    requires 0 <= p
    ensures CellPos(p, bs) < 0.0 <==> p < bs / 2
  {
    var s := bs as real;
    var k := bs / 2;
    DivModUnique(bs, 2, k, bs % 2);
    assert CellPos(p, bs) < 0.0 <==> p as real + 0.5 < 0.5 * s by {
      assert CellPos(p, bs) * s == p as real + 0.5 - 0.5 * s;
    }
  }

  /** The leading rows y < bin_size / 2 of a soft-binned column add to the first cell row only. */
  lemma LeadingRowsFirstRow(g: Geometry, q: QBin, x: int, y: int)
    requires 0 <= y < g.binSize / 2
    ensures var cs := SoftContribs(g, q, x, y);
      forall k :: 0 <= k < |cs| ==> cs[k].cy == 0
  {
    LeadingIff(y, g.binSize);
    assert !YSplit(g, y).hasLo;
  }

  /** A soft-binned pixel adds to the cell column left of it only when it lies past that
      column's centre (xb >= 0), and to the one right of it only when that column exists
      (xb0 < wb - 1). */
  lemma SoftColumns(g: Geometry, q: QBin, x: int, y: int)
    ensures var xs := XSplit(g, x); var cs := SoftContribs(g, q, x, y);
      forall k :: 0 <= k < |cs| ==>
        (cs[k].cx == xs.lo && CellPos(x, g.binSize) >= 0.0) || (cs[k].cx == xs.lo + 1 && xs.lo < g.Wb() - 1)
  {
  }

  /** The last pixel of the covered rows lies past the centre of the last cell row. */
  lemma LastPastCentre(cells: int, bs: Pos)
    requires cells >= 1
    ensures CellPos(cells * bs - 1, bs) >= (cells - 1) as real
  {
    var s := bs as real;
    assert (cells * bs - 1) as real + 0.5 == cells as real * s - 0.5;
    assert (cells as real * s - 0.5) / s == cells as real - 0.5 / s;
    assert 0.5 / s <= 0.5;
  }
}
