/** gradHist as the source runs it: column by column over the covered pixels, quantizing the
    column into four buffers (O0, O1, M0, M1), then adding each pixel's shares to H, with hard or
    soft binning. Every `H[i] += v` is a Deposit; the ghost list of the contributions deposited
    so far ties the state of H to the specification functions of module Histogram. */
module Binning {
  import opened Numeric
  import opened Grid
  import opened Quantization
  import opened Histogram

  /** One `H[i] += v` of the source, together with the contribution it stands for. */
  method Deposit(H: array<real>, i: int, v: real, ghost g: Geometry, ghost base: seq<real>,
                 ghost cs: seq<Contrib>, ghost c: Contrib)
    requires H[..] == AddAll(g, base, cs) && i == Target(g, c) && v == c.v && 0 <= i < H.Length
    modifies H
    ensures H[..] == AddAll(g, base, cs + [c])
  {
    assert (cs + [c])[..|cs|] == cs;
    H[i] := H[i] + v;
  }

  /** The four column buffers hold the quantized pixels qs. */
  predicate Holds(O0: array<int>, O1: array<int>, M0: array<real>, M1: array<real>, qs: seq<QBin>)
    reads O0, O1, M0, M1
  {
    |qs| <= O0.Length && |qs| <= O1.Length && |qs| <= M0.Length && |qs| <= M1.Length &&
    forall y :: 0 <= y < |qs| ==> O0[y] == qs[y].o0 && O1[y] == qs[y].o1 && M0[y] == qs[y].m0 && M1[y] == qs[y].m1
  }

  /** The contributions of one more pixel of the column follow those of the pixels above it. */
  lemma ColumnStep(g: Geometry, soft: bool, qs: seq<QBin>, x: int, y: nat, pre: seq<Contrib>)
    requires y < |qs|
    ensures pre + ColumnContribs(g, soft, qs, x, y + 1) ==
      (pre + ColumnContribs(g, soft, qs, x, y)) + PixelContribs(g, soft, qs[y], x, y)
  {
  }

  /** Only the present sides of a split must fit. */
  lemma SidesFit(g: Geometry, xs: Split, a: seq<Contrib>, b: seq<Contrib>, n: int)
    requires Fits(g, Side(xs.hasLo, a) + Side(xs.hasHi, b), n)
    ensures xs.hasLo ==> Fits(g, a, n)
    ensures xs.hasHi ==> Fits(g, b, n)
  {
    var s := Side(xs.hasLo, a) + Side(xs.hasHi, b);
    if xs.hasLo {
      forall k | 0 <= k < |a| ensures 0 <= Target(g, a[k]) < n {
        assert s[k] == a[k];
      }
    }
    if xs.hasHi {
      forall k | 0 <= k < |b| ensures 0 <= Target(g, b[k]) < n {
        assert s[|Side(xs.hasLo, a)| + k] == b[k];
      }
    }
  }

  /** `H1[O0[y]] += s * M0[y]; H1[O1[y]] += s * M1[y]` with H1 at cell (cx, cy). */
  method StoreBoth(H: array<real>, h1: int, q: QBin, s: real, ghost g: Geometry, ghost cx: int, ghost cy: int,
                   ghost base: seq<real>, ghost cs: seq<Contrib>)
    requires h1 == CellIndex(g, cx, cy) && Fits(g, Both(q, cx, cy, s), H.Length)
    requires H[..] == AddAll(g, base, cs)
    modifies H
    ensures H[..] == AddAll(g, base, cs + Both(q, cx, cy, s))
  {
    var c := Both(q, cx, cy, s);
    Deposit(H, h1 + q.o0, s * q.m0, g, base, cs, c[0]);
    Deposit(H, h1 + q.o1, s * q.m1, g, base, cs + [c[0]], c[1]);
    assert cs + [c[0]] + [c[1]] == cs + c;
  }

  /** One store of a main row, `H1[0] += sa * v; H1[1] += sb * v` at H1 = h1 + off: the two
      lanes that carry weights (the other two add 0, see the findings). */
  method StorePair(H: array<real>, h1: int, off: int, sa: real, sb: real, v: real, ghost g: Geometry,
                   ghost cx: int, ghost cy: int, ghost base: seq<real>, ghost cs: seq<Contrib>)
    requires h1 == CellIndex(g, cx, cy) && Fits(g, Lanes(off, cx, cy, sa, sb, v), H.Length)
    requires H[..] == AddAll(g, base, cs)
    modifies H
    ensures H[..] == AddAll(g, base, cs + Lanes(off, cx, cy, sa, sb, v))
  {
    var c := Lanes(off, cx, cy, sa, sb, v);
    Deposit(H, h1 + off, sa * v, g, base, cs, c[0]);
    Deposit(H, h1 + off + 1, sb * v, g, base, cs + [c[0]], c[1]);
    assert cs + [c[0]] + [c[1]] == cs + c;
  }

  lemma FitsParts(g: Geometry, a: seq<Contrib>, b: seq<Contrib>, n: int)
    requires Fits(g, a + b, n)
    ensures Fits(g, a, n) && Fits(g, b, n)
  {
    forall k | 0 <= k < |a| ensures 0 <= Target(g, a[k]) < n {
      assert (a + b)[k] == a[k];
    }
    forall k | 0 <= k < |b| ensures 0 <= Target(g, b[k]) < n {
      assert (a + b)[|a| + k] == b[k];
    }
  }

  lemma NextCell(g: Geometry, L: int, T: int)
    ensures CellIndex(g, L + 1, T) == CellIndex(g, L, T) + g.Hb()
    ensures CellIndex(g, L, T + 1) == CellIndex(g, L, T) + 1
  {
  }

  /** A leading row: only the cells below, `H0[O + 1]` on the left and `H0[O + hb + 1]` on the
      right, with H0 = xb0 * hb + yb0. */
  method LeadRow(H: array<real>, q: QBin, xs: Split, T: int, sh: Shares, g: Geometry,
                 ghost base: seq<real>, ghost cs: seq<Contrib>)
    requires Fits(g, LeadContribs(q, xs, T, sh), H.Length) && H[..] == AddAll(g, base, cs)
    modifies H
    ensures H[..] == AddAll(g, base, cs + LeadContribs(q, xs, T, sh))
  {
    var hb := g.Hb();
    var h0 := xs.lo * hb + T;
    ghost var a, b := Both(q, xs.lo, T + 1, sh.s1), Both(q, xs.lo + 1, T + 1, sh.s3);
    SidesFit(g, xs, a, b, H.Length);
    NextCell(g, xs.lo, T);
    NextCell(g, xs.lo, T + 1);
    ghost var mid := cs + Side(xs.hasLo, a);
    if xs.hasLo {
      StoreBoth(H, h0 + 1, q, sh.s1, g, xs.lo, T + 1, base, cs);
    } else {
      assert mid == cs;
    }
    if xs.hasHi {
      StoreBoth(H, h0 + hb + 1, q, sh.s3, g, xs.lo + 1, T + 1, base, mid);
    } else {
      assert mid + Side(xs.hasHi, b) == mid;
    }
    assert cs + LeadContribs(q, xs, T, sh) == mid + Side(xs.hasHi, b);
  }

  /** One side of a main row: the stores at O0 and at O1 into cell (cx, T) and the cell below. */
  method StoreTwoRows(H: array<real>, h1: int, q: QBin, sa: real, sb: real, ghost g: Geometry,
                      ghost cx: int, ghost T: int, ghost base: seq<real>, ghost cs: seq<Contrib>)
    requires h1 == CellIndex(g, cx, T) && Fits(g, TwoRows(q, cx, T, sa, sb), H.Length)
    requires H[..] == AddAll(g, base, cs)
    modifies H
    ensures H[..] == AddAll(g, base, cs + TwoRows(q, cx, T, sa, sb))
  {
    ghost var a0, a1 := Lanes(q.o0, cx, T, sa, sb, q.m0), Lanes(q.o1, cx, T, sa, sb, q.m1);
    FitsParts(g, a0, a1, H.Length);
    StorePair(H, h1, q.o0, sa, sb, q.m0, g, cx, T, base, cs);
    StorePair(H, h1, q.o1, sa, sb, q.m1, g, cx, T, base, cs + a0);
    assert cs + a0 + a1 == cs + TwoRows(q, cx, T, sa, sb);
  }

  /** A main row: on each present side one store at O0 and one at O1, each into rows T and
      T + 1. */
  method MainRow(H: array<real>, q: QBin, xs: Split, T: int, sh: Shares, g: Geometry,
                 ghost base: seq<real>, ghost cs: seq<Contrib>)
    requires Fits(g, MainContribs(q, xs, T, sh), H.Length) && H[..] == AddAll(g, base, cs)
    modifies H
    ensures H[..] == AddAll(g, base, cs + MainContribs(q, xs, T, sh))
  {
    var hb := g.Hb();
    var h0 := xs.lo * hb + T;
    ghost var a, b := TwoRows(q, xs.lo, T, sh.s0, sh.s1), TwoRows(q, xs.lo + 1, T, sh.s2, sh.s3);
    SidesFit(g, xs, a, b, H.Length);
    NextCell(g, xs.lo, T);
    ghost var mid := cs + Side(xs.hasLo, a);
    if xs.hasLo {
      StoreTwoRows(H, h0, q, sh.s0, sh.s1, g, xs.lo, T, base, cs);
    } else {
      assert mid == cs;
    }
    if xs.hasHi {
      StoreTwoRows(H, h0 + hb, q, sh.s2, sh.s3, g, xs.lo + 1, T, base, mid);
    } else {
      assert mid + Side(xs.hasHi, b) == mid;
    }
    assert cs + MainContribs(q, xs, T, sh) == mid + Side(xs.hasHi, b);
  }

  /** A trailing row: only the cells above, `H0[O]` on the left and `H0[O + hb]` on the right. */
  method TrailRow(H: array<real>, q: QBin, xs: Split, T: int, sh: Shares, g: Geometry,
                  ghost base: seq<real>, ghost cs: seq<Contrib>)
    requires Fits(g, TrailContribs(q, xs, T, sh), H.Length) && H[..] == AddAll(g, base, cs)
    modifies H
    ensures H[..] == AddAll(g, base, cs + TrailContribs(q, xs, T, sh))
  {
    var hb := g.Hb();
    var h0 := xs.lo * hb + T;
    ghost var a, b := Both(q, xs.lo, T, sh.s0), Both(q, xs.lo + 1, T, sh.s2);
    SidesFit(g, xs, a, b, H.Length);
    NextCell(g, xs.lo, T);
    ghost var mid := cs + Side(xs.hasLo, a);
    if xs.hasLo {
      StoreBoth(H, h0, q, sh.s0, g, xs.lo, T, base, cs);
    } else {
      assert mid == cs;
    }
    if xs.hasHi {
      StoreBoth(H, h0 + hb, q, sh.s2, g, xs.lo + 1, T, base, mid);
    } else {
      assert mid + Side(xs.hasHi, b) == mid;
    }
    assert cs + TrailContribs(q, xs, T, sh) == mid + Side(xs.hasHi, b);
  }

  /** Hard binning of column x (`!soft_bin || bin_size == 1`): H1 starts at the first cell of
      cell column x / bin_size and moves one cell down after every bin_size pixels; each pixel
      adds M0 at H1[O0] and M1 at H1[O1]. (The source unrolls the inner loop for bin sizes 1 to
      4; every variant runs the same steps.) */
  method HardColumn(H: array<real>, g: Geometry, soft: bool, x: int,
                    O0: array<int>, O1: array<int>, M0: array<real>, M1: array<real>,
                    ghost qs: seq<QBin>, ghost base: seq<real>, ghost pre: seq<Contrib>)
    requires !soft || g.binSize == 1
    requires 0 <= x < g.W0() && |qs| == g.H0() && H != M0 && H != M1
    requires Holds(O0, O1, M0, M1, qs) && forall y :: 0 <= y < |qs| ==> BinOk(g, qs[y])
    requires H.Length == g.HistLength() && H[..] == AddAll(g, base, pre)
    modifies H
    ensures H[..] == AddAll(g, base, pre + ColumnContribs(g, soft, qs, x, g.H0()))
  {
    var bs, hb := g.binSize, g.Hb();
    var y, cy := 0, 0;
    assert pre + ColumnContribs(g, soft, qs, x, 0) == pre;
    while y < g.H0()
      invariant 0 <= cy <= hb && y == cy * bs && y <= g.H0()
      invariant H[..] == AddAll(g, base, pre + ColumnContribs(g, soft, qs, x, y))
    {
      ghost var start := y;
      BlockBelow(cy, hb, bs);
      var h1 := (x / bs) * hb + cy;
      for y1 := 0 to bs
        invariant y == start + y1
        invariant H[..] == AddAll(g, base, pre + ColumnContribs(g, soft, qs, x, y))
      {
        assert y / bs == cy by { DivModUnique(y, bs, cy, y1); }
        HardPixel(H, g, soft, x, y, h1, O0[y], O1[y], M0[y], M1[y], qs, base, pre);
        y := y + 1;
      }
      cy := cy + 1;
    }
  }

  /** The GH step of hard binning for pixel y, with H1 at offset h1. */
  method HardPixel(H: array<real>, g: Geometry, soft: bool, x: int, y: int, h1: int,
                   o0: int, o1: int, m0: real, m1: real,
                   ghost qs: seq<QBin>, ghost base: seq<real>, ghost pre: seq<Contrib>)
    requires !soft || g.binSize == 1
    requires 0 <= x < g.W0() && 0 <= y < g.H0() && |qs| == g.H0()
    requires qs[y] == QBin(o0, o1, m0, m1) && BinOk(g, qs[y])
    requires h1 == CellIndex(g, x / g.binSize, y / g.binSize)
    requires H.Length == g.HistLength() && H[..] == AddAll(g, base, pre + ColumnContribs(g, soft, qs, x, y))
    modifies H
    ensures H[..] == AddAll(g, base, pre + ColumnContribs(g, soft, qs, x, y + 1))
  {
    ghost var cs := pre + ColumnContribs(g, soft, qs, x, y);
    PixelContribsPlaced(g, soft, qs[y], x, y);
    ColumnStep(g, soft, qs, x, y, pre);
    ghost var c := HardContribs(g, qs[y], x, y);
    Deposit(H, h1 + o0, m0, g, base, cs, c[0]);
    Deposit(H, h1 + o1, m1, g, base, cs + [c[0]], c[1]);
    assert cs + [c[0]] + [c[1]] == cs + c;
  }

  /** The contributions of pixel y of column x under soft binning are those of its two splits,
      and they fit in H. */
  lemma SoftStep(g: Geometry, soft: bool, qs: seq<QBin>, x: int, y: nat, pre: seq<Contrib>, ys: Split)
    requires soft && g.binSize != 1 && 0 <= x < g.W0() && y < g.H0() == |qs| && BinOk(g, qs[y])
    requires ys == YSplit(g, y)
    ensures pre + ColumnContribs(g, soft, qs, x, y + 1) ==
      (pre + ColumnContribs(g, soft, qs, x, y)) + SplitContribs(qs[y], XSplit(g, x), ys)
    ensures Fits(g, SplitContribs(qs[y], XSplit(g, x), ys), g.HistLength())
  {
    ColumnStep(g, soft, qs, x, y, pre);
    PixelContribsPlaced(g, soft, qs[y], x, y);
  }

  /** What soft binning of column x needs: cells larger than one pixel, at least one cell row,
      the column's split, and quantized pixels whose bins are planes of H. */
  predicate SoftColumnOk(g: Geometry, soft: bool, x: int, xs: Split, qs: seq<QBin>)
  {
    soft && g.binSize != 1 && g.Hb() >= 1 && 0 <= x < g.W0() && xs == XSplit(g, x) &&
    |qs| == g.H0() && forall y :: 0 <= y < |qs| ==> BinOk(g, qs[y])
  }

  /** Soft binning of column x, whose position xb the caller carries from column to column:
      the leading rows (before the first cell centre), the main rows (between two cell
      centres) and the trailing rows (past the last cell centre), each with its own stores.
      The running row position yb starts at (0 + 0.5) / bin_size - 0.5 and grows by
      1 / bin_size per row. */
  method SoftColumn(H: array<real>, g: Geometry, soft: bool, x: int, xb: real,
                    O0: array<int>, O1: array<int>, M0: array<real>, M1: array<real>,
                    ghost qs: seq<QBin>, ghost base: seq<real>, ghost pre: seq<Contrib>)
    requires soft && g.binSize != 1 && g.Hb() >= 1
    requires 0 <= x < g.W0() && xb == CellPos(x, g.binSize) && |qs| == g.H0() && H != M0 && H != M1
    requires Holds(O0, O1, M0, M1, qs) && forall y :: 0 <= y < |qs| ==> BinOk(g, qs[y])
    requires H.Length == g.HistLength() && H[..] == AddAll(g, base, pre)
    modifies H
    ensures H[..] == AddAll(g, base, pre + ColumnContribs(g, soft, qs, x, g.H0()))
  {
    var hasLf := xb >= 0.0;
    var xb0 := if hasLf then Trunc(xb) else -1;
    var hasRt := xb0 < g.Wb() - 1;
    var xd := xb - xb0 as real;
    var xs := Split(xb0, xd, hasLf, hasRt);
    assert SoftColumnOk(g, soft, x, xs, qs);
    assert pre + ColumnContribs(g, soft, qs, x, 0) == pre;
    var y, yb := LeadRows(H, g, soft, x, xs, O0, O1, M0, M1, qs, base, pre);
    y, yb := MainRows(H, g, soft, x, xs, y, yb, O0, O1, M0, M1, qs, base, pre);
    TrailRows(H, g, soft, x, xs, y, yb, O0, O1, M0, M1, qs, base, pre);
  }

  /** The leading rows: y < bin_size / 2, before the centre of the first cell row. */
  method LeadRows(H: array<real>, g: Geometry, soft: bool, x: int, xs: Split,
                  O0: array<int>, O1: array<int>, M0: array<real>, M1: array<real>,
                  ghost qs: seq<QBin>, ghost base: seq<real>, ghost pre: seq<Contrib>) returns (y: int, yb: real)
    requires SoftColumnOk(g, soft, x, xs, qs) && Holds(O0, O1, M0, M1, qs) && H != M0 && H != M1
    requires H.Length == g.HistLength() && H[..] == AddAll(g, base, pre + ColumnContribs(g, soft, qs, x, 0))
    modifies H
    ensures y == g.binSize / 2 && y < g.H0() && yb == CellPos(y, g.binSize)
    ensures H[..] == AddAll(g, base, pre + ColumnContribs(g, soft, qs, x, y))
  {
    var bs := g.binSize;
    var sInv := 1.0 / bs as real;
    PosStart(bs);
    yb := 0.5 * sInv - 0.5;
    y := 0;
    assert bs / 2 < g.H0() by {
      MulMono(g.Hb(), 1, bs);
    }
    while y < bs / 2
      invariant 0 <= y <= bs / 2 && yb == CellPos(y, bs)
      invariant H[..] == AddAll(g, base, pre + ColumnContribs(g, soft, qs, x, y))
    {
      LeadPixel(H, g, soft, x, xs, y, yb, O0[y], O1[y], M0[y], M1[y], qs, base, pre);
      PosStep(y, bs);
      yb := yb + sInv;
      y := y + 1;
    }
  }

  /** One leading row: yb0 = -1, and only the cells of the first row are written. */
  method LeadPixel(H: array<real>, g: Geometry, soft: bool, x: int, xs: Split, y: int, yb: real,
                   o0: int, o1: int, m0: real, m1: real,
                   ghost qs: seq<QBin>, ghost base: seq<real>, ghost pre: seq<Contrib>)
    requires SoftColumnOk(g, soft, x, xs, qs) && 0 <= y < g.binSize / 2 && y < g.H0()
    requires yb == CellPos(y, g.binSize) && qs[y] == QBin(o0, o1, m0, m1)
    requires H.Length == g.HistLength() && H[..] == AddAll(g, base, pre + ColumnContribs(g, soft, qs, x, y))
    modifies H
    ensures H[..] == AddAll(g, base, pre + ColumnContribs(g, soft, qs, x, y + 1))
  {
    var yb0 := -1;
    var yd := yb - yb0 as real;
    assert Split(yb0, yd, false, true) == YSplit(g, y) by {
      LeadingIff(y, g.binSize);
    }
    SoftStep(g, soft, qs, x, y, pre, YSplit(g, y));
    LeadRow(H, QBin(o0, o1, m0, m1), xs, yb0, SharesOf(xs.frac, yd), g, base,
            pre + ColumnContribs(g, soft, qs, x, y));
  }

  /** The main rows: from bin_size / 2 on, as long as the cell row below the position is not
      the last one. */
  method MainRows(H: array<real>, g: Geometry, soft: bool, x: int, xs: Split, y0: int, yb0: real,
                  O0: array<int>, O1: array<int>, M0: array<real>, M1: array<real>,
                  ghost qs: seq<QBin>, ghost base: seq<real>, ghost pre: seq<Contrib>) returns (y: int, yb: real)
    requires SoftColumnOk(g, soft, x, xs, qs) && Holds(O0, O1, M0, M1, qs) && H != M0 && H != M1
    requires y0 == g.binSize / 2 && y0 < g.H0() && yb0 == CellPos(y0, g.binSize)
    requires H.Length == g.HistLength() && H[..] == AddAll(g, base, pre + ColumnContribs(g, soft, qs, x, y0))
    modifies H
    ensures g.binSize / 2 <= y < g.H0() && yb == CellPos(y, g.binSize) && (g.Hb() - 1) as real <= yb
    ensures H[..] == AddAll(g, base, pre + ColumnContribs(g, soft, qs, x, y))
  {
    var bs, hb := g.binSize, g.Hb();
    y, yb := y0, yb0;
    while true
      invariant bs / 2 <= y < g.H0() && yb == CellPos(y, bs)
      invariant H[..] == AddAll(g, base, pre + ColumnContribs(g, soft, qs, x, y))
      decreases g.H0() - y
    {
      LeadingIff(y, bs);
      var cy := Trunc(yb);
      if cy >= hb - 1 {
        break;
      }
      MainPixel(H, g, soft, x, xs, y, yb, O0[y], O1[y], M0[y], M1[y], qs, base, pre);
      yb := NextCentre(yb, y, bs);
      y := y + 1;
    }
  }

  /** One main row: yb0 = (int) yb < hb - 1, and rows yb0 and yb0 + 1 are written. */
  method MainPixel(H: array<real>, g: Geometry, soft: bool, x: int, xs: Split, y: int, yb: real,
                   o0: int, o1: int, m0: real, m1: real,
                   ghost qs: seq<QBin>, ghost base: seq<real>, ghost pre: seq<Contrib>)
    requires SoftColumnOk(g, soft, x, xs, qs) && g.binSize / 2 <= y < g.H0()
    requires yb == CellPos(y, g.binSize) && 0.0 <= yb && Trunc(yb) < g.Hb() - 1 && qs[y] == QBin(o0, o1, m0, m1)
    requires H.Length == g.HistLength() && H[..] == AddAll(g, base, pre + ColumnContribs(g, soft, qs, x, y))
    modifies H
    ensures y + 1 < g.H0()
    ensures H[..] == AddAll(g, base, pre + ColumnContribs(g, soft, qs, x, y + 1))
  {
    var yb0 := Trunc(yb);
    var yd := yb - yb0 as real;
    assert Split(yb0, yd, true, true) == YSplit(g, y);
    if y + 1 >= g.H0() {
      LastPastCentre(g.Hb(), g.binSize);
    }
    SoftStep(g, soft, qs, x, y, pre, YSplit(g, y));
    MainRow(H, QBin(o0, o1, m0, m1), xs, yb0, SharesOf(xs.frac, yd), g, base,
            pre + ColumnContribs(g, soft, qs, x, y));
  }

  /** The trailing rows: the rest of the covered rows, past the centre of the last cell row. */
  method TrailRows(H: array<real>, g: Geometry, soft: bool, x: int, xs: Split, y0: int, yb0: real,
                   O0: array<int>, O1: array<int>, M0: array<real>, M1: array<real>,
                   ghost qs: seq<QBin>, ghost base: seq<real>, ghost pre: seq<Contrib>)
    requires SoftColumnOk(g, soft, x, xs, qs) && Holds(O0, O1, M0, M1, qs) && H != M0 && H != M1
    requires g.binSize / 2 <= y0 < g.H0() && yb0 == CellPos(y0, g.binSize) && (g.Hb() - 1) as real <= yb0
    requires H.Length == g.HistLength() && H[..] == AddAll(g, base, pre + ColumnContribs(g, soft, qs, x, y0))
    modifies H
    ensures H[..] == AddAll(g, base, pre + ColumnContribs(g, soft, qs, x, g.H0()))
  {
    var bs, hb := g.binSize, g.Hb();
    var sInv := 1.0 / bs as real;
    var y, yb := y0, yb0;
    while y < g.H0()
      invariant bs / 2 <= y <= g.H0() && yb == CellPos(y, bs) && (hb - 1) as real <= yb
      invariant H[..] == AddAll(g, base, pre + ColumnContribs(g, soft, qs, x, y))
    {
      TrailPixel(H, g, soft, x, xs, y, yb, O0[y], O1[y], M0[y], M1[y], qs, base, pre);
      PosStep(y, bs);
      yb := yb + sInv;
      y := y + 1;
    }
  }

  /** One trailing row: yb0 = (int) yb is the last cell row, the only one written. */
  method TrailPixel(H: array<real>, g: Geometry, soft: bool, x: int, xs: Split, y: int, yb: real,
                    o0: int, o1: int, m0: real, m1: real,
                    ghost qs: seq<QBin>, ghost base: seq<real>, ghost pre: seq<Contrib>)
    requires SoftColumnOk(g, soft, x, xs, qs) && g.binSize / 2 <= y < g.H0()
    requires yb == CellPos(y, g.binSize) && (g.Hb() - 1) as real <= yb && qs[y] == QBin(o0, o1, m0, m1)
    requires H.Length == g.HistLength() && H[..] == AddAll(g, base, pre + ColumnContribs(g, soft, qs, x, y))
    modifies H
    ensures H[..] == AddAll(g, base, pre + ColumnContribs(g, soft, qs, x, y + 1))
  {
    var yb0 := Trunc(yb);
    var yd := yb - yb0 as real;
    assert Split(yb0, yd, true, false) == YSplit(g, y) by {
      LeadingIff(y, g.binSize);
    }
    SoftStep(g, soft, qs, x, y, pre, YSplit(g, y));
    TrailRow(H, QBin(o0, o1, m0, m1), xs, yb0, SharesOf(xs.frac, yd), g, base,
             pre + ColumnContribs(g, soft, qs, x, y));
  }

  /** The column of x (pixels x * h .. x * h + h0 - 1) lies inside the image. */
  lemma ColumnIn(g: Geometry, x: int)
    requires 0 <= x < g.W0()
    ensures 0 <= x * g.h && x * g.h + g.H0() <= g.w * g.h
  {
    CoveredExtent(g);
    MulMono(g.w, x + 1, g.h);
    MulMono(x, 0, g.h);
  }

  /** What gradQuantize writes for pixel y of a covered column is the scalar quantization of
      ColumnBins (both paths agree on orientations in [0, pi)), and its bins are planes of H. */
  lemma BinsAgree(g: Geometry, ms: seq<real>, os: seq<real>, x: int, y: int)
    requires |ms| == g.w * g.h && |os| == g.w * g.h && 0 <= x < g.W0() && 0 <= y < g.H0()
    requires forall i :: 0 <= i < |os| ==> 0.0 <= os[i] < Pi
    ensures 0 <= x * g.h + y < g.w * g.h
    ensures QuantizeAt(os[x * g.h + y], ms[x * g.h + y], y, g.H0(), g.nOrients, g.Nb(), Norm(g.binSize)) ==
      ColumnBins(g, ms, os, x)[y]
    ensures BinOk(g, ColumnBins(g, ms, os, x)[y])
  {
    PixelIn(g, x, y);
    var i := x * g.h + y;
    assert g.Wb() >= 1 && g.Hb() >= 1;
    MulMono(g.Wb(), 1, g.Hb());
    SseAgrees(os[i], ms[i], g.nOrients, g.Nb(), Norm(g.binSize));
    QuantizeBins(os[i], ms[i], g.nOrients, g.Nb(), Norm(g.binSize));
    assert g.nOrients * g.Nb() == g.HistLength();
  }

  /** One column of gradQuantize: the per-column buffers receive ColumnBins, whose bins are
      planes of H. */
  method QuantizeColumn(O: array<real>, M: array<real>, g: Geometry, x: int,
                        O0: array<int>, O1: array<int>, M0: array<real>, M1: array<real>)
    requires M.Length == g.w * g.h && O.Length == g.w * g.h && 0 <= x < g.W0()
    requires forall i :: 0 <= i < O.Length ==> 0.0 <= O[i] < Pi
    requires O0.Length == g.h && O1.Length == g.h && M0.Length == g.h && M1.Length == g.h
    requires O0 != O1 && M0 != M1 && M0 != O && M0 != M && M1 != O && M1 != M
    modifies O0, O1, M0, M1
    ensures Holds(O0, O1, M0, M1, ColumnBins(g, M[..], O[..], x))
    ensures forall y :: 0 <= y < g.H0() ==> BinOk(g, ColumnBins(g, M[..], O[..], x)[y])
  {
    CoveredExtent(g);
    ColumnIn(g, x);
    GradQuantize(O, M, x * g.h, O0, O1, M0, M1, g.nOrients, g.Nb(), g.H0(), Norm(g.binSize));
    ghost var qs := ColumnBins(g, M[..], O[..], x);
    forall y | 0 <= y < g.H0()
      ensures O0[y] == qs[y].o0 && O1[y] == qs[y].o1 && M0[y] == qs[y].m0 && M1[y] == qs[y].m1
      ensures BinOk(g, qs[y])
    {
      BinsAgree(g, M[..], O[..], x, y);
    }
  }

  /** The initial xb of gradHist, the position of column 0 on the cell grid. */
  method FirstCentre(bs: Pos) returns (xb: real)
    ensures xb == CellPos(0, bs)
  {
    PosStart(bs);
    xb := 0.5 * (1.0 / bs as real) - 0.5;
  }

  /** The per-column increment of xb by 1 / bin_size tracks the position of the next column. */
  method NextCentre(xb: real, x: int, bs: Pos) returns (xb': real)
    requires xb == CellPos(x, bs)
    ensures xb' == CellPos(x + 1, bs)
  {
    PosStep(x, bs);
    xb' := xb + 1.0 / bs as real;
  }

  /** One column of gradHist, in the mode the parameters select. In soft mode xb, the column's
      position on the cell grid, is set at column 0 and advanced by 1 / bin_size per column. */
  method BinColumn(H: array<real>, g: Geometry, soft: bool, x: int, xb: real,
                   O0: array<int>, O1: array<int>, M0: array<real>, M1: array<real>,
                   ghost qs: seq<QBin>, ghost base: seq<real>, ghost pre: seq<Contrib>)
    returns (xb': real)
    requires soft && g.binSize != 1 ==> g.Hb() >= 1 && (x == 0 || xb == CellPos(x, g.binSize))
    requires 0 <= x < g.W0() && |qs| == g.H0() && H != M0 && H != M1
    requires Holds(O0, O1, M0, M1, qs) && forall y :: 0 <= y < |qs| ==> BinOk(g, qs[y])
    requires H.Length == g.HistLength() && H[..] == AddAll(g, base, pre)
    modifies H
    ensures soft && g.binSize != 1 ==> xb' == CellPos(x + 1, g.binSize)
    ensures H[..] == AddAll(g, base, pre + ColumnContribs(g, soft, qs, x, g.H0()))
  {
    xb' := xb;
    if !soft || g.binSize == 1 {
      HardColumn(H, g, soft, x, O0, O1, M0, M1, qs, base, pre);
    } else {
      if x == 0 {
        xb' := FirstCentre(g.binSize);
      }
      SoftColumn(H, g, soft, x, xb', O0, O1, M0, M1, qs, base, pre);
      xb' := NextCentre(xb', x, g.binSize);
    }
  }

  /** One pass of gradHist's column loop: quantize column x, then bin it. */
  method HistColumn(M: array<real>, O: array<real>, g: Geometry, soft: bool, H: array<real>, x: int, xb: real,
                    O0: array<int>, O1: array<int>, M0: array<real>, M1: array<real>, ghost base: seq<real>)
    returns (xb': real)
    requires M.Length == g.w * g.h && O.Length == g.w * g.h && H.Length == g.HistLength()
    requires O0.Length == g.h && O1.Length == g.h && M0.Length == g.h && M1.Length == g.h
    requires H != M0 && H != M1 && H != M && H != O && O0 != O1 && M0 != M1
    requires M0 != O && M0 != M && M1 != O && M1 != M
    requires forall i :: 0 <= i < O.Length ==> 0.0 <= O[i] < Pi
    requires soft && g.binSize != 1 ==> g.Hb() >= 1 && (x == 0 || xb == CellPos(x, g.binSize))
    requires 0 <= x < g.W0() && H[..] == AddAll(g, base, ImageContribs(g, soft, M[..], O[..], x))
    modifies H, O0, O1, M0, M1
    ensures soft && g.binSize != 1 ==> xb' == CellPos(x + 1, g.binSize)
    ensures H[..] == AddAll(g, base, ImageContribs(g, soft, M[..], O[..], x + 1))
  {
    QuantizeColumn(O, M, g, x, O0, O1, M0, M1);
    ghost var qs := ColumnBins(g, M[..], O[..], x);
    ghost var pre := ImageContribs(g, soft, M[..], O[..], x);
    xb' := BinColumn(H, g, soft, x, xb, O0, O1, M0, M1, qs, base, pre);
    assert ImageContribs(g, soft, M[..], O[..], x + 1) == pre + ColumnContribs(g, soft, qs, x, g.H0());
  }

  /** gradHist: H, of wb * hb * n_orients entries, receives the contributions of every covered
      pixel, in the order of the source: column by column, top to bottom. */
  method GradHist(M: array<real>, O: array<real>, g: Geometry, soft: bool, H: array<real>)
    requires M.Length == g.w * g.h && O.Length == g.w * g.h && H.Length == g.HistLength()
    requires H != M && H != O
    requires forall i :: 0 <= i < O.Length ==> 0.0 <= O[i] < Pi
    requires soft && g.binSize != 1 && g.Wb() >= 1 ==> g.Hb() >= 1
    modifies H
    ensures H[..] == AddAll(g, old(H[..]), ImageContribs(g, soft, old(M[..]), old(O[..]), g.W0()))
  {
    ghost var base := H[..];
    var O0 := new int[g.h];
    var M0 := new real[g.h];
    var O1 := new int[g.h];
    var M1 := new real[g.h];
    var xb := 0.0;
    var x := 0;
    assert H[..] == AddAll(g, base, ImageContribs(g, soft, M[..], O[..], 0));
    assert soft && g.binSize != 1 && 0 < g.W0() ==> g.Hb() >= 1 by { CoveredExtent(g); }
    while x < g.W0()
      invariant 0 <= x <= g.W0()
      invariant soft && g.binSize != 1 && 0 < x ==> xb == CellPos(x, g.binSize)
      invariant H[..] == AddAll(g, base, ImageContribs(g, soft, M[..], O[..], x))
    {
      xb := HistColumn(M, O, g, soft, H, x, xb, O0, O1, M0, M1, base);
      x := x + 1;
    }
  }
}
