/** Gradient field of a multi-channel image (grad1 and gradMag of the HOG class).

    The image is channel-planar and column-major: pixel (row y, column x) of channel c is
    I[c * (w * h) + x * h + y]. For every pixel the horizontal and vertical finite differences
    are taken in every channel, and the channel with the strictly largest squared magnitude
    wins (the earliest one on ties). Magnitude and orientation of the winning gradient are
    computed by code outside this model (a reciprocal square root and an arccos table); they
    are supplied as the functions `mag` (of the squared magnitude) and `orient` (of the two
    differences). */
module Gradient {
  import opened Numeric

  /** Flat index of pixel (x, y) of channel c. */
  function ImageIndex(h: int, w: int, c: int, x: int, y: int): int { c * (w * h) + (x * h + y) }

  lemma ImageIndexIn(h: nat, w: nat, d: nat, c: int, x: int, y: int)
    requires 0 <= c < d && 0 <= x < w && 0 <= y < h
    ensures 0 <= ImageIndex(h, w, c, x, y) < d * (w * h)
  {
    PairBelow(x, y, w, h);
    PairBelow(c, x * h + y, d, w * h);
  }

  /** Pixel (x, y) of channel c. */
  function Px(I: seq<real>, h: nat, w: nat, d: nat, c: int, x: int, y: int): real
    requires |I| == d * (w * h)
    requires 0 <= c < d && 0 <= x < w && 0 <= y < h
  {
    ImageIndexIn(h, w, d, c, x, y);
    I[ImageIndex(h, w, c, x, y)]
  }

  /** The image shape grad1 needs: two rows and two columns at least (with fewer it reads
      beyond the column or the image). */
  predicate Shape(I: seq<real>, h: nat, w: nat, d: nat)
  {
    h >= 2 && w >= 2 && d >= 1 && |I| == d * (w * h)
  }

  /** Horizontal difference: central with weight 1/2 inside, one-sided with weight 1 at the
      first and the last column. */
  function GxAt(I: seq<real>, h: nat, w: nat, d: nat, c: int, x: int, y: int): real
    requires Shape(I, h, w, d) && 0 <= c < d && 0 <= x < w && 0 <= y < h
  {
    if x == 0 then (Px(I, h, w, d, c, 1, y) - Px(I, h, w, d, c, 0, y)) * 1.0
    else if x == w - 1 then (Px(I, h, w, d, c, w - 1, y) - Px(I, h, w, d, c, w - 2, y)) * 1.0
    else (Px(I, h, w, d, c, x + 1, y) - Px(I, h, w, d, c, x - 1, y)) * 0.5
  }

  /** Vertical difference: the same rule along the column. */
  function GyAt(I: seq<real>, h: nat, w: nat, d: nat, c: int, x: int, y: int): real
    requires Shape(I, h, w, d) && 0 <= c < d && 0 <= x < w && 0 <= y < h
  {
    if y == 0 then (Px(I, h, w, d, c, x, 1) - Px(I, h, w, d, c, x, 0)) * 1.0
    else if y == h - 1 then (Px(I, h, w, d, c, x, h - 1) - Px(I, h, w, d, c, x, h - 2)) * 1.0
    else (Px(I, h, w, d, c, x, y + 1) - Px(I, h, w, d, c, x, y - 1)) * 0.5
  }

  function SqMag(gx: real, gy: real): real { gx * gx + gy * gy }

  /** Position of the first maximum of s: no element is larger, and every element before it
      is strictly smaller. */
  function FirstMax(s: seq<real>): (b: nat)
    requires |s| > 0
    ensures b < |s|
    ensures forall j :: 0 <= j < |s| ==> s[j] <= s[b]
    ensures forall j :: 0 <= j < b ==> s[j] < s[b]
  {
    if |s| == 1 then 0
    else
      var b := FirstMax(s[..|s| - 1]);
      if s[|s| - 1] > s[b] then |s| - 1 else b
  }

  /** Squared magnitudes of the gradient of pixel (x, y) in channels 0 .. n-1. */
  function Energies(I: seq<real>, h: nat, w: nat, d: nat, x: int, y: int, n: nat): (s: seq<real>)
    requires Shape(I, h, w, d) && 0 <= x < w && 0 <= y < h && n <= d
    ensures |s| == n
  {
    if n == 0 then []
    else Energies(I, h, w, d, x, y, n - 1) + [SqMag(GxAt(I, h, w, d, n - 1, x, y), GyAt(I, h, w, d, n - 1, x, y))]
  }

  /** The channel whose gradient pixel (x, y) keeps. */
  function Best(I: seq<real>, h: nat, w: nat, d: nat, x: int, y: int): (c: nat)
    requires Shape(I, h, w, d) && 0 <= x < w && 0 <= y < h
    ensures c < d
  {
    FirstMax(Energies(I, h, w, d, x, y, d))
  }

  /** Magnitude and orientation of pixel (x, y): those of the gradient of its best channel. */
  function PixelMag(I: seq<real>, h: nat, w: nat, d: nat, mag: real -> real, x: int, y: int): real
    requires Shape(I, h, w, d) && 0 <= x < w && 0 <= y < h
  {
    var c := Best(I, h, w, d, x, y);
    mag(SqMag(GxAt(I, h, w, d, c, x, y), GyAt(I, h, w, d, c, x, y)))
  }

  function PixelOrient(I: seq<real>, h: nat, w: nat, d: nat, orient: (real, real) -> real, x: int, y: int): real
    requires Shape(I, h, w, d) && 0 <= x < w && 0 <= y < h
  {
    var c := Best(I, h, w, d, x, y);
    orient(GxAt(I, h, w, d, c, x, y), GyAt(I, h, w, d, c, x, y))
  }

  /** Magnitude and orientation fields: entry x * h + y belongs to pixel (x, y). */
  function MagField(I: seq<real>, h: nat, w: nat, d: nat, mag: real -> real): (M: seq<real>)
    requires Shape(I, h, w, d)
    ensures |M| == w * h
  {
    seq(w * h, i requires 0 <= i < w * h => (CellOf(h, w, i); PixelMag(I, h, w, d, mag, i / h, i % h)))
  }

  function OrientField(I: seq<real>, h: nat, w: nat, d: nat, orient: (real, real) -> real): (O: seq<real>)
    requires Shape(I, h, w, d)
    ensures |O| == w * h
  {
    seq(w * h, i requires 0 <= i < w * h => (CellOf(h, w, i); PixelOrient(I, h, w, d, orient, i / h, i % h)))
  }

  lemma CellOf(h: nat, w: nat, i: int)
    requires 0 <= i < w * h
    ensures 0 <= i / h < w && 0 <= i % h < h && i == (i / h) * h + i % h
  {
    if i / h >= w {
      MulMono(i / h, w, h);
    }
  }

  /** The field entry of pixel (x, y) sits at x * h + y. */
  lemma FieldAt(I: seq<real>, h: nat, w: nat, d: nat, mag: real -> real, orient: (real, real) -> real,
                x: int, y: int)
    requires Shape(I, h, w, d) && 0 <= x < w && 0 <= y < h
    ensures 0 <= x * h + y < w * h
    ensures MagField(I, h, w, d, mag)[x * h + y] == PixelMag(I, h, w, d, mag, x, y)
    ensures OrientField(I, h, w, d, orient)[x * h + y] == PixelOrient(I, h, w, d, orient, x, y)
  {
    PairBelow(x, y, w, h);
    DivModUnique(x * h + y, h, x, y);
  }

  /** Entry i of column x (which starts at col = x * h) is the field entry of row i - col. */
  lemma ColumnEntry(I: seq<real>, h: nat, w: nat, d: nat, mag: real -> real, orient: (real, real) -> real,
                    x: int, col: int, i: int)
    requires Shape(I, h, w, d) && 0 <= x < w && col == x * h && col <= i < col + h
    ensures 0 <= i < w * h
    ensures MagField(I, h, w, d, mag)[i] == PixelMag(I, h, w, d, mag, x, i - col)
    ensures OrientField(I, h, w, d, orient)[i] == PixelOrient(I, h, w, d, orient, x, i - col)
  {
    FieldAt(I, h, w, d, mag, orient, x, i - col);
  }

  /** No channel of a pixel has a larger squared magnitude than the best one. */
  lemma BestIsStrongest(I: seq<real>, h: nat, w: nat, d: nat, x: int, y: int, c: int)
    requires Shape(I, h, w, d) && 0 <= x < w && 0 <= y < h && 0 <= c < d
    ensures SqMag(GxAt(I, h, w, d, c, x, y), GyAt(I, h, w, d, c, x, y)) <=
      SqMag(GxAt(I, h, w, d, Best(I, h, w, d, x, y), x, y), GyAt(I, h, w, d, Best(I, h, w, d, x, y), x, y))
    ensures c < Best(I, h, w, d, x, y) ==>
      SqMag(GxAt(I, h, w, d, c, x, y), GyAt(I, h, w, d, c, x, y)) <
      SqMag(GxAt(I, h, w, d, Best(I, h, w, d, x, y), x, y), GyAt(I, h, w, d, Best(I, h, w, d, x, y), x, y))
  {
    EnergiesAt(I, h, w, d, x, y, d, c);
    EnergiesAt(I, h, w, d, x, y, d, Best(I, h, w, d, x, y));
  }

  lemma {:induction false} EnergiesAt(I: seq<real>, h: nat, w: nat, d: nat, x: int, y: int, n: nat, c: int)
    requires Shape(I, h, w, d) && 0 <= x < w && 0 <= y < h && n <= d && 0 <= c < n
    ensures Energies(I, h, w, d, x, y, n)[c] == SqMag(GxAt(I, h, w, d, c, x, y), GyAt(I, h, w, d, c, x, y))
  {
    if c < n - 1 {
      EnergiesAt(I, h, w, d, x, y, n - 1, c);
    }
  }

  /** Both difference rules are exact on an image that is linear in row and column: the
      one-sided differences at the borders agree with the central ones inside. */
  lemma {:induction false} RampGx(I: seq<real>, h: nat, w: nat, d: nat, a: real, b: real, k: real,
                                   c: int, x: int, y: int)
    requires Shape(I, h, w, d) && 0 <= c < d && 0 <= x < w && 0 <= y < h
    requires forall x', y' :: 0 <= x' < w && 0 <= y' < h ==> Px(I, h, w, d, c, x', y') == Ramp(a, b, k, x', y')
    ensures GxAt(I, h, w, d, c, x, y) == b
  {
    var xp := if x == 0 then 0 else x - 1;
    var xn := if x == w - 1 then w - 1 else x + 1;
    RampStep(a, b, k, xp, y, xn, y);
  }

  lemma {:induction false} RampGy(I: seq<real>, h: nat, w: nat, d: nat, a: real, b: real, k: real,
                                   c: int, x: int, y: int)
    requires Shape(I, h, w, d) && 0 <= c < d && 0 <= x < w && 0 <= y < h
    requires forall x', y' :: 0 <= x' < w && 0 <= y' < h ==> Px(I, h, w, d, c, x', y') == Ramp(a, b, k, x', y')
    ensures GyAt(I, h, w, d, c, x, y) == a
  {
    var yp := if y == 0 then 0 else y - 1;
    var yn := if y == h - 1 then h - 1 else y + 1;
    RampStep(a, b, k, x, yp, x, yn);
  }

  /** The image a * y + b * x + k. */
  function Ramp(a: real, b: real, k: real, x: int, y: int): real
  {
    a * (y as real) + b * (x as real) + k
  }

  lemma RampStep(a: real, b: real, k: real, x: int, y: int, x': int, y': int)
    ensures Ramp(a, b, k, x', y') - Ramp(a, b, k, x, y) == a * ((y' - y) as real) + b * ((x' - x) as real)
  {
  }

  /** grad1: the differences of column x of channel c, written to row c of the per-column
      buffers Gx and Gy (the source keeps one slot of h floats per channel in one buffer; here
      slot c is row c of a two-dimensional array). */
  method Grad1(I: array<real>, h: nat, w: nat, d: nat, c: nat, x: nat, Gx: array2<real>, Gy: array2<real>)
    requires Shape(I[..], h, w, d) && c < d && x < w
    requires Gx.Length0 == d && Gx.Length1 == h && Gy.Length0 == d && Gy.Length1 == h && Gx != Gy
    modifies Gx, Gy
    ensures forall y :: 0 <= y < h ==>
      Gx[c, y] == GxAt(I[..], h, w, d, c, x, y) && Gy[c, y] == GyAt(I[..], h, w, d, c, x, y)
    ensures forall c', y :: 0 <= c' < d && 0 <= y < h && c' != c ==>
      Gx[c', y] == old(Gx[c', y]) && Gy[c', y] == old(Gy[c', y])
  {
    ColumnGx(I, h, w, d, c, x, Gx);
    ColumnGy(I, h, w, d, c, x, Gy);
  }

  /** First half of grad1: the horizontal differences of one column. */
  method ColumnGx(I: array<real>, h: nat, w: nat, d: nat, c: nat, x: nat, Gx: array2<real>)
    requires Shape(I[..], h, w, d) && c < d && x < w
    requires Gx.Length0 == d && Gx.Length1 == h
    modifies Gx
    ensures forall y :: 0 <= y < h ==> Gx[c, y] == GxAt(I[..], h, w, d, c, x, y)
    ensures forall c', y :: 0 <= c' < d && 0 <= y < h && c' != c ==> Gx[c', y] == old(Gx[c', y])
  {
    // the previous and the next column, and the weight of their difference
    var r := 0.5;
    var xp, xn := x - 1, x + 1;
    if x == 0 {
      r := 1.0; xp := x;
    } else if x == w - 1 {
      r := 1.0; xn := x;
    }
    var y := 0;
    while y < h
      invariant 0 <= y <= h
      invariant forall y' :: 0 <= y' < y ==> Gx[c, y'] == GxAt(I[..], h, w, d, c, x, y')
      invariant forall c', y' :: 0 <= c' < d && 0 <= y' < h && c' != c ==> Gx[c', y'] == old(Gx[c', y'])
    {
      ImageIndexIn(h, w, d, c, xn, y);
      ImageIndexIn(h, w, d, c, xp, y);
      Gx[c, y] := (I[ImageIndex(h, w, c, xn, y)] - I[ImageIndex(h, w, c, xp, y)]) * r;
      y := y + 1;
    }
  }

  /** Second half of grad1: the vertical differences along the column, one-sided at its first
      and last row. */
  method ColumnGy(I: array<real>, h: nat, w: nat, d: nat, c: nat, x: nat, Gy: array2<real>)
    requires Shape(I[..], h, w, d) && c < d && x < w
    requires Gy.Length0 == d && Gy.Length1 == h
    modifies Gy
    ensures forall y :: 0 <= y < h ==> Gy[c, y] == GyAt(I[..], h, w, d, c, x, y)
    ensures forall c', y :: 0 <= c' < d && 0 <= y < h && c' != c ==> Gy[c', y] == old(Gy[c', y])
  {
    ImageIndexIn(h, w, d, c, x, 1);
    ImageIndexIn(h, w, d, c, x, 0);
    Gy[c, 0] := (I[ImageIndex(h, w, c, x, 1)] - I[ImageIndex(h, w, c, x, 0)]) * 1.0;
    var y := 1;
    while y < h - 1
      invariant 1 <= y <= h - 1
      invariant forall y' :: 0 <= y' < y ==> Gy[c, y'] == GyAt(I[..], h, w, d, c, x, y')
      invariant forall c', y' :: 0 <= c' < d && 0 <= y' < h && c' != c ==> Gy[c', y'] == old(Gy[c', y'])
    {
      ImageIndexIn(h, w, d, c, x, y + 1);
      ImageIndexIn(h, w, d, c, x, y - 1);
      Gy[c, y] := (I[ImageIndex(h, w, c, x, y + 1)] - I[ImageIndex(h, w, c, x, y - 1)]) * 0.5;
      y := y + 1;
    }
    ImageIndexIn(h, w, d, c, x, h - 1);
    ImageIndexIn(h, w, d, c, x, h - 2);
    Gy[c, h - 1] := (I[ImageIndex(h, w, c, x, h - 1)] - I[ImageIndex(h, w, c, x, h - 2)]) * 1.0;
  }

  /** Every channel of m holds h values. */
  predicate Rect(m: seq<seq<real>>, h: nat)
  {
    forall c :: 0 <= c < |m| ==> |m[c]| == h
  }

  /** Contents of a per-column buffer: one row of h values per channel. */
  function Snapshot(m: array2<real>): (r: seq<seq<real>>)
    reads m
    ensures |r| == m.Length0 && Rect(r, m.Length1)
    ensures forall c, y :: 0 <= c < m.Length0 && 0 <= y < m.Length1 ==> r[c][y] == m[c, y]
  {
    seq(m.Length0, c requires 0 <= c < m.Length0 reads m => seq(m.Length1, y requires 0 <= y < m.Length1 reads m => m[c, y]))
  }

  /** Entry y of channels 0 .. n-1. */
  function Across(m: seq<seq<real>>, y: nat, n: nat): (r: seq<real>)
    requires n <= |m| && forall c :: 0 <= c < n ==> y < |m[c]|
    ensures |r| == n && forall c :: 0 <= c < n ==> r[c] == m[c][y]
  {
    if n == 0 then [] else Across(m, y, n - 1) + [m[n - 1][y]]
  }

  /** The channel whose values row y keeps after channels 0 .. n-1 were compared: the first
      one with the largest squared magnitude. */
  function Winner(m2: seq<seq<real>>, h: nat, y: nat, n: nat): (b: nat)
    requires Rect(m2, h) && y < h && 1 <= n <= |m2|
    ensures b < n
  {
    FirstMax(Across(m2, y, n))
  }

  /** (m, u, v) is what the winner among channels 0 .. n-1 held in row y. */
  predicate Kept(m: real, u: real, v: real, m2: seq<seq<real>>, gx: seq<seq<real>>, gy: seq<seq<real>>,
                 h: nat, y: nat, n: nat)
    requires Rect(m2, h) && Rect(gx, h) && Rect(gy, h) && y < h && 1 <= n <= |m2| && n <= |gx| && n <= |gy|
  {
    var b := Winner(m2, h, y, n);
    m == m2[b][y] && u == gx[b][y] && v == gy[b][y]
  }

  /** The channel-selection loop of gradMag: for every row y, the squared magnitude and the
      differences of the first channel with the largest squared magnitude end up in channel 0;
      the other channels are left alone. */
  method SelectChannel(h: nat, d: nat, M2: array2<real>, Gx: array2<real>, Gy: array2<real>)
    requires d >= 1
    requires M2.Length0 == d && M2.Length1 == h && Gx.Length0 == d && Gx.Length1 == h
    requires Gy.Length0 == d && Gy.Length1 == h
    requires M2 != Gx && M2 != Gy && Gx != Gy
    modifies M2, Gx, Gy
    ensures forall y :: 0 <= y < h ==>
      Kept(M2[0, y], Gx[0, y], Gy[0, y], old(Snapshot(M2)), old(Snapshot(Gx)), old(Snapshot(Gy)), h, y, d)
    ensures forall c, y :: 1 <= c < d && 0 <= y < h ==>
      M2[c, y] == old(M2[c, y]) && Gx[c, y] == old(Gx[c, y]) && Gy[c, y] == old(Gy[c, y])
  {
    ghost var m2, gx, gy := Snapshot(M2), Snapshot(Gx), Snapshot(Gy);
    assert |m2| == d && |gx| == d && |gy| == d && Rect(m2, h) && Rect(gx, h) && Rect(gy, h);
    // win[y] is the channel whose values row y of channel 0 currently holds
    ghost var win: seq<nat> := seq(h, y => 0);
    for c := 1 to d
      invariant |win| == h
      invariant forall c', y :: 1 <= c' < d && 0 <= y < h ==>
        M2[c', y] == m2[c'][y] && Gx[c', y] == gx[c'][y] && Gy[c', y] == gy[c'][y]
      invariant forall y :: 0 <= y < h ==>
        win[y] < d && M2[0, y] == m2[win[y]][y] && Gx[0, y] == gx[win[y]][y] && Gy[0, y] == gy[win[y]][y]
      invariant forall y :: 0 <= y < h ==> Leads(m2, h, y, c, win[y])
    {
      win := CompareChannel(h, d, c, M2, Gx, Gy, m2, gx, gy, win);
    }
    forall y | 0 <= y < h
      ensures Kept(M2[0, y], Gx[0, y], Gy[0, y], m2, gx, gy, h, y, d)
    {
      LeadsWinner(m2, h, y, d, win[y]);
    }
  }

  /** One pass of the selection loop: row by row, channel c replaces what channel 0 holds when
      its squared magnitude is strictly larger. */
  method CompareChannel(h: nat, d: nat, c: nat, M2: array2<real>, Gx: array2<real>, Gy: array2<real>,
                        ghost m2: seq<seq<real>>, ghost gx: seq<seq<real>>, ghost gy: seq<seq<real>>,
                        ghost win0: seq<nat>) returns (ghost win: seq<nat>)
    requires 1 <= c < d && |win0| == h
    requires M2.Length0 == d && M2.Length1 == h && Gx.Length0 == d && Gx.Length1 == h
    requires Gy.Length0 == d && Gy.Length1 == h
    requires M2 != Gx && M2 != Gy && Gx != Gy
    requires |m2| == d && |gx| == d && |gy| == d && Rect(m2, h) && Rect(gx, h) && Rect(gy, h)
    requires forall c', y :: 1 <= c' < d && 0 <= y < h ==>
      M2[c', y] == m2[c'][y] && Gx[c', y] == gx[c'][y] && Gy[c', y] == gy[c'][y]
    requires forall y :: 0 <= y < h ==>
      win0[y] < d && M2[0, y] == m2[win0[y]][y] && Gx[0, y] == gx[win0[y]][y] && Gy[0, y] == gy[win0[y]][y]
    requires forall y :: 0 <= y < h ==> Leads(m2, h, y, c, win0[y])
    modifies M2, Gx, Gy
    ensures |win| == h
    ensures forall c', y :: 1 <= c' < d && 0 <= y < h ==>
      M2[c', y] == m2[c'][y] && Gx[c', y] == gx[c'][y] && Gy[c', y] == gy[c'][y]
    ensures forall y :: 0 <= y < h ==>
      win[y] < d && M2[0, y] == m2[win[y]][y] && Gx[0, y] == gx[win[y]][y] && Gy[0, y] == gy[win[y]][y]
    ensures forall y :: 0 <= y < h ==> Leads(m2, h, y, c + 1, win[y])
  {
    win := win0;
    for y := 0 to h
      invariant |win| == h
      invariant forall c', y' :: 1 <= c' < d && 0 <= y' < h ==>
        M2[c', y'] == m2[c'][y'] && Gx[c', y'] == gx[c'][y'] && Gy[c', y'] == gy[c'][y']
      invariant forall y' :: 0 <= y' < h ==>
        win[y'] < d && M2[0, y'] == m2[win[y']][y'] && Gx[0, y'] == gx[win[y']][y'] && Gy[0, y'] == gy[win[y']][y']
      invariant forall y' :: 0 <= y' < y ==> Leads(m2, h, y', c + 1, win[y'])
      invariant forall y' :: y <= y' < h ==> Leads(m2, h, y', c, win[y'])
    {
      LeadsStep(m2, h, y, c, win[y]);
      if M2[c, y] > M2[0, y] {
        M2[0, y], Gx[0, y], Gy[0, y] := M2[c, y], Gx[c, y], Gy[c, y];
        win := win[y := c];
      }
    }
  }

  /** b is the first channel among 0 .. n-1 with the largest value in row y. */
  predicate Leads(m2: seq<seq<real>>, h: nat, y: nat, n: nat, b: nat)
    requires Rect(m2, h) && y < h && n <= |m2|
  {
    b < n && (forall c :: 0 <= c < n ==> m2[c][y] <= m2[b][y]) && forall c :: 0 <= c < b ==> m2[c][y] < m2[b][y]
  }

  /** One step of the selection: channel c takes over exactly when its value is strictly
      larger than that of the leader so far. */
  lemma LeadsStep(m2: seq<seq<real>>, h: nat, y: nat, c: nat, b: nat)
    requires Rect(m2, h) && y < h && c < |m2|
    requires Leads(m2, h, y, c, b)
    ensures Leads(m2, h, y, c + 1, if m2[c][y] > m2[b][y] then c else b)
  {
  }

  /** There is only one leader: the first maximum of the channel values. */
  lemma LeadsWinner(m2: seq<seq<real>>, h: nat, y: nat, n: nat, b: nat)
    requires Rect(m2, h) && y < h && 1 <= n <= |m2|
    requires Leads(m2, h, y, n, b)
    ensures b == Winner(m2, h, y, n)
  {
    var s := Across(m2, y, n);
    var f := FirstMax(s);
    assert s[b] == m2[b][y] && s[f] == m2[f][y];
  }

  /** The squared magnitudes of the buffers are the energies of the pixel, channel by
      channel. */
  lemma {:induction false} AcrossEnergies(I: seq<real>, h: nat, w: nat, d: nat, x: int, y: int,
                                          m2: seq<seq<real>>, n: nat)
    requires Shape(I, h, w, d) && 0 <= x < w && 0 <= y < h && n <= d
    requires |m2| == d && Rect(m2, h)
    requires forall c :: 0 <= c < d ==> m2[c][y] == SqMag(GxAt(I, h, w, d, c, x, y), GyAt(I, h, w, d, c, x, y))
    ensures Across(m2, y, n) == Energies(I, h, w, d, x, y, n)
  {
    if n > 0 {
      AcrossEnergies(I, h, w, d, x, y, m2, n - 1);
    }
  }

  /** What the selection keeps for row y of column x is the gradient of the pixel's best
      channel and its squared magnitude. */
  lemma SelectedIsBest(I: seq<real>, h: nat, w: nat, d: nat, x: int, y: int,
                       m2: seq<seq<real>>, gx: seq<seq<real>>, gy: seq<seq<real>>, m: real, u: real, v: real)
    requires Shape(I, h, w, d) && 0 <= x < w && 0 <= y < h
    requires |m2| == d && |gx| == d && |gy| == d && Rect(m2, h) && Rect(gx, h) && Rect(gy, h)
    requires forall c :: 0 <= c < d ==>
      gx[c][y] == GxAt(I, h, w, d, c, x, y) && gy[c][y] == GyAt(I, h, w, d, c, x, y) &&
      m2[c][y] == SqMag(gx[c][y], gy[c][y])
    requires Kept(m, u, v, m2, gx, gy, h, y, d)
    ensures u == GxAt(I, h, w, d, Best(I, h, w, d, x, y), x, y)
    ensures v == GyAt(I, h, w, d, Best(I, h, w, d, x, y), x, y)
    ensures m == SqMag(u, v)
  {
    AcrossEnergies(I, h, w, d, x, y, m2, d);
  }

  /** gradMag: the magnitude and the orientation of the strongest channel's gradient, for every
      pixel, column by column. */
  method GradMag(I: array<real>, h: nat, w: nat, d: nat, mag: real -> real, orient: (real, real) -> real,
                 M: array<real>, O: array<real>)
    requires Shape(I[..], h, w, d)
    requires M.Length == w * h && O.Length == w * h && M != O && M != I && O != I
    modifies M, O
    ensures M[..] == MagField(old(I[..]), h, w, d, mag)
    ensures O[..] == OrientField(old(I[..]), h, w, d, orient)
  {
    ghost var img := I[..];
    ghost var mf, of := MagField(img, h, w, d, mag), OrientField(img, h, w, d, orient);
    var M2 := new real[d, h];
    var Gx := new real[d, h];
    var Gy := new real[d, h];
    var col := 0;
    for x := 0 to w
      invariant col == x * h && I[..] == img
      invariant forall i :: 0 <= i < col ==> M[i] == mf[i] && O[i] == of[i]
    {
      MulMono(w - 1, x, h);
      ColumnMag(I, img, h, w, d, x, col, mag, orient, M2, Gx, Gy, M, O);
      forall i | col <= i < col + h
        ensures M[i] == mf[i] && O[i] == of[i]
      {
        ColumnEntry(img, h, w, d, mag, orient, x, col, i);
      }
      col := col + h;
    }
    assert M[..] == mf;
    assert O[..] == of;
  }

  /** One column of gradMag: the strongest gradient of every row, then the write of the column's
      magnitudes and orientations at offset col = x * h. */
  method ColumnMag(I: array<real>, ghost img: seq<real>, h: nat, w: nat, d: nat, x: nat, col: nat,
                   mag: real -> real, orient: (real, real) -> real,
                   M2: array2<real>, Gx: array2<real>, Gy: array2<real>, M: array<real>, O: array<real>)
    requires I[..] == img && Shape(img, h, w, d) && x < w && col + h <= w * h
    requires M.Length == w * h && O.Length == w * h && M != O && M != I && O != I
    requires M2.Length0 == d && M2.Length1 == h && Gx.Length0 == d && Gx.Length1 == h
    requires Gy.Length0 == d && Gy.Length1 == h
    requires M2 != Gx && M2 != Gy && Gx != Gy
    modifies M2, Gx, Gy, M, O
    ensures forall i :: 0 <= i < col ==> M[i] == old(M[i]) && O[i] == old(O[i])
    ensures forall i :: col <= i < col + h ==>
      M[i] == PixelMag(img, h, w, d, mag, x, i - col) && O[i] == PixelOrient(img, h, w, d, orient, x, i - col)
  {
    StrongestGradient(I, h, w, d, x, M2, Gx, Gy);
    assert forall y :: 0 <= y < h ==>
      mag(M2[0, y]) == PixelMag(img, h, w, d, mag, x, y) && orient(Gx[0, y], Gy[0, y]) == PixelOrient(img, h, w, d, orient, x, y);
    WriteColumn(h, col, mag, orient, M2, Gx, Gy, M, O);
  }

  /** The copy of the selected channel into the output: magnitude from the squared magnitude,
      orientation from the two differences. */
  method WriteColumn(h: nat, col: nat, mag: real -> real, orient: (real, real) -> real,
                     M2: array2<real>, Gx: array2<real>, Gy: array2<real>, M: array<real>, O: array<real>)
    requires M2.Length0 >= 1 && M2.Length1 == h && Gx.Length0 >= 1 && Gx.Length1 == h
    requires Gy.Length0 >= 1 && Gy.Length1 == h
    requires col + h <= M.Length && col + h <= O.Length && M != O
    modifies M, O
    ensures forall i :: 0 <= i < col ==> M[i] == old(M[i]) && O[i] == old(O[i])
    ensures forall i :: col <= i < col + h ==>
      M[i] == mag(M2[0, i - col]) && O[i] == orient(Gx[0, i - col], Gy[0, i - col])
  {
    for y := 0 to h
      invariant forall i :: 0 <= i < col ==> M[i] == old(M[i]) && O[i] == old(O[i])
      invariant forall i :: col <= i < col + y ==>
        M[i] == mag(M2[0, i - col]) && O[i] == orient(Gx[0, i - col], Gy[0, i - col])
    {
      M[col + y] := mag(M2[0, y]);
      O[col + y] := orient(Gx[0, y], Gy[0, y]);
    }
  }

  /** The gradients of every channel of column x, and the selection: row y of channel 0 ends up
      holding the gradient of the pixel's best channel and its squared magnitude. */
  method StrongestGradient(I: array<real>, h: nat, w: nat, d: nat, x: nat,
                           M2: array2<real>, Gx: array2<real>, Gy: array2<real>)
    requires Shape(I[..], h, w, d) && x < w
    requires M2.Length0 == d && M2.Length1 == h && Gx.Length0 == d && Gx.Length1 == h
    requires Gy.Length0 == d && Gy.Length1 == h
    requires M2 != Gx && M2 != Gy && Gx != Gy
    modifies M2, Gx, Gy
    ensures forall y :: 0 <= y < h ==>
      Gx[0, y] == GxAt(I[..], h, w, d, Best(I[..], h, w, d, x, y), x, y) &&
      Gy[0, y] == GyAt(I[..], h, w, d, Best(I[..], h, w, d, x, y), x, y) &&
      M2[0, y] == SqMag(Gx[0, y], Gy[0, y])
  {
    ghost var img := I[..];
    GradColumns(I, h, w, d, x, Gx, Gy);
    SquaredMagnitudes(h, d, Gx, Gy, M2);
    ghost var m2, gx, gy := Snapshot(M2), Snapshot(Gx), Snapshot(Gy);
    assert forall c, y :: 0 <= c < d && 0 <= y < h ==>
      gx[c][y] == GxAt(img, h, w, d, c, x, y) && gy[c][y] == GyAt(img, h, w, d, c, x, y) &&
      m2[c][y] == SqMag(gx[c][y], gy[c][y]);
    SelectChannel(h, d, M2, Gx, Gy);
    forall y | 0 <= y < h
      ensures Gx[0, y] == GxAt(img, h, w, d, Best(img, h, w, d, x, y), x, y)
      ensures Gy[0, y] == GyAt(img, h, w, d, Best(img, h, w, d, x, y), x, y)
      ensures M2[0, y] == SqMag(Gx[0, y], Gy[0, y])
    {
      SelectedIsBest(img, h, w, d, x, y, m2, gx, gy, M2[0, y], Gx[0, y], Gy[0, y]);
    }
  }

  /** grad1 for every channel of column x. */
  method GradColumns(I: array<real>, h: nat, w: nat, d: nat, x: nat, Gx: array2<real>, Gy: array2<real>)
    requires Shape(I[..], h, w, d) && x < w
    requires Gx.Length0 == d && Gx.Length1 == h && Gy.Length0 == d && Gy.Length1 == h && Gx != Gy
    modifies Gx, Gy
    ensures forall c, y :: 0 <= c < d && 0 <= y < h ==>
      Gx[c, y] == GxAt(I[..], h, w, d, c, x, y) && Gy[c, y] == GyAt(I[..], h, w, d, c, x, y)
  {
    for c := 0 to d
      invariant forall c', y :: 0 <= c' < c && 0 <= y < h ==>
        Gx[c', y] == GxAt(I[..], h, w, d, c', x, y) && Gy[c', y] == GyAt(I[..], h, w, d, c', x, y)
    {
      Grad1(I, h, w, d, c, x, Gx, Gy);
    }
  }

  /** The squared magnitude of every channel's gradient. */
  method SquaredMagnitudes(h: nat, d: nat, Gx: array2<real>, Gy: array2<real>, M2: array2<real>)
    requires M2.Length0 == d && M2.Length1 == h && Gx.Length0 == d && Gx.Length1 == h
    requires Gy.Length0 == d && Gy.Length1 == h
    requires M2 != Gx && M2 != Gy
    modifies M2
    ensures forall c, y :: 0 <= c < d && 0 <= y < h ==> M2[c, y] == SqMag(Gx[c, y], Gy[c, y])
  {
    for c := 0 to d
      invariant forall c', y :: 0 <= c' < c && 0 <= y < h ==> M2[c', y] == SqMag(Gx[c', y], Gy[c', y])
    {
      for y := 0 to h
        invariant forall c', y' :: 0 <= c' < c && 0 <= y' < h ==> M2[c', y'] == SqMag(Gx[c', y'], Gy[c', y'])
        invariant forall y' :: 0 <= y' < y ==> M2[c, y'] == SqMag(Gx[c, y'], Gy[c, y'])
      {
        M2[c, y] := Gx[c, y] * Gx[c, y] + Gy[c, y] * Gy[c, y];
      }
    }
  }
}
