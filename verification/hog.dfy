/** The HOG class: its parameters, and compute, which chains gradMag, gradHist and
    normalization and then keeps the inner cells of the normalized tensor as the descriptor.

    Descriptor slot l in 0 .. 4 * n_orients - 1 is the orientation plane l of G read as four
    stacked histograms, so it holds variant l / n_orients of orientation bin l % n_orients. For
    each slot, the cells (j, i) with 1 <= j <= wb - 2 and 1 <= i <= hb - 2 follow one another,
    column by column. */
module Hog {
  import opened Numeric
  import opened Grid
  import opened Gradient
  import opened Quantization
  import opened Histogram
  import opened Binning
  import opened Normalize

  /** The inner cell columns and rows: wb - 2 and hb - 2, and none on a grid with fewer than
      two (the loops of compute run from 1 while below wb - 1, resp. hb - 1). */
  function InnerW(g: Geometry): nat { if g.Wb() >= 2 then g.Wb() - 2 else 0 }
  function InnerH(g: Geometry): nat { if g.Hb() >= 2 then g.Hb() - 2 else 0 }

  /** The number of descriptor entries: 4 * n_orients * (wb - 2) * (hb - 2) on a grid of at least
      two cells each way, and 0 otherwise. */
  function DescLength(g: Geometry): nat
  {
    MulNonNegInt(4 * g.nOrients, InnerW(g));
    MulNonNegInt(4 * g.nOrients * InnerW(g), InnerH(g));
    (4 * g.nOrients * InnerW(g)) * InnerH(g)
  }

  lemma MulNonNegInt(a: int, b: int)
    requires 0 <= a && 0 <= b
    ensures 0 <= a * b
  {
    MulMono(a, 0, b);
  }

  /** A descriptor slot l and the inner cell (j, i) it reads. */
  datatype Slot = Slot(l: int, j: int, i: int)

  predicate Inner(g: Geometry, s: Slot)
  {
    0 <= s.l < 4 * g.nOrients && 1 <= s.j < g.Wb() - 1 && 1 <= s.i < g.Hb() - 1
  }

  /** Position of a slot's entry in the descriptor (the running k of the source). */
  function DescIndex(g: Geometry, s: Slot): int
  {
    (s.l * InnerW(g) + (s.j - 1)) * InnerH(g) + (s.i - 1)
  }

  /** The slot that descriptor entry k holds; its DescIndex gives k back. */
  function SlotOf(g: Geometry, k: int): (s: Slot)
    requires 0 <= k < DescLength(g)
    ensures Inner(g, s) && DescIndex(g, s) == k
  {
    SplitBelow(k, 4 * g.nOrients * InnerW(g), InnerH(g));
    var q := k / InnerH(g);
    SplitBelow(q, 4 * g.nOrients, InnerW(g));
    Slot(q / InnerW(g), q % InnerW(g) + 1, k % InnerH(g) + 1)
  }

  /** The other direction: every inner slot has an entry in the descriptor, and that entry
      holds the slot. */
  lemma SlotOfIndex(g: Geometry, s: Slot)
    requires Inner(g, s)
    ensures 0 <= DescIndex(g, s) < DescLength(g) && SlotOf(g, DescIndex(g, s)) == s
  {
    var a, b := InnerW(g), InnerH(g);
    var q := s.l * a + (s.j - 1);
    PairBelow(s.l, s.j - 1, 4 * g.nOrients, a);
    PairBelow(q, s.i - 1, 4 * g.nOrients * a, b);
    DivModUnique(DescIndex(g, s), b, q, s.i - 1);
    DivModUnique(q, a, s.l, s.j - 1);
  }

  /** The index of G a slot reads, as intended: cell (j, i) of plane l, j * hb + i + l * nb. */
  function ReadIndex(g: Geometry, s: Slot): int
  {
    s.i + s.j * g.Hb() + s.l * g.Hb() * g.Wb()
  }

  /** Plane l of G is variant l / n_orients of orientation l % n_orients, so a slot reads entry
      (l / n_orients, l % n_orients, j, i) of G, inside G. */
  lemma ReadIndexEntry(g: Geometry, s: Slot)
    requires Inner(g, s)
    ensures ReadIndex(g, s) == NormIndex(g, s.l / g.nOrients, s.l % g.nOrients, s.j, s.i)
    ensures 0 <= s.l / g.nOrients < 4 && 0 <= ReadIndex(g, s) < g.NormLength()
  {
    var n := g.nOrients;
    var a, o := s.l / n, s.l % n;
    assert s.l == a * n + o;
    assert s.l * g.Hb() * g.Wb() == s.l * g.Nb();
    assert s.l * g.Nb() == a * g.HistLength() + o * g.Nb() by {
      assert s.l * g.Nb() == (a * n + o) * g.Nb();
      assert (a * n + o) * g.Nb() == a * (n * g.Nb()) + o * g.Nb();
    }
    SplitBelow(s.l, 4, n);
    NormIndexDecomp(g, a, o, s.j, s.i);
  }

  /** The descriptor of a normalized tensor G: entry k is the G entry its slot reads. */
  function Descriptor(g: Geometry, G: seq<real>): (d: seq<real>)
    requires |G| == g.NormLength()
    ensures |d| == DescLength(g)
  {
    seq(DescLength(g), k requires 0 <= k < DescLength(g) =>
      (ReadIndexEntry(g, SlotOf(g, k)); G[ReadIndex(g, SlotOf(g, k))]))
  }

  /** Descriptor entry DescIndex(s) is the G entry slot s reads. */
  lemma DescriptorAt(g: Geometry, G: seq<real>, s: Slot)
    requires |G| == g.NormLength() && Inner(g, s)
    ensures 0 <= DescIndex(g, s) < DescLength(g) && 0 <= ReadIndex(g, s) < |G|
    ensures Descriptor(g, G)[DescIndex(g, s)] == G[ReadIndex(g, s)]
  {
    SlotOfIndex(g, s);
    ReadIndexEntry(g, s);
  }

  /** The running index advances by one per cell, by hb - 2 per column, by (wb - 2) * (hb - 2)
      per slot: the end of a column is the start of the next, and the end of a slot's last
      column the start of the next slot. */
  lemma DescIndexSteps(g: Geometry, l: int, j: int, i: int)
    ensures DescIndex(g, Slot(l, j, i + 1)) == DescIndex(g, Slot(l, j, i)) + 1
    ensures DescIndex(g, Slot(l, j + 1, 1)) == DescIndex(g, Slot(l, j, 1)) + InnerH(g)
    ensures DescIndex(g, Slot(l, j, 1 + InnerH(g))) == DescIndex(g, Slot(l, j + 1, 1))
    ensures DescIndex(g, Slot(l, 1 + InnerW(g), 1)) == DescIndex(g, Slot(l + 1, 1, 1))
  {
    MulSucc(l * InnerW(g) + (j - 1), InnerH(g));
    MulSucc(l, InnerW(g));
  }

  /** The inner cells of one slot's cell column j: i = 1 .. hb - 2, at k, k + 1, ... */
  method AssembleColumn(G: array<real>, g: Geometry, descriptor: array<real>, l: int, j: int, k: int,
                        ghost want: seq<real>)
      returns (k': int)
    requires G.Length == g.NormLength()
    requires want == Descriptor(g, G[..]) && descriptor.Length == |want| && descriptor != G
    requires 0 <= l < 4 * g.nOrients && 1 <= j < g.Wb() - 1
    requires k == DescIndex(g, Slot(l, j, 1)) && 0 <= k <= |want|
    requires forall m :: 0 <= m < k ==> descriptor[m] == want[m]
    modifies descriptor
    ensures k' == DescIndex(g, Slot(l, j + 1, 1)) && k' <= |want|
    ensures forall m :: 0 <= m < k' ==> descriptor[m] == want[m]
  {
    var hb: int, wb: int := g.Hb(), g.Wb();
    k' := k;
    var i := 1;
    while i < hb - 1
      invariant 1 <= i <= 1 + InnerH(g)
      invariant k' == DescIndex(g, Slot(l, j, i)) && 0 <= k' <= |want|
      invariant forall m :: 0 <= m < k' ==> descriptor[m] == want[m]
    {
      DescriptorAt(g, G[..], Slot(l, j, i));
      DescIndexSteps(g, l, j, i);
      var r := i + j * hb + l * hb * wb;
      assert r == ReadIndex(g, Slot(l, j, i));
      descriptor[k'] := G[r];
      k' := k' + 1;
      i := i + 1;
    }
    DescIndexSteps(g, l, j, i);
  }

  /** All cell columns j = 1 .. wb - 2 of slot l. */
  method AssembleSlot(G: array<real>, g: Geometry, descriptor: array<real>, l: int, k: int,
                      ghost want: seq<real>)
      returns (k': int)
    requires G.Length == g.NormLength()
    requires want == Descriptor(g, G[..]) && descriptor.Length == |want| && descriptor != G
    requires 0 <= l < 4 * g.nOrients && k == DescIndex(g, Slot(l, 1, 1)) && 0 <= k <= |want|
    requires forall m :: 0 <= m < k ==> descriptor[m] == want[m]
    modifies descriptor
    ensures k' == DescIndex(g, Slot(l + 1, 1, 1)) && k <= k' <= |want|
    ensures forall m :: 0 <= m < k' ==> descriptor[m] == want[m]
  {
    var wb: int := g.Wb();
    k' := k;
    var j := 1;
    while j < wb - 1
      invariant 1 <= j <= 1 + InnerW(g)
      invariant k' == DescIndex(g, Slot(l, j, 1)) && k <= k' <= |want|
      invariant forall m :: 0 <= m < k' ==> descriptor[m] == want[m]
    {
      DescIndexSteps(g, l, j, 1);
      k' := AssembleColumn(G, g, descriptor, l, j, k', want);
      j := j + 1;
    }
    DescIndexSteps(g, l, j, 1);
  }

  /** The grids whose selection loop ends inside G. Its bounds are unsigned: with wb = 0 the
      column bound wb - 1 wraps around. With wb >= 3 and hb = 0 the column loop runs and its
      row bound hb - 1 wraps, so the loop reads past the end of G. With wb <= 2 the column
      loop never runs, so hb does not matter. */
  predicate SelectionBounded(g: Geometry)
  {
    g.Wb() >= 1 && (g.Wb() >= 3 ==> g.Hb() >= 1)
  }

  /** The selection loop of compute: every inner cell of every slot, in order. */
  method Assemble(G: array<real>, g: Geometry, descriptor: array<real>)
    requires SelectionBounded(g) && G.Length == g.NormLength()
    requires descriptor.Length == DescLength(g) && descriptor != G
    modifies descriptor
    ensures descriptor[..] == Descriptor(g, G[..])
  {
    ghost var want := Descriptor(g, G[..]);
    var k := 0;
    for l := 0 to 4 * g.nOrients
      invariant k == DescIndex(g, Slot(l, 1, 1)) && 0 <= k <= |want|
      invariant forall m :: 0 <= m < k ==> descriptor[m] == want[m]
    {
      k := AssembleSlot(G, g, descriptor, l, k, want);
    }
    assert k == DescLength(g);
  }

  /** Every descriptor entry reads an inner cell of G: slot s holds entry (l / n_orients,
      l % n_orients, j, i), variant l / n_orients of orientation bin l % n_orients at cell
      (j, i). With InnerBlock and Normalize.NormalizedAt, this makes every descriptor entry a
      clipped product of a bin with the norm of one of its cell's blocks: the zeros
      normalization leaves for missing variants at the border never reach the descriptor. */
  lemma DescriptorEntry(g: Geometry, G: seq<real>, s: Slot, a: int, o: int)
    requires |G| == g.NormLength() && Inner(g, s)
    requires a == s.l / g.nOrients && o == s.l % g.nOrients
    ensures 0 <= DescIndex(g, s) < DescLength(g) && 0 <= a < 4 && 0 <= o < g.nOrients
    ensures 0 <= NormIndex(g, a, o, s.j, s.i) < |G|
    ensures Descriptor(g, G)[DescIndex(g, s)] == G[NormIndex(g, a, o, s.j, s.i)]
  {
    ReadIndexEntry(g, s);
    DescriptorAt(g, G, s);
  }

  /** At an inner cell, every variant's block exists. */
  lemma InnerBlock(g: Geometry, a: int, x: int, y: int)
    requires 0 <= a < 4 && 1 <= x < g.Wb() - 1 && 1 <= y < g.Hb() - 1
    ensures IsBlock(g, x - a / 2, y - a % 2)
  {
    AllVariantsInner(g, x, y);
  }

  /** The index compute reads as written: `j * h_ / bin_size_` groups as
      `(j * h_) / bin_size_`, not as `j * (h_ / bin_size_)`. */
  function WrittenIndex(g: Geometry, s: Slot): int
  {
    s.i + (s.j * g.h) / g.binSize + s.l * g.Hb() * g.Wb()
  }

  /** When bin_size divides h the written index is the intended one. */
  lemma WrittenIndexAgrees(g: Geometry, s: Slot)
    requires g.h % g.binSize == 0
    ensures WrittenIndex(g, s) == ReadIndex(g, s)
  {
    assert g.h == g.Hb() * g.binSize;
    assert s.j * g.h == (s.j * g.Hb()) * g.binSize;
    DivModUnique(s.j * g.h, g.binSize, s.j * g.Hb(), 0);
  }

  /** Otherwise it slips. With h = 31, w = 32 and bin_size = 8, slot 0 at inner cell (2, 1) reads
      the border cell (2, 2). With h = 31, w = 80, bin_size = 8 and n_orients = 1, slot 3 at inner
      cell (8, 1) reads past the end of G. */
  lemma WrittenIndexSlips()
    ensures var g := Geometry(31, 32, 8, 9); var s := Slot(0, 2, 1);
      Inner(g, s) && ReadIndex(g, s) == CellIndex(g, 2, 1) &&
      WrittenIndex(g, s) == CellIndex(g, 2, 2) && !Inner(g, Slot(0, 2, 2))
    ensures var g := Geometry(31, 80, 8, 1); var s := Slot(3, 8, 1);
      Inner(g, s) && g.NormLength() == 120 && WrittenIndex(g, s) == 122
  {
  }

  /** The entries of a fresh H (calloc). */
  function Zeros(n: nat): (z: seq<real>)
    ensures |z| == n && forall i :: 0 <= i < n ==> z[i] == 0.0
  {
    seq(n, _ => 0.0)
  }

  /** The descriptor compute writes for image I: the gradient fields, their histogram added to
      zeros, its normalization, and the inner cells of that. */
  function HogDescriptor(I: seq<real>, g: Geometry, d: nat, soft: bool, clip: real, mag: real -> real,
                         orient: (real, real) -> real, rsqrt: real -> real): (desc: seq<real>)
    requires Shape(I, g.h, g.w, d)
    ensures |desc| == DescLength(g)
  {
    var M := MagField(I, g.h, g.w, d, mag);
    var O := OrientField(I, g.h, g.w, d, orient);
    var H := AddAll(g, Zeros(g.HistLength()), ImageContribs(g, soft, M, O, g.W0()));
    Descriptor(g, Normalized(g, H, Blocks(g, EnergyField(g, H), rsqrt), clip))
  }

  /** An orientation function with values in [0, pi) gives an orientation field in [0, pi). */
  lemma OrientFieldRange(I: seq<real>, h: nat, w: nat, d: nat, orient: (real, real) -> real)
    requires Shape(I, h, w, d) && forall a, b :: 0.0 <= orient(a, b) < Pi
    ensures forall i :: 0 <= i < w * h ==> 0.0 <= OrientField(I, h, w, d, orient)[i] < Pi
  {
    var O := OrientField(I, h, w, d, orient);
    forall i | 0 <= i < w * h
      ensures 0.0 <= O[i] < Pi
    {
      CellOf(h, w, i);
      assert O[i] == PixelOrient(I, h, w, d, orient, i / h, i % h);
    }
  }

  /** The cell grids compute stays inside its arrays on: those of normalization (Normalize.SafeGrid)
      and of the selection loop, and, for soft binning, at least one cell row (Binning.GradHist).
      That is, at least two cells each way, or a single cell column of one or two cell rows (or,
      without soft binning, of none), where the descriptor is empty. */
  predicate Computable(g: Geometry, soft: bool)
  {
    SafeGrid(g) && g.Wb() >= 1 && (soft ==> g.Hb() >= 1)
  }

  /** On such a grid each stage's own bound holds. */
  lemma ComputableStages(g: Geometry, soft: bool)
    requires Computable(g, soft)
    ensures SafeGrid(g) && SelectionBounded(g)
    ensures soft && g.binSize != 1 && g.Wb() >= 1 ==> g.Hb() >= 1
    ensures DescLength(g) > 0 <==> g.Wb() >= 3 && g.Hb() >= 3
  {
  }

  /** With bin size 8, an 8 x 8 image and an 8-wide, 16-high one are accepted and give an empty
      descriptor. A 16-wide, 8-high image (one cell row, two columns) and an 8-wide, 24-high one
      (one column, three rows) are not: normalization would read outside N there. With no cell
      row, the selection loop stays in bounds over two cell columns but not over three. */
  lemma SmallGrids()
    ensures Computable(Geometry(8, 8, 8, 9), true) && DescLength(Geometry(8, 8, 8, 9)) == 0
    ensures Computable(Geometry(16, 8, 8, 9), true) && DescLength(Geometry(16, 8, 8, 9)) == 0
    ensures !Computable(Geometry(8, 16, 8, 9), true) && !Computable(Geometry(24, 8, 8, 9), true)
    ensures SelectionBounded(Geometry(0, 16, 8, 9)) && !SelectionBounded(Geometry(0, 24, 8, 9))
  {
  }

  /** The descriptor extractor: its parameters, set to defaults on construction and replaced by
      compute(I, h, w, ...). */
  class HOG {
    var h: int
    var w: int
    var nChannels: int
    var binSize: int
    var nOrients: int
    var softBin: bool
    var clip: real

    /** The parameters compute can run with: a positive bin size and number of orientations, at
        least one channel, two pixels each way for the gradient, and a cell grid on which every
        stage stays inside its arrays. */
    predicate Ready()
      reads this
    {
      binSize >= 1 && nOrients >= 1 && nChannels >= 1 && h >= 2 && w >= 2 &&
      Computable(Geom(), softBin)
    }

    function Geom(): (g: Geometry)
      requires binSize >= 1 && nOrients >= 1 && h >= 0 && w >= 0
      reads this
      ensures g.h == h && g.w == w && g.binSize == binSize && g.nOrients == nOrients
    {
      Geometry(h, w, binSize, nOrients)
    }

    /** The defaults: a 128 x 64 window of 3 channels, 8 x 8 cells, 9 orientations, soft
        binning, clipping at 0.2; these give a descriptor of 3024 entries. */
    constructor()
      ensures h == 128 && w == 64 && nChannels == 3 && binSize == 8 && nOrients == 9
      ensures softBin && clip == 0.2
      ensures Ready() && DescLength(Geom()) == 3024
    {
      h := 128;
      w := 64;
      nChannels := 3;
      binSize := 8;
      nOrients := 9;
      softBin := true;
      clip := 0.2;
    }

    /** compute(I, descriptor): gradient, histogram, normalization, then the inner cells. */
    method Compute(I: array<real>, mag: real -> real, orient: (real, real) -> real, rsqrt: real -> real,
                   descriptor: array<real>)
      requires Ready() && Shape(I[..], h, w, nChannels)
      requires forall a, b :: 0.0 <= orient(a, b) < Pi
      requires descriptor.Length == DescLength(Geom()) && descriptor != I
      modifies descriptor
      ensures descriptor[..] == HogDescriptor(I[..], Geom(), nChannels, softBin, clip, mag, orient, rsqrt)
    {
      var g := Geometry(h, w, binSize, nOrients);
      var M := new real[w * h];
      var O := new real[w * h];
      var H := new real[g.HistLength()](_ => 0.0);
      var G := new real[g.NormLength()](_ => 0.0);
      GradMag(I, h, w, nChannels, mag, orient, M, O);
      OrientFieldRange(I[..], h, w, nChannels, orient);
      assert H[..] == Zeros(g.HistLength());
      GradHist(M, O, g, softBin, H);
      Normalization(H, g, clip, rsqrt, G);
      Assemble(G, g, descriptor);
    }

    /** compute(I, h, w, n_channels, bin_size, n_orients, soft_bin, descriptor): replaces every
        parameter except clip, then computes. */
    method ComputeWith(I: array<real>, h: int, w: int, nChannels: int, binSize: int, nOrients: int,
                       softBin: bool, mag: real -> real, orient: (real, real) -> real,
                       rsqrt: real -> real, descriptor: array<real>)
      requires binSize >= 1 && nOrients >= 1 && nChannels >= 1 && h >= 2 && w >= 2
      requires Computable(Geometry(h, w, binSize, nOrients), softBin) && Shape(I[..], h, w, nChannels)
      requires forall a, b :: 0.0 <= orient(a, b) < Pi
      requires descriptor.Length == DescLength(Geometry(h, w, binSize, nOrients)) && descriptor != I
      modifies this, descriptor
      ensures this.h == h && this.w == w && this.nChannels == nChannels && this.binSize == binSize
      ensures this.nOrients == nOrients && this.softBin == softBin && clip == old(clip)
      ensures descriptor[..] ==
        HogDescriptor(I[..], Geometry(h, w, binSize, nOrients), nChannels, softBin, clip, mag, orient, rsqrt)
    {
      this.h := h;
      this.w := w;
      this.nChannels := nChannels;
      this.binSize := binSize;
      this.nOrients := nOrients;
      this.softBin := softBin;
      Compute(I, mag, orient, rsqrt, descriptor);
    }
  }
}
