/** The cell grid of a HOG computation and the flat layouts of its buffers.

    An image of h rows and w columns is cut into bin_size x bin_size cells: hb = h / bin_size
    rows and wb = w / bin_size columns of cells (truncating division: a partial trailing row or
    column of pixels belongs to no cell). A histogram plane holds nb = wb * hb cells in
    column-major order, and the histogram H holds one plane per orientation bin, so entry
    (o, x, y) sits at o * nb + x * hb + y. The normalized tensor G holds four such histograms,
    one per normalization variant a, at a * n_orients * nb + (o * nb + x * hb + y). */
module Grid {
  import opened Numeric

  type Pos = n: int | n >= 1 witness 1

  datatype Geometry = Geometry(h: nat, w: nat, binSize: Pos, nOrients: Pos) {
    /** Cell rows, cell columns, cells per plane, covered pixel rows and columns. */
    function Hb(): nat { h / binSize }
    function Wb(): nat { w / binSize }
    function Nb(): nat { Wb() * Hb() }
    function H0(): nat { Hb() * binSize }
    function W0(): nat { Wb() * binSize }
    /** Length of H (the source allocates `wb * hb * n_orients` floats). */
    function HistLength(): nat { Nb() * nOrients }
    /** Length of G (four variants). */
    function NormLength(): nat { HistLength() * 4 }
  }

  /** Index of cell (x, y) in one plane. */
  function CellIndex(g: Geometry, x: int, y: int): int { x * g.Hb() + y }

  /** Index of orientation bin o of cell (x, y) in H. */
  function HistIndex(g: Geometry, o: int, x: int, y: int): int { o * g.Nb() + CellIndex(g, x, y) }

  /** Index of variant a of orientation bin o of cell (x, y) in G. */
  function NormIndex(g: Geometry, a: int, o: int, x: int, y: int): int
  {
    a * g.HistLength() + HistIndex(g, o, x, y)
  }

  /** The covered pixels are exactly those of whole cells, and there are never more of them
      than the image has. */
  lemma CoveredExtent(g: Geometry)
    ensures g.H0() <= g.h < g.H0() + g.binSize
    ensures g.W0() <= g.w < g.W0() + g.binSize
  {
    DivModUnique(g.h, g.binSize, g.h / g.binSize, g.h % g.binSize);
    DivModUnique(g.w, g.binSize, g.w / g.binSize, g.w % g.binSize);
  }

  /** A cell of the grid has a plane index inside the plane, and that index gives the cell
      back. */
  lemma CellIndexDecomp(g: Geometry, x: int, y: int)
    requires 0 <= x < g.Wb() && 0 <= y < g.Hb()
    ensures 0 <= CellIndex(g, x, y) < g.Nb()
    ensures CellIndex(g, x, y) / g.Hb() == x && CellIndex(g, x, y) % g.Hb() == y
  {
    PairBelow(x, y, g.Wb(), g.Hb());
    DivModUnique(CellIndex(g, x, y), g.Hb(), x, y);
  }

  /** A cell of the grid lies inside a plane, and its bins inside H. */
  lemma HistIn(g: Geometry, o: int, x: int, y: int)
    requires 0 <= o < g.nOrients && 0 <= x < g.Wb() && 0 <= y < g.Hb()
    ensures 0 <= CellIndex(g, x, y) < g.Nb() && 0 <= HistIndex(g, o, x, y) < g.HistLength()
  {
    PairBelow(x, y, g.Wb(), g.Hb());
    PairBelow(o, CellIndex(g, x, y), g.nOrients, g.Nb());
  }

  /** Every plane index is the index of exactly one cell. */
  lemma CellOfIndex(g: Geometry, c: int)
    requires 0 <= c < g.Nb()
    ensures 0 <= c / g.Hb() < g.Wb() && 0 <= c % g.Hb() < g.Hb()
    ensures c == CellIndex(g, c / g.Hb(), c % g.Hb())
  {
    var hb := g.Hb();
    if c / hb >= g.Wb() {
      MulMono(c / hb, g.Wb(), hb);
      assert false;
    }
  }

  /** An entry of H lies inside H, and its index gives back its bin and its cell. */
  lemma HistIndexDecomp(g: Geometry, o: int, x: int, y: int)
    requires 0 <= o < g.nOrients && 0 <= x < g.Wb() && 0 <= y < g.Hb()
    ensures 0 <= HistIndex(g, o, x, y) < g.HistLength()
    ensures HistIndex(g, o, x, y) / g.Nb() == o
    ensures HistIndex(g, o, x, y) % g.Nb() == CellIndex(g, x, y)
  {
    CellIndexDecomp(g, x, y);
    PairBelow(o, CellIndex(g, x, y), g.nOrients, g.Nb());
    DivModUnique(HistIndex(g, o, x, y), g.Nb(), o, CellIndex(g, x, y));
  }

  /** An entry of G lies inside G, and its index gives back its variant, bin and cell. */
  lemma NormIndexDecomp(g: Geometry, a: int, o: int, x: int, y: int)
    requires 0 <= a < 4 && 0 <= o < g.nOrients && 0 <= x < g.Wb() && 0 <= y < g.Hb()
    ensures 0 <= NormIndex(g, a, o, x, y) < g.NormLength()
    ensures NormIndex(g, a, o, x, y) / g.HistLength() == a
    ensures NormIndex(g, a, o, x, y) % g.HistLength() == HistIndex(g, o, x, y)
  {
    HistIndexDecomp(g, o, x, y);
    PairBelow(a, HistIndex(g, o, x, y), 4, g.HistLength());
    DivModUnique(NormIndex(g, a, o, x, y), g.HistLength(), a, HistIndex(g, o, x, y));
  }
}
