/** normalization of the HOG class: four block normalizations of every cell histogram.

    The energy of a cell is the sum of the squares of its n_orients bins. Every 2 x 2 block of
    cells whose top-left cell is (x, y), with x < wb - 1 and y < hb - 1, gets the norm
    1 / sqrt(energy of its four cells + eps), stored in place of the energy of its top-left cell.
    Variant a of cell (x, y) divides the cell's histogram by the norm of the block that holds the
    cell at its right (a / 2 = 0) or left (a / 2 = 1) column and at its bottom (a % 2 = 0) or top
    (a % 2 = 1) row, that is the block whose top-left cell is (x - a / 2, y - a % 2), and clips
    the result at clip; a variant whose block does not exist stays 0. The reciprocal square
    root is supplied as the function `rsqrt`. */
module Normalize {
  import opened Numeric
  import opened Grid

  /** eps = 1e-4 / 4 / bin_size^4, which keeps every block energy away from 0. */
  function Eps(bs: Pos): (e: real)
    ensures 0.0 < e
  {
    var s := bs as real;
    assert 0.0001 / 4.0 / s > 0.0;
    assert 0.0001 / 4.0 / s / s > 0.0;
    assert 0.0001 / 4.0 / s / s / s > 0.0;
    0.0001 / 4.0 / s / s / s / s
  }

  /** Plane o of H lies inside H. */
  lemma PlaneIn(g: Geometry, o: int)
    requires 0 <= o < g.nOrients
    ensures 0 <= o * g.Nb() && o * g.Nb() + g.Nb() <= g.HistLength()
  {
    MulMono(g.nOrients, o + 1, g.Nb());
    MulMono(o, 0, g.Nb());
  }

  /** The energy of cell c over the planes 0 .. k - 1: the sum of the squares of its bins. */
  function Energy(g: Geometry, H: seq<real>, c: int, k: nat): (e: real)
    requires |H| == g.HistLength() && 0 <= c < g.Nb() && k <= g.nOrients
    ensures 0.0 <= e
  {
    if k == 0 then 0.0
    else
      PlaneIn(g, k - 1);
      var v := H[c + (k - 1) * g.Nb()];
      Energy(g, H, c, k - 1) + v * v
  }

  /** The energy of every cell of the plane. */
  function EnergyField(g: Geometry, H: seq<real>): (E: seq<real>)
    requires |H| == g.HistLength()
    ensures |E| == g.Nb() && forall c :: 0 <= c < |E| ==> 0.0 <= E[c]
  {
    seq(g.Nb(), c requires 0 <= c < g.Nb() => Energy(g, H, c, g.nOrients))
  }

  /** The first loop of normalization: N[x] accumulates the squares of the bins of cell x,
      plane by plane. */
  method Energies(H: array<real>, g: Geometry) returns (N: array<real>)
    requires H.Length == g.HistLength()
    ensures fresh(N) && N.Length == g.Nb() && N[..] == EnergyField(g, H[..])
  {
    var nb := g.Nb();
    N := new real[nb](_ => 0.0);
    for o := 0 to g.nOrients
      invariant forall c :: 0 <= c < nb ==> N[c] == Energy(g, H[..], c, o)
    {
      PlaneIn(g, o);
      for x := 0 to nb
        invariant forall c :: 0 <= c < nb ==> N[c] == Energy(g, H[..], c, if c < x then o + 1 else o)
      {
        N[x] := N[x] + H[x + o * nb] * H[x + o * nb];
      }
    }
  }

  /** The grids on which normalization stays inside its arrays: no cell column (every loop
      is empty), a single cell column of at most two rows (it is both the first and the last
      column, so every variant is switched off), or at least two cell columns and two cell
      rows. A single column of three or more rows reads N before its start for variant 2, a
      single row of two or more columns reads N[-1] for variant 1, and no row at all under
      two or more columns reads the empty H for variant 0. */
  predicate SafeGrid(g: Geometry)
  {
    g.Wb() == 0 || (g.Wb() == 1 && g.Hb() <= 2) || (g.Wb() >= 2 && g.Hb() >= 2)
  }

  /** Cell (x, y) is the top-left cell of a 2 x 2 block of the grid. */
  predicate IsBlock(g: Geometry, x: int, y: int)
  {
    0 <= x < g.Wb() - 1 && 0 <= y < g.Hb() - 1
  }

  /** The four cells of a block are cells of the grid, at plane offsets i, i + 1, i + hb and
      i + hb + 1 from its top-left cell i. */
  lemma BlockCells(g: Geometry, x: int, y: int)
    requires IsBlock(g, x, y)
    ensures var i := CellIndex(g, x, y);
      0 <= i && i + g.Hb() + 1 < g.Nb() &&
      i + 1 == CellIndex(g, x, y + 1) && i + g.Hb() == CellIndex(g, x + 1, y) &&
      i + g.Hb() + 1 == CellIndex(g, x + 1, y + 1)
  {
    PairBelow(x + 1, y + 1, g.Wb(), g.Hb());
    MulMono(x, 0, g.Hb());
  }

  /** The energy of the block at (x, y) plus eps: the argument of the square root. It is at
      least eps when the energies are not negative, so the root is never taken of 0. */
  function BlockEnergy(g: Geometry, E: seq<real>, x: int, y: int): (r: real)
    requires |E| == g.Nb() && IsBlock(g, x, y)
    ensures (forall c :: 0 <= c < |E| ==> 0.0 <= E[c]) ==> Eps(g.binSize) <= r
  {
    BlockCells(g, x, y);
    var i := CellIndex(g, x, y);
    E[i] + E[i + 1] + E[i + g.Hb()] + E[i + g.Hb() + 1] + Eps(g.binSize)
  }

  function BlockNorm(g: Geometry, E: seq<real>, rsqrt: real -> real, x: int, y: int): real
    requires |E| == g.Nb() && IsBlock(g, x, y)
  {
    rsqrt(BlockEnergy(g, E, x, y))
  }

  /** N after the block loop: the norm of each block in place of the energy of its top-left
      cell; the energies of the last cell row and the last cell column stay. */
  function Blocks(g: Geometry, E: seq<real>, rsqrt: real -> real): (N: seq<real>)
    requires |E| == g.Nb()
    ensures |N| == |E|
  {
    seq(|E|, c requires 0 <= c < |E| =>
      (CellOfIndex(g, c);
       if IsBlock(g, c / g.Hb(), c % g.Hb()) then BlockNorm(g, E, rsqrt, c / g.Hb(), c % g.Hb()) else E[c]))
  }

  /** What Blocks holds at a cell of the grid. */
  lemma BlocksAt(g: Geometry, E: seq<real>, rsqrt: real -> real, x: int, y: int)
    requires |E| == g.Nb() && 0 <= x < g.Wb() && 0 <= y < g.Hb()
    ensures 0 <= CellIndex(g, x, y) < g.Nb()
    ensures Blocks(g, E, rsqrt)[CellIndex(g, x, y)] ==
      if IsBlock(g, x, y) then BlockNorm(g, E, rsqrt, x, y) else E[CellIndex(g, x, y)]
  {
    CellIndexDecomp(g, x, y);
  }

  /** A cell at or past the start of cell column wb - 1 is not the top-left cell of a block. */
  lemma PastBlocks(g: Geometry, c: int)
    requires 0 <= c < g.Nb() && (g.Wb() - 1) * g.Hb() <= c
    ensures 0 <= c / g.Hb() < g.Wb() && !IsBlock(g, c / g.Hb(), c % g.Hb())
  {
    CellOfIndex(g, c);
    if c / g.Hb() < g.Wb() - 1 {
      MulMono(g.Wb() - 1, c / g.Hb() + 1, g.Hb());
    }
  }

  /** The second loop of normalization, in place: block (x, y) reads the energies at i, i + 1,
      i + hb and i + hb + 1, none of which an earlier block has overwritten, so every block
      norm is computed from energies. */
  method BlockNorms(N: array<real>, g: Geometry, rsqrt: real -> real)
    requires N.Length == g.Nb()
    modifies N
    ensures N[..] == Blocks(g, old(N[..]), rsqrt)
  {
    ghost var E := N[..];
    ghost var B := Blocks(g, E, rsqrt);
    var hb: int := g.Hb();
    var x: int := 0;
    ghost var start := 0;
    while x < g.Wb() - 1
      invariant 0 <= x && (x <= g.Wb() - 1 || x == 0) && start == CellIndex(g, x, 0)
      invariant forall c :: 0 <= c < |E| ==> N[c] == if c < start then B[c] else E[c]
    {
      BlockColumn(N, g, rsqrt, x, E, B);
      start := start + hb;
      x := x + 1;
    }
    forall c | 0 <= c < |E| && start <= c
      ensures B[c] == E[c]
    {
      PastBlocks(g, c);
    }
  }

  /** The blocks whose top-left cell is in cell column x. */
  method BlockColumn(N: array<real>, g: Geometry, rsqrt: real -> real, x: int,
                     ghost E: seq<real>, ghost B: seq<real>)
    requires N.Length == g.Nb() && |E| == g.Nb() && B == Blocks(g, E, rsqrt) && 0 <= x < g.Wb() - 1
    requires forall c :: 0 <= c < |E| ==> N[c] == if c < CellIndex(g, x, 0) then B[c] else E[c]
    modifies N
    ensures forall c :: 0 <= c < |E| ==> N[c] == if c < CellIndex(g, x + 1, 0) then B[c] else E[c]
  {
    var hb: int := g.Hb();
    var eps := Eps(g.binSize);
    var y: int := 0;
    while y < hb - 1
      invariant 0 <= y && (y <= hb - 1 || y == 0)
      invariant forall c :: 0 <= c < |E| ==> N[c] == if c < CellIndex(g, x, y) then B[c] else E[c]
    {
      var i := x * hb + y;
      BlockCells(g, x, y);
      BlocksAt(g, E, rsqrt, x, y);
      N[i] := rsqrt(N[i] + N[i + 1] + N[i + hb] + N[i + hb + 1] + eps);
      y := y + 1;
    }
    if hb >= 1 {
      PairBelow(x, hb - 1, g.Wb(), hb);
      BlocksAt(g, E, rsqrt, x, hb - 1);
    }
    assert CellIndex(g, x + 1, 0) == CellIndex(g, x, 0) + hb by { MulSucc(x, hb); }
  }

  /** Where an entry of G lives: variant a, orientation o, cell (x, y). */
  datatype Entry = Entry(a: int, o: int, x: int, y: int)

  /** The entry at index i of G; its NormIndex gives i back. */
  function EntryOf(g: Geometry, i: int): (e: Entry)
    requires 0 <= i < g.NormLength()
    ensures 0 <= e.a < 4 && 0 <= e.o < g.nOrients && 0 <= e.x < g.Wb() && 0 <= e.y < g.Hb()
    ensures NormIndex(g, e.a, e.o, e.x, e.y) == i
  {
    var hl := g.HistLength();
    SplitBelow(i, 4, hl);
    var r := i % hl;
    SplitBelow(r, g.nOrients, g.Nb());
    var c := r % g.Nb();
    CellOfIndex(g, c);
    Entry(i / hl, r / g.Nb(), c / g.Hb(), c % g.Hb())
  }

  /** The other direction of the round trip: the entry of the index of an entry is the entry. */
  lemma EntryOfIndex(g: Geometry, a: int, o: int, x: int, y: int)
    requires 0 <= a < 4 && 0 <= o < g.nOrients && 0 <= x < g.Wb() && 0 <= y < g.Hb()
    ensures 0 <= NormIndex(g, a, o, x, y) < g.NormLength()
    ensures EntryOf(g, NormIndex(g, a, o, x, y)) == Entry(a, o, x, y)
  {
    NormIndexDecomp(g, a, o, x, y);
    HistIndexDecomp(g, o, x, y);
    CellIndexDecomp(g, x, y);
  }

  /** The clip of the source: a value above clip is replaced by clip. */
  function Clip(v: real, clip: real): real
  {
    if v > clip then clip else v
  }

  /** The value normalization writes for an entry, given H and the N of the block loop: the
      cell's bin times the norm of the variant's block, clipped; 0 where that block does not
      exist. */
  function Variant(g: Geometry, H: seq<real>, N: seq<real>, clip: real, e: Entry): real
    requires |H| == g.HistLength() && |N| == g.Nb()
    requires 0 <= e.a < 4 && 0 <= e.o < g.nOrients && 0 <= e.x < g.Wb() && 0 <= e.y < g.Hb()
  {
    var cx := e.x - e.a / 2;
    var cy := e.y - e.a % 2;
    if IsBlock(g, cx, cy) then
      HistIn(g, e.o, e.x, e.y);
      HistIn(g, e.o, cx, cy);
      Clip(H[HistIndex(g, e.o, e.x, e.y)] * N[CellIndex(g, cx, cy)], clip)
    else 0.0
  }

  /** G as normalization leaves it. */
  function Normalized(g: Geometry, H: seq<real>, N: seq<real>, clip: real): (G: seq<real>)
    requires |H| == g.HistLength() && |N| == g.Nb()
    ensures |G| == g.NormLength()
  {
    seq(g.NormLength(), i requires 0 <= i < g.NormLength() => Variant(g, H, N, clip, EntryOf(g, i)))
  }

  /** The offset b of the source's U(a, b): how far back in N the norm of variant a's block is
      from the cell itself. */
  function Back(g: Geometry, a: int): int
  {
    if a == 0 then 0 else if a == 1 then 1 else if a == 2 then g.Hb() else g.Hb() + 1
  }

  /** Going back b from cell (x, y) lands on the top-left cell of variant a's block. */
  lemma BackToBlock(g: Geometry, a: int, x: int, y: int)
    requires 0 <= a < 4 && IsBlock(g, x - a / 2, y - a % 2)
    ensures CellIndex(g, x, y) - Back(g, a) == CellIndex(g, x - a / 2, y - a % 2)
    ensures 0 <= CellIndex(g, x - a / 2, y - a % 2) < g.Nb()
  {
    MulSucc(x - 1, g.Hb());
    CellIndexDecomp(g, x - a / 2, y - a % 2);
  }

  /** The U(a, b) step of the source: entry (a, o, x, y) of G receives bin (o, x, y) of H times
      N at x * hb + y - b, clipped at clip. The source calls it only when that N entry is the
      norm of a block. */
  method Emit(G: array<real>, H: array<real>, N: array<real>, g: Geometry, clip: real,
              a: int, o: int, x: int, y: int)
    requires G.Length == g.NormLength() && H.Length == g.HistLength() && N.Length == g.Nb()
    requires G != H && G != N
    requires 0 <= a < 4 && 0 <= o < g.nOrients && 0 <= x < g.Wb() && 0 <= y < g.Hb()
    requires IsBlock(g, x - a / 2, y - a % 2)
    modifies G
    ensures forall i :: 0 <= i < G.Length ==>
      G[i] == if i == NormIndex(g, a, o, x, y) then Variant(g, H[..], N[..], clip, Entry(a, o, x, y)) else old(G[i])
  {
    var hb, nb := g.Hb(), g.Nb();
    EmitIndices(g, a, o, x, y);
    var h1, n1 := o * nb + x * hb, x * hb;
    var v := NormValue(H, N, clip, h1 + y, n1 + y - Back(g, a), g, Entry(a, o, x, y));
    var gs := a * (nb * g.nOrients) + h1;
    G[gs + y] := v;
  }

  /** The value of U(a, b): the bin `H1[y]` times the norm `N1[y - b]`, clipped. */
  method NormValue(H: array<real>, N: array<real>, clip: real, hi: int, ni: int,
                   ghost g: Geometry, ghost e: Entry) returns (v: real)
    requires H.Length == g.HistLength() && N.Length == g.Nb()
    requires 0 <= e.a < 4 && 0 <= e.o < g.nOrients && 0 <= e.x < g.Wb() && 0 <= e.y < g.Hb()
    requires IsBlock(g, e.x - e.a / 2, e.y - e.a % 2)
    requires hi == HistIndex(g, e.o, e.x, e.y) && ni == CellIndex(g, e.x - e.a / 2, e.y - e.a % 2)
    ensures v == Variant(g, H[..], N[..], clip, e)
  {
    VariantAt(g, H[..], N[..], clip, e);
    v := H[hi] * N[ni];
    if v > clip {
      v := clip;
    }
  }

  /** The offsets Emit computes: the bin of H, the block norm in N and the entry of G. */
  lemma EmitIndices(g: Geometry, a: int, o: int, x: int, y: int)
    requires 0 <= a < 4 && 0 <= o < g.nOrients && 0 <= x < g.Wb() && 0 <= y < g.Hb()
    requires IsBlock(g, x - a / 2, y - a % 2)
    ensures o * g.Nb() + x * g.Hb() + y == HistIndex(g, o, x, y) < g.HistLength()
    ensures x * g.Hb() + y - Back(g, a) == CellIndex(g, x - a / 2, y - a % 2)
    ensures 0 <= CellIndex(g, x - a / 2, y - a % 2) < g.Nb()
    ensures 0 <= HistIndex(g, o, x, y) && 0 <= NormIndex(g, a, o, x, y) < g.NormLength()
    ensures a * (g.Nb() * g.nOrients) + (o * g.Nb() + x * g.Hb()) + y == NormIndex(g, a, o, x, y)
  {
    NormIndexDecomp(g, a, o, x, y);
    BackToBlock(g, a, x, y);
    HistIn(g, o, x, y);
  }

  /** The variant of an entry whose block exists. */
  lemma VariantAt(g: Geometry, H: seq<real>, N: seq<real>, clip: real, e: Entry)
    requires |H| == g.HistLength() && |N| == g.Nb()
    requires 0 <= e.a < 4 && 0 <= e.o < g.nOrients && 0 <= e.x < g.Wb() && 0 <= e.y < g.Hb()
    requires IsBlock(g, e.x - e.a / 2, e.y - e.a % 2)
    ensures 0 <= HistIndex(g, e.o, e.x, e.y) < |H| && 0 <= CellIndex(g, e.x - e.a / 2, e.y - e.a % 2) < |N|
    ensures Variant(g, H, N, clip, e) ==
      Clip(H[HistIndex(g, e.o, e.x, e.y)] * N[CellIndex(g, e.x - e.a / 2, e.y - e.a % 2)], clip)
  {
    HistIn(g, e.o, e.x, e.y);
    HistIn(g, e.o, e.x - e.a / 2, e.y - e.a % 2);
  }

  /** Entry e belongs to cell (x, y) of plane o. */
  predicate AtCell(e: Entry, o: int, x: int, y: int)
  {
    e.o == o && e.x == x && e.y == y
  }

  /** One row y of the column of cell column x in plane o: the first row writes the variants
      with a block below it, the last row those with a block above it, and the rows between
      write two variants in the first and the last cell column and four elsewhere. These are
      exactly the variants whose block exists. */
  method NormRow(G: array<real>, H: array<real>, N: array<real>, g: Geometry, clip: real,
                 o: int, x: int, y: int, ghost T: seq<real>)
    requires G.Length == g.NormLength() && H.Length == g.HistLength() && N.Length == g.Nb()
    requires G != H && G != N && SafeGrid(g)
    requires T == Normalized(g, H[..], N[..], clip)
    requires 0 <= o < g.nOrients && 0 <= x < g.Wb() && 0 <= y < g.Hb()
    requires forall i :: 0 <= i < G.Length && AtCell(EntryOf(g, i), o, x, y) ==> G[i] == 0.0
    modifies G
    ensures forall i :: 0 <= i < G.Length ==>
      G[i] == if AtCell(EntryOf(g, i), o, x, y) then T[i] else old(G[i])
  {
    if y == 0 {
      TopRow(G, H, N, g, clip, o, x, y, T);
    } else if y < g.Hb() - 1 {
      if x == 0 {
        LeftCell(G, H, N, g, clip, o, x, y, T);
      }
      if x != 0 && x != g.Wb() - 1 {
        InnerCell(G, H, N, g, clip, o, x, y, T);
      }
      if x == g.Wb() - 1 {
        RightCell(G, H, N, g, clip, o, x, y, T);
      }
    } else {
      BottomRow(G, H, N, g, clip, o, x, y, T);
    }
  }

  /** The first row: variant 0 unless in the last cell column, variant 2 unless in the first. */
  method TopRow(G: array<real>, H: array<real>, N: array<real>, g: Geometry, clip: real,
                 o: int, x: int, y: int, ghost T: seq<real>)
    requires G.Length == g.NormLength() && H.Length == g.HistLength() && N.Length == g.Nb()
    requires G != H && G != N && SafeGrid(g)
    requires T == Normalized(g, H[..], N[..], clip)
    requires 0 <= o < g.nOrients && 0 <= x < g.Wb() && y == 0 < g.Hb()
    requires forall i :: 0 <= i < G.Length && AtCell(EntryOf(g, i), o, x, y) ==> G[i] == 0.0
    modifies G
    ensures forall i :: 0 <= i < G.Length ==>
      G[i] == if AtCell(EntryOf(g, i), o, x, y) then T[i] else old(G[i])
  {
    EntryOfIndex(g, 0, o, x, y);
    EntryOfIndex(g, 1, o, x, y);
    EntryOfIndex(g, 2, o, x, y);
    EntryOfIndex(g, 3, o, x, y);
    if x != g.Wb() - 1 { Emit(G, H, N, g, clip, 0, o, x, y); }
    if x != 0 { Emit(G, H, N, g, clip, 2, o, x, y); }
  }

  /** The last row: variant 1 unless in the last cell column, variant 3 unless in the first. */
  method BottomRow(G: array<real>, H: array<real>, N: array<real>, g: Geometry, clip: real,
                 o: int, x: int, y: int, ghost T: seq<real>)
    requires G.Length == g.NormLength() && H.Length == g.HistLength() && N.Length == g.Nb()
    requires G != H && G != N && SafeGrid(g)
    requires T == Normalized(g, H[..], N[..], clip)
    requires 0 <= o < g.nOrients && 0 <= x < g.Wb() && y == g.Hb() - 1 && 0 < y
    requires forall i :: 0 <= i < G.Length && AtCell(EntryOf(g, i), o, x, y) ==> G[i] == 0.0
    modifies G
    ensures forall i :: 0 <= i < G.Length ==>
      G[i] == if AtCell(EntryOf(g, i), o, x, y) then T[i] else old(G[i])
  {
    EntryOfIndex(g, 0, o, x, y);
    EntryOfIndex(g, 1, o, x, y);
    EntryOfIndex(g, 2, o, x, y);
    EntryOfIndex(g, 3, o, x, y);
    if x != g.Wb() - 1 { Emit(G, H, N, g, clip, 1, o, x, y); }
    if x != 0 { Emit(G, H, N, g, clip, 3, o, x, y); }
  }

  /** A middle row of the first cell column: variants 0 and 1. */
  method LeftCell(G: array<real>, H: array<real>, N: array<real>, g: Geometry, clip: real,
                 o: int, x: int, y: int, ghost T: seq<real>)
    requires G.Length == g.NormLength() && H.Length == g.HistLength() && N.Length == g.Nb()
    requires G != H && G != N && SafeGrid(g)
    requires T == Normalized(g, H[..], N[..], clip)
    requires 0 <= o < g.nOrients && 0 <= x < g.Wb() && 0 < y < g.Hb() - 1 && x == 0
    requires forall i :: 0 <= i < G.Length && AtCell(EntryOf(g, i), o, x, y) ==> G[i] == 0.0
    modifies G
    ensures forall i :: 0 <= i < G.Length ==>
      G[i] == if AtCell(EntryOf(g, i), o, x, y) then T[i] else old(G[i])
  {
    EntryOfIndex(g, 0, o, x, y);
    EntryOfIndex(g, 1, o, x, y);
    EntryOfIndex(g, 2, o, x, y);
    EntryOfIndex(g, 3, o, x, y);
    Emit(G, H, N, g, clip, 0, o, x, y);
    Emit(G, H, N, g, clip, 1, o, x, y);
  }

  /** A middle row of the last cell column: variants 2 and 3. */
  method RightCell(G: array<real>, H: array<real>, N: array<real>, g: Geometry, clip: real,
                 o: int, x: int, y: int, ghost T: seq<real>)
    requires G.Length == g.NormLength() && H.Length == g.HistLength() && N.Length == g.Nb()
    requires G != H && G != N && SafeGrid(g)
    requires T == Normalized(g, H[..], N[..], clip)
    requires 0 <= o < g.nOrients && 0 <= x < g.Wb() && 0 < y < g.Hb() - 1 && x == g.Wb() - 1 && x != 0
    requires forall i :: 0 <= i < G.Length && AtCell(EntryOf(g, i), o, x, y) ==> G[i] == 0.0
    modifies G
    ensures forall i :: 0 <= i < G.Length ==>
      G[i] == if AtCell(EntryOf(g, i), o, x, y) then T[i] else old(G[i])
  {
    EntryOfIndex(g, 0, o, x, y);
    EntryOfIndex(g, 1, o, x, y);
    EntryOfIndex(g, 2, o, x, y);
    EntryOfIndex(g, 3, o, x, y);
    Emit(G, H, N, g, clip, 2, o, x, y);
    Emit(G, H, N, g, clip, 3, o, x, y);
  }

  /** An inner cell: all four variants. */
  method InnerCell(G: array<real>, H: array<real>, N: array<real>, g: Geometry, clip: real,
                 o: int, x: int, y: int, ghost T: seq<real>)
    requires G.Length == g.NormLength() && H.Length == g.HistLength() && N.Length == g.Nb()
    requires G != H && G != N && SafeGrid(g)
    requires T == Normalized(g, H[..], N[..], clip)
    requires 0 <= o < g.nOrients && 0 <= x < g.Wb() && 0 < y < g.Hb() - 1 && 0 < x < g.Wb() - 1
    requires forall i :: 0 <= i < G.Length && AtCell(EntryOf(g, i), o, x, y) ==> G[i] == 0.0
    modifies G
    ensures forall i :: 0 <= i < G.Length ==>
      G[i] == if AtCell(EntryOf(g, i), o, x, y) then T[i] else old(G[i])
  {
    EntryOfIndex(g, 0, o, x, y);
    EntryOfIndex(g, 1, o, x, y);
    EntryOfIndex(g, 2, o, x, y);
    EntryOfIndex(g, 3, o, x, y);
    Emit(G, H, N, g, clip, 0, o, x, y);
    Emit(G, H, N, g, clip, 1, o, x, y);
    Emit(G, H, N, g, clip, 2, o, x, y);
    Emit(G, H, N, g, clip, 3, o, x, y);
  }

  /** The rows of cell column x in plane o, top to bottom. */
  method NormColumn(G: array<real>, H: array<real>, N: array<real>, g: Geometry, clip: real,
                    o: int, x: int, ghost T: seq<real>)
    requires G.Length == g.NormLength() && H.Length == g.HistLength() && N.Length == g.Nb()
    requires G != H && G != N && SafeGrid(g)
    requires T == Normalized(g, H[..], N[..], clip)
    requires 0 <= o < g.nOrients && 0 <= x < g.Wb()
    requires forall i :: 0 <= i < G.Length && EntryOf(g, i).o == o && EntryOf(g, i).x == x ==> G[i] == 0.0
    modifies G
    ensures forall i :: 0 <= i < G.Length ==>
      G[i] == if EntryOf(g, i).o == o && EntryOf(g, i).x == x then T[i] else old(G[i])
  {
    ghost var G0 := G[..];
    var y := 0;
    while y < g.Hb()
      invariant 0 <= y <= g.Hb()
      invariant forall i :: 0 <= i < G.Length ==>
        G[i] == if EntryOf(g, i).o == o && EntryOf(g, i).x == x && EntryOf(g, i).y < y then T[i] else G0[i]
    {
      NormRow(G, H, N, g, clip, o, x, y, T);
      y := y + 1;
    }
  }

  /** Cell column x of plane o comes before cell column x' of plane o' in the order of the
      source's loops. */
  predicate Before(e: Entry, o: int, x: int)
  {
    e.o < o || (e.o == o && e.x < x)
  }

  /** The cell columns of plane o, left to right. */
  method NormPlane(G: array<real>, H: array<real>, N: array<real>, g: Geometry, clip: real,
                   o: int, ghost T: seq<real>)
    requires G.Length == g.NormLength() && H.Length == g.HistLength() && N.Length == g.Nb()
    requires G != H && G != N && SafeGrid(g)
    requires T == Normalized(g, H[..], N[..], clip) && 0 <= o < g.nOrients
    requires forall i :: 0 <= i < G.Length ==> G[i] == if EntryOf(g, i).o < o then T[i] else 0.0
    modifies G
    ensures forall i :: 0 <= i < G.Length ==> G[i] == if EntryOf(g, i).o < o + 1 then T[i] else 0.0
  {
    for x := 0 to g.Wb()
      invariant forall i :: 0 <= i < G.Length ==> G[i] == if Before(EntryOf(g, i), o, x) then T[i] else 0.0
    {
      NormColumn(G, H, N, g, clip, o, x, T);
    }
  }

  /** normalization: the energies, the block norms in place, then the four variants of every
      cell, plane by plane and cell column by cell column, into G, which the caller has
      zeroed. */
  method Normalization(H: array<real>, g: Geometry, clip: real, rsqrt: real -> real, G: array<real>)
    requires H.Length == g.HistLength() && G.Length == g.NormLength() && G != H
    requires SafeGrid(g)
    requires forall i :: 0 <= i < G.Length ==> G[i] == 0.0
    modifies G
    ensures G[..] == Normalized(g, H[..], Blocks(g, EnergyField(g, H[..]), rsqrt), clip)
  {
    var N := Energies(H, g);
    BlockNorms(N, g, rsqrt);
    ghost var ns := N[..];
    ghost var T := Normalized(g, H[..], ns, clip);
    for o := 0 to g.nOrients
      invariant N[..] == ns
      invariant forall i :: 0 <= i < G.Length ==> G[i] == if EntryOf(g, i).o < o then T[i] else 0.0
    {
      NormPlane(G, H, N, g, clip, o, T);
    }
    assert G[..] == T;
  }

  /** Entry (a, o, x, y) of G, for any N: bin (o, x, y) of H times N at the top-left cell of
      variant a's block, clipped, when that block exists, and 0 otherwise. */
  lemma NormalizedEntry(g: Geometry, H: seq<real>, N: seq<real>, clip: real, a: int, o: int, x: int, y: int)
    requires |H| == g.HistLength() && |N| == g.Nb()
    requires 0 <= a < 4 && 0 <= o < g.nOrients && 0 <= x < g.Wb() && 0 <= y < g.Hb()
    ensures 0 <= NormIndex(g, a, o, x, y) < g.NormLength() && 0 <= HistIndex(g, o, x, y) < |H|
    ensures IsBlock(g, x - a / 2, y - a % 2) ==> 0 <= CellIndex(g, x - a / 2, y - a % 2) < |N|
    ensures Normalized(g, H, N, clip)[NormIndex(g, a, o, x, y)] ==
      if IsBlock(g, x - a / 2, y - a % 2) then
        Clip(H[HistIndex(g, o, x, y)] * N[CellIndex(g, x - a / 2, y - a % 2)], clip)
      else 0.0
  {
    var i, e := NormIndex(g, a, o, x, y), Entry(a, o, x, y);
    assert 0 <= i < g.NormLength() && EntryOf(g, i) == e by {
      EntryOfIndex(g, a, o, x, y);
    }
    assert Normalized(g, H, N, clip)[i] == Variant(g, H, N, clip, e);
    HistIn(g, o, x, y);
    if IsBlock(g, x - a / 2, y - a % 2) {
      HistIn(g, o, x - a / 2, y - a % 2);
    }
  }

  /** For the N that the block loop leaves, the norm a written entry reads is its block's norm,
      never a raw energy. */
  lemma NormalizedAt(g: Geometry, H: seq<real>, E: seq<real>, rsqrt: real -> real, clip: real, N: seq<real>,
                     a: int, o: int, x: int, y: int)
    requires |H| == g.HistLength() && |E| == g.Nb() && N == Blocks(g, E, rsqrt)
    requires 0 <= a < 4 && 0 <= o < g.nOrients && 0 <= x < g.Wb() && 0 <= y < g.Hb()
    requires IsBlock(g, x - a / 2, y - a % 2)
    ensures 0 <= NormIndex(g, a, o, x, y) < g.NormLength() && 0 <= HistIndex(g, o, x, y) < |H|
    ensures 0 <= CellIndex(g, x - a / 2, y - a % 2) < |N|
    ensures Normalized(g, H, N, clip)[NormIndex(g, a, o, x, y)] ==
      Clip(H[HistIndex(g, o, x, y)] * N[CellIndex(g, x - a / 2, y - a % 2)], clip)
    ensures N[CellIndex(g, x - a / 2, y - a % 2)] == BlockNorm(g, E, rsqrt, x - a / 2, y - a % 2)
  {
    NormalizedEntry(g, H, N, clip, a, o, x, y);
    BlocksAt(g, E, rsqrt, x - a / 2, y - a % 2);
  }

  /** With a non-negative histogram and a reciprocal square root that is non-negative on
      positive arguments, every entry of G lies between 0 and clip. */
  lemma NormalizedBounds(g: Geometry, H: seq<real>, rsqrt: real -> real, clip: real)
    requires |H| == g.HistLength() && 0.0 <= clip
    requires forall j :: 0 <= j < |H| ==> 0.0 <= H[j]
    requires forall r :: 0.0 < r ==> 0.0 <= rsqrt(r)
    ensures var G := Normalized(g, H, Blocks(g, EnergyField(g, H), rsqrt), clip);
      forall i :: 0 <= i < |G| ==> 0.0 <= G[i] <= clip
  {
    var E := EnergyField(g, H);
    var N := Blocks(g, E, rsqrt);
    BlocksNonNeg(g, E, rsqrt);
    var G := Normalized(g, H, N, clip);
    forall i | 0 <= i < |G|
      ensures 0.0 <= G[i] <= clip
    {
      VariantBounds(g, H, N, clip, EntryOf(g, i));
    }
  }

  /** The energies are sums of squares, so N holds no negative entry: the energies that stay
      are non-negative and every block norm is rsqrt of a positive energy. */
  lemma BlocksNonNeg(g: Geometry, E: seq<real>, rsqrt: real -> real)
    requires |E| == g.Nb() && forall c :: 0 <= c < |E| ==> 0.0 <= E[c]
    requires forall r :: 0.0 < r ==> 0.0 <= rsqrt(r)
    ensures forall c :: 0 <= c < |E| ==> 0.0 <= Blocks(g, E, rsqrt)[c]
  {
    forall c | 0 <= c < |E|
      ensures 0.0 <= Blocks(g, E, rsqrt)[c]
    {
      CellOfIndex(g, c);
      var x, y := c / g.Hb(), c % g.Hb();
      if IsBlock(g, x, y) {
        assert 0.0 < BlockEnergy(g, E, x, y);
      }
    }
  }

  /** A variant of a non-negative bin and a non-negative N lies between 0 and clip. */
  lemma VariantBounds(g: Geometry, H: seq<real>, N: seq<real>, clip: real, e: Entry)
    requires |H| == g.HistLength() && |N| == g.Nb() && 0.0 <= clip
    requires 0 <= e.a < 4 && 0 <= e.o < g.nOrients && 0 <= e.x < g.Wb() && 0 <= e.y < g.Hb()
    requires forall j :: 0 <= j < |H| ==> 0.0 <= H[j]
    requires forall c :: 0 <= c < |N| ==> 0.0 <= N[c]
    ensures 0.0 <= Variant(g, H, N, clip, e) <= clip
  {
    var cx, cy := e.x - e.a / 2, e.y - e.a % 2;
    if IsBlock(g, cx, cy) {
      HistIn(g, e.o, e.x, e.y);
      HistIn(g, e.o, cx, cy);
      MulNonNeg(H[HistIndex(g, e.o, e.x, e.y)], N[CellIndex(g, cx, cy)]);
    }
  }

  /** Which variants a cell (x, y) receives: variant a reads the block a / 2 cells to the left
      and a % 2 cells up, so variant 0 exists off the last column and row, variant 1 off the
      last column and the first row, variant 2 off the first column and the last row, variant 3
      off the first column and row. */
  lemma VariantCoverage(g: Geometry, x: int, y: int)
    requires 0 <= x < g.Wb() && 0 <= y < g.Hb()
    ensures IsBlock(g, x - 0 / 2, y - 0 % 2) <==> x < g.Wb() - 1 && y < g.Hb() - 1
    ensures IsBlock(g, x - 1 / 2, y - 1 % 2) <==> x < g.Wb() - 1 && 1 <= y
    ensures IsBlock(g, x - 2 / 2, y - 2 % 2) <==> 1 <= x && y < g.Hb() - 1
    ensures IsBlock(g, x - 3 / 2, y - 3 % 2) <==> 1 <= x && 1 <= y
  {
  }

  /** A cell has all four variants exactly when it is an inner cell, neither in the first or
      last cell row nor in the first or last cell column. */
  lemma AllVariantsInner(g: Geometry, x: int, y: int)
    requires 0 <= x < g.Wb() && 0 <= y < g.Hb()
    ensures (forall a :: 0 <= a < 4 ==> IsBlock(g, x - a / 2, y - a % 2)) <==>
      (1 <= x < g.Wb() - 1 && 1 <= y < g.Hb() - 1)
  {
    if forall a :: 0 <= a < 4 ==> IsBlock(g, x - a / 2, y - a % 2) {
      assert IsBlock(g, x - 0 / 2, y - 0 % 2);
      assert IsBlock(g, x - 3 / 2, y - 3 % 2);
    }
  }
}
