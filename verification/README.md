# HOG descriptor of the PCL people module, in Dafny

This project models `pcl::people::HOG`, the histogram-of-oriented-gradients extractor in
`people/include/pcl/people/impl/hog.hpp`. It proves the model against specification functions.
The class computes a fixed-length descriptor from a multi-channel image stored column-major:

1. **`grad1` and `gradMag`** (module `Gradient`) take finite differences in x and y for every
   channel. Inside the image the difference is central with weight 1/2; at the first and last
   row or column it is one-sided with weight 1. Per pixel, the channel with the largest squared
   magnitude is kept. A later channel wins only if it is strictly larger, so on a tie the
   earlier channel stays. Magnitude and orientation of the kept gradient are the stored M and O.
2. **`gradQuantize`** (module `Quantization`) quantizes each orientation into two neighbouring
   bins.
   - The bins are packed as `bin * nb`, and the upper bin wraps to 0.
   - The scaled magnitude is split between the two bins.
   - The four-lane vector body and the scalar tail are both modelled, and proved equal.
3. **`gradHist`** (modules `Histogram` and `Binning`) adds every covered pixel into H.
   - Hard binning adds both shares to the pixel's own cell.
   - Soft binning splits them bilinearly over up to four cells, in the source's three row
     regimes (leading, main and trailing), with its left/right existence flags.
   - `Histogram` states the result declaratively: H after adding a list of contributions
     (`AddAll`), and the contributions of every pixel in source order (`ImageContribs`).
   - `Binning` holds the loops and proves that they produce exactly that.
4. **`normalization`** (module `Normalize`) only reads H. It works in place on the energy array
   N and writes G.
   - It computes per-cell energies into N, then overwrites the energy of every 2 x 2 block origin
     with the block's reciprocal norm.
   - It writes up to four clipped variants per cell and orientation into G, dispatching on
     first, inner and last columns and rows as the source does.
   - Entries with no block stay at their calloc zero.
5. **`compute`** (module `Hog`, class `HOG`) holds the parameters and runs the stages.
   - The parameterised overload overwrites every parameter except `clip_`.
   - The last step copies the inner cells of G into the descriptor, in slot-column-row order.
   - `HOG.Compute` is proved to write exactly `HogDescriptor`, the composition of the stage
     specifications. Its selection step reads G with the cell column stride hb, the intended
     index; the index as written differs when bin_size does not divide h (see Findings).

`Grid` fixes the cell geometry:

| quantity | formula |
|---|---|
| hb | h / bin_size |
| wb | w / bin_size |
| nb | wb·hb |
| cell index | x·hb + y |
| H index | o·nb + cell |
| G index | a·n_orients·nb + H index |

`Numeric` holds C's float-to-int truncation and a few integer division facts.

Pixel values are `real`. The square root, the reciprocal square root and the arc-cosine table
are not computed. The winning gradient's magnitude and orientation enter as functions `mag`
and `orient`; the reciprocal square root enters as `rsqrt`. These are parameters of the
model. Results are exact over the reals, not float-exact.

## Model

| member | source | states |
|---|---|---|
| Numeric.Trunc | people/include/pcl/people/impl/hog.hpp:317 | `(int)` truncates toward zero: for a non-negative value it is the floor, and it lies within one of the value |
| Grid.CoveredExtent | people/include/pcl/people/impl/hog.hpp:110 | the covered extent h0 = hb·bin_size satisfies h0 <= h < h0 + bin_size, and likewise for w0 |
| Grid.CellIndexDecomp | people/include/pcl/people/impl/hog.hpp:110 | a cell index x·hb + y of an existing cell is below nb and gives back x and y by division and remainder |
| Grid.CellOfIndex | people/include/pcl/people/impl/hog.hpp:183 | every index below nb is the cell index of an existing cell |
| Grid.HistIndexDecomp | people/include/pcl/people/impl/hog.hpp:183 | H index o·nb + cell is below the length of H and gives back o and the cell |
| Grid.NormIndexDecomp | people/include/pcl/people/impl/hog.hpp:189-190 | G index of variant a gives back a and the H index; it is below 4·n_orients·nb |
| Gradient.FirstMax | people/include/pcl/people/impl/hog.hpp:81-88 | the selected position holds a maximum, and every earlier element is strictly smaller (ties keep the earlier channel) |
| Gradient.BestIsStrongest | people/include/pcl/people/impl/hog.hpp:81-88 | the kept channel has the largest squared magnitude, strictly larger than every earlier channel |
| Gradient.RampGx | people/include/pcl/people/impl/hog.hpp:255-262 | on an image that is linear in x and y, Gx is the x slope at every pixel, border columns included |
| Gradient.RampGy | people/include/pcl/people/impl/hog.hpp:264-272 | on a linear image, Gy is the y slope at every pixel, border rows included |
| Gradient.Grad1 | people/include/pcl/people/impl/hog.hpp:250-277 | fills channel c of the column buffers with the one-sided/central differences, and no other channel changes |
| Gradient.ColumnGx | people/include/pcl/people/impl/hog.hpp:255-262 | the x differences of column x, one-sided with weight 1 at x = 0 and x = w-1, central with weight 1/2 otherwise |
| Gradient.ColumnGy | people/include/pcl/people/impl/hog.hpp:264-272 | the y differences, one-sided at rows 0 and h-1, central in between |
| Gradient.GradColumns | people/include/pcl/people/impl/hog.hpp:78 | both difference buffers hold every channel's differences of column x |
| Gradient.SquaredMagnitudes | people/include/pcl/people/impl/hog.hpp:79 | M2 holds Gx² + Gy² for every channel and row |
| Gradient.SelectChannel | people/include/pcl/people/impl/hog.hpp:81-88 | channel 0 of (M2, Gx, Gy) afterwards holds, row by row, the triple of the first channel with maximal M2; the other channels are unchanged |
| Gradient.CompareChannel | people/include/pcl/people/impl/hog.hpp:82-87 | one pass over channel c replaces the kept triple exactly where channel c is strictly larger, keeping the running winner |
| Gradient.LeadsStep | people/include/pcl/people/impl/hog.hpp:83-84 | the strict comparison keeps the first maximum among channels 0..c |
| Gradient.LeadsWinner | people/include/pcl/people/impl/hog.hpp:81-88 | the running winner after all channels is the first maximum |
| Gradient.AcrossEnergies | people/include/pcl/people/impl/hog.hpp:79 | the M2 column across channels is the sequence of the channels' squared magnitudes |
| Gradient.EnergiesAt | people/include/pcl/people/impl/hog.hpp:79 | entry c of a pixel's channel energies is channel c's squared magnitude |
| Gradient.SelectedIsBest | people/include/pcl/people/impl/hog.hpp:81-88 | a kept triple is the gradient of the strongest channel and its squared magnitude |
| Gradient.StrongestGradient | people/include/pcl/people/impl/hog.hpp:78-88 | after the column pass, channel 0 holds the strongest channel's gradient and squared magnitude |
| Gradient.WriteColumn | people/include/pcl/people/impl/hog.hpp:97-99 | column x of M and O gets mag and orient of the kept gradient; earlier columns are unchanged |
| Gradient.ColumnMag | people/include/pcl/people/impl/hog.hpp:76-100 | one column of M and O equals the per-pixel magnitude and orientation; earlier columns are unchanged |
| Gradient.FieldAt | people/include/pcl/people/impl/hog.hpp:97-99 | entry x·h + y of the magnitude and orientation fields is the magnitude and orientation of pixel (x, y) |
| Gradient.ColumnEntry | people/include/pcl/people/impl/hog.hpp:97-99 | the same, for an index inside column x |
| Gradient.GradMag | people/include/pcl/people/impl/hog.hpp:61-105 | M and O become the magnitude and orientation fields of the image |
| Quantization.Quantize | people/include/pcl/people/impl/hog.hpp:316-320 | the two weights sum to M·norm, and the upper bin is the lower bin plus nb or 0 |
| Quantization.QuantizeSse | people/include/pcl/people/impl/hog.hpp:308-313 | the vector lanes give the same weight sum and the same upper-bin rule |
| Quantization.QuantizeBins | people/include/pcl/people/impl/hog.hpp:302-318 | for an orientation in [0, pi), both offsets are multiples of nb below n_orients·nb; the upper bin is the next bin cyclically; the lower bin is the sector holding the orientation |
| Quantization.BinOf | people/include/pcl/people/impl/hog.hpp:317 | the truncated scaled orientation is a bin in [0, n_orients) whose sector holds the orientation |
| Quantization.OffsetOf | people/include/pcl/people/impl/hog.hpp:318 | bin·nb and the wrapped next offset are in range, multiples of nb, and the next one is bin + 1 mod n_orients |
| Quantization.QuantizeShares | people/include/pcl/people/impl/hog.hpp:317-319 | for non-negative inputs both weights are non-negative and the upper one is at most M·norm |
| Quantization.SseAgrees | people/include/pcl/people/impl/hog.hpp:308-320 | the vector body and the scalar tail compute the same bins and weights |
| Quantization.SseSpan | people/include/pcl/people/impl/hog.hpp:308 | the vector body covers a multiple of four pixels, and fewer than four remain |
| Quantization.GradQuantize | people/include/pcl/people/impl/hog.hpp:295-324 | every pixel of the column gets its bins and weights (vector rule in the body, scalar rule in the tail) |
| Quantization.QuantizeLanes | people/include/pcl/people/impl/hog.hpp:306-313 | the vector loop quantizes the first SseSpan(n) pixels |
| Quantization.QuantizeFour | people/include/pcl/people/impl/hog.hpp:309-312 | one vector step quantizes four more pixels and keeps the earlier ones |
| Quantization.QuantizeTail | people/include/pcl/people/impl/hog.hpp:315-320 | the scalar loop completes the remaining pixels |
| Histogram.AddAllAt | people/include/pcl/people/impl/hog.hpp:124 | after adding contributions that fit, each H entry is its old value plus the mass aimed at it |
| Histogram.AddAllAppend | people/include/pcl/people/impl/hog.hpp:117-171 | adding two lists in turn is adding their concatenation |
| Histogram.MassNonNeg | people/include/pcl/people/impl/hog.hpp:124 | non-negative contributions aim non-negative mass at every entry |
| Histogram.SharesOf | people/include/pcl/people/impl/hog.hpp:141-142 | the four bilinear weights are the products of the axis fractions, and they sum to 1 |
| Histogram.RowShares | people/include/pcl/people/impl/hog.hpp:142 | the left weights sum to 1 - xd and the right weights to xd |
| Histogram.AxisWeight | people/include/pcl/people/impl/hog.hpp:138-148 | with both neighbours present an axis keeps weight 1; otherwise the kept weight is within [0, 1] |
| Histogram.SplitFacts | people/include/pcl/people/impl/hog.hpp:138-139 | the lower neighbour is -1 before the first centre and the truncated position otherwise; lower cell plus fraction is the position |
| Histogram.PosStart | people/include/pcl/people/impl/hog.hpp:137 | the first pixel sits at 0.5/bin_size - 0.5 in cell units |
| Histogram.PosStep | people/include/pcl/people/impl/hog.hpp:139 | each pixel step adds 1/bin_size |
| Histogram.PosMono | people/include/pcl/people/impl/hog.hpp:152 | cell positions grow with the pixel index |
| Histogram.LeadingIff | people/include/pcl/people/impl/hog.hpp:145 | a pixel lies before the first cell centre exactly when y < bin_size/2 |
| Histogram.LastPastCentre | people/include/pcl/people/impl/hog.hpp:151-160 | the last covered pixel lies past the last cell centre, so the main rows end before h0 |
| Histogram.LeadingRowsFirstRow | people/include/pcl/people/impl/hog.hpp:145-149 | a leading row writes only cell row 0 |
| Histogram.SoftColumns | people/include/pcl/people/impl/hog.hpp:138-148 | a pixel adds to the left column only when xb >= 0, and to the right column only when xb0 < wb-1 |
| Histogram.PlacedFits | people/include/pcl/people/impl/hog.hpp:124 | a contribution to an existing cell and bin lands inside H |
| Histogram.AllPlacedFits | people/include/pcl/people/impl/hog.hpp:117-171 | such a list lands inside H entirely |
| Histogram.BothPlaced | people/include/pcl/people/impl/hog.hpp:147-148 | both shares to an existing cell land inside H |
| Histogram.TwoRowsPlaced | people/include/pcl/people/impl/hog.hpp:154-157 | the two scalar adds per store in a main row land inside H |
| Histogram.SseStore | people/include/pcl/people/impl/hog.hpp:143 | the four-lane store: lanes 0-1 are the two intended adds, and lanes 2-3 add 0 to the next two rows |
| Histogram.SseStoreOverruns | people/include/pcl/people/impl/hog.hpp:155-157 | a concrete pixel whose intended adds land inside H while its four-lane store reaches index 37 of a 36-entry H |
| Histogram.SplitPlaced | people/include/pcl/people/impl/hog.hpp:144-164 | every soft contribution of every row regime lands inside H |
| Histogram.PixelContribsPlaced | people/include/pcl/people/impl/hog.hpp:121-164 | every contribution of a covered pixel lands inside H, in both modes |
| Histogram.CellOfPixel | people/include/pcl/people/impl/hog.hpp:123 | a covered pixel's hard cell (x/bin_size, y/bin_size) exists |
| Histogram.BothTotal | people/include/pcl/people/impl/hog.hpp:147 | both shares scaled by s total s·(M0 + M1) |
| Histogram.TwoRowsTotal | people/include/pcl/people/impl/hog.hpp:154-157 | a main-row column side totals (sa + sb)·(M0 + M1) |
| Histogram.LeadMass | people/include/pcl/people/impl/hog.hpp:147-148 | a leading row's mass is the present sides' lower-row weights times M0 + M1 |
| Histogram.MainMass | people/include/pcl/people/impl/hog.hpp:154-157 | a main row's mass is the present sides' weights times M0 + M1 |
| Histogram.TrailMass | people/include/pcl/people/impl/hog.hpp:162-163 | a trailing row's mass is the present sides' upper-row weights times M0 + M1 |
| Histogram.RowMass | people/include/pcl/people/impl/hog.hpp:141-164 | a pixel adds (M0 + M1) times the kept x weight times the kept y weight: all of it inside the grid, less only where a border neighbour is missing |
| Histogram.LeadRowMass | people/include/pcl/people/impl/hog.hpp:145-149 | the same for a leading row |
| Histogram.MainRowMass | people/include/pcl/people/impl/hog.hpp:151-158 | the same for a main row |
| Histogram.TrailRowMass | people/include/pcl/people/impl/hog.hpp:160-164 | the same for a trailing row |
| Histogram.PresentScaled | people/include/pcl/people/impl/hog.hpp:147-148 | scaling both sides scales the present mass |
| Histogram.SidesTotal | people/include/pcl/people/impl/hog.hpp:147-148 | the mass of the present sides is the sum of the present sides' masses |
| Histogram.TotalAppend | people/include/pcl/people/impl/hog.hpp:124 | the mass of a concatenation is the sum of the masses |
| Binning.Deposit | people/include/pcl/people/impl/hog.hpp:124 | one `+=` into H appends one contribution to the added list |
| Binning.StoreBoth | people/include/pcl/people/impl/hog.hpp:147 | the two adds of one side of a leading or trailing row |
| Binning.StorePair | people/include/pcl/people/impl/hog.hpp:155 | one main-row store, as the two scalar adds its meaningful lanes make |
| Binning.StoreTwoRows | people/include/pcl/people/impl/hog.hpp:154-157 | both stores (O0 and O1) of one column side of a main row |
| Binning.LeadRow | people/include/pcl/people/impl/hog.hpp:147-148 | the guarded adds of a leading row add exactly its contributions |
| Binning.MainRow | people/include/pcl/people/impl/hog.hpp:153-157 | the guarded stores of a main row add exactly its contributions |
| Binning.TrailRow | people/include/pcl/people/impl/hog.hpp:162-163 | the guarded adds of a trailing row add exactly its contributions |
| Binning.HardPixel | people/include/pcl/people/impl/hog.hpp:124 | one GH step adds the pixel's hard contributions |
| Binning.HardColumn | people/include/pcl/people/impl/hog.hpp:121-129 | the hard loop over rows 0..h0-1 adds the column's hard contributions in order |
| Binning.ColumnStep | people/include/pcl/people/impl/hog.hpp:129 | the column list grows by one pixel's contributions per row |
| Binning.SoftStep | people/include/pcl/people/impl/hog.hpp:141-164 | one soft row adds that pixel's split contributions, and they land inside H |
| Binning.LeadPixel | people/include/pcl/people/impl/hog.hpp:146-148 | one leading row adds its contributions |
| Binning.LeadRows | people/include/pcl/people/impl/hog.hpp:145-149 | the leading loop ends at y = bin_size/2 with yb at that row's position |
| Binning.MainPixel | people/include/pcl/people/impl/hog.hpp:152-157 | one main row adds its contributions, and a next row exists |
| Binning.MainRows | people/include/pcl/people/impl/hog.hpp:151-158 | the main loop breaks at the first row whose position reaches hb - 1, before h0 |
| Binning.TrailPixel | people/include/pcl/people/impl/hog.hpp:161-163 | one trailing row adds its contributions |
| Binning.TrailRows | people/include/pcl/people/impl/hog.hpp:160-164 | the trailing loop adds the rest of the column |
| Binning.SoftColumn | people/include/pcl/people/impl/hog.hpp:134-165 | the three soft loops together add the column's soft contributions in order |
| Binning.FirstCentre | people/include/pcl/people/impl/hog.hpp:137 | init is the first pixel's cell position |
| Binning.NextCentre | people/include/pcl/people/impl/hog.hpp:139 | `xb += sInv` moves to the next pixel's position |
| Binning.BinsAgree | people/include/pcl/people/impl/hog.hpp:119 | the column's quantized pixels are the quantization of the column of M and O, and their bins exist |
| Binning.ColumnIn | people/include/pcl/people/impl/hog.hpp:119 | the column x·h .. x·h + h0 lies inside M and O |
| Binning.QuantizeColumn | people/include/pcl/people/impl/hog.hpp:119 | the buffers hold the quantized column, and every bin exists |
| Binning.BinColumn | people/include/pcl/people/impl/hog.hpp:121-170 | dispatching on soft_bin and bin_size adds the column's contributions and advances xb |
| Binning.HistColumn | people/include/pcl/people/impl/hog.hpp:117-171 | one iteration of the main loop adds column x's contributions |
| Binning.GradHist | people/include/pcl/people/impl/hog.hpp:108-174 | H becomes its old value plus the contributions of every covered pixel, in source order |
| Normalize.Eps | people/include/pcl/people/impl/hog.hpp:180 | the guard added to every block energy is positive |
| Normalize.PlaneIn | people/include/pcl/people/impl/hog.hpp:183 | orientation plane o lies inside H |
| Normalize.Energy | people/include/pcl/people/impl/hog.hpp:183 | a partial energy sum over orientations is non-negative |
| Normalize.EnergyField | people/include/pcl/people/impl/hog.hpp:183 | one non-negative energy per cell |
| Normalize.Energies | people/include/pcl/people/impl/hog.hpp:182-183 | N is a fresh array holding, per cell, the sum over orientations of H² |
| Normalize.BlockCells | people/include/pcl/people/impl/hog.hpp:185 | the four cells of a block origin are at offsets 0, 1, hb and hb+1, all inside N |
| Normalize.BlockEnergy | people/include/pcl/people/impl/hog.hpp:185 | with non-negative energies a block's energy is at least eps, so its square root is defined and positive |
| Normalize.Blocks | people/include/pcl/people/impl/hog.hpp:184-185 | the block-norm pass keeps N's length |
| Normalize.BlocksAt | people/include/pcl/people/impl/hog.hpp:184-185 | an entry becomes its block's reciprocal norm exactly when it is a block origin (column <= wb-2, row <= hb-2), and keeps its energy otherwise |
| Normalize.PastBlocks | people/include/pcl/people/impl/hog.hpp:184 | cells of the last column are no block origins |
| Normalize.BlockNorms | people/include/pcl/people/impl/hog.hpp:184-185 | the in-place pass turns N into the block-norm field of its old value |
| Normalize.BlockColumn | people/include/pcl/people/impl/hog.hpp:184-185 | one column of the pass turns column x's block origins into norms; later cells keep their energy |
| Normalize.EntryOf | people/include/pcl/people/impl/hog.hpp:189-190 | every G index decodes to a variant, orientation and existing cell that encode back to it |
| Normalize.EntryOfIndex | people/include/pcl/people/impl/hog.hpp:189-190 | encoding an entry and decoding it gives the entry back |
| Normalize.BackToBlock | people/include/pcl/people/impl/hog.hpp:187 | `N1[y - b]` with b = 0, 1, hb, hb+1 is the norm of the block a/2 cells left and a%2 cells up |
| Normalize.VariantAt | people/include/pcl/people/impl/hog.hpp:187 | a written variant is H times its block norm, clipped at clip |
| Normalize.EmitIndices | people/include/pcl/people/impl/hog.hpp:187-190 | the pointer offsets Gs[a] + y, H1 + y and N1 + y - b are the G, H and block indices of the entry |
| Normalize.NormValue | people/include/pcl/people/impl/hog.hpp:187 | U's value is the clipped product of H and the block norm |
| Normalize.Emit | people/include/pcl/people/impl/hog.hpp:187 | one U writes that value into its G entry, and nothing else changes |
| Normalize.TopRow | people/include/pcl/people/impl/hog.hpp:192 | row 0 gets variant 0 unless in the last column and variant 2 unless in the first |
| Normalize.LeftCell | people/include/pcl/people/impl/hog.hpp:193 | a middle row of the first column gets variants 0 and 1 |
| Normalize.InnerCell | people/include/pcl/people/impl/hog.hpp:194 | a middle row of an inner column gets all four variants |
| Normalize.RightCell | people/include/pcl/people/impl/hog.hpp:195 | a middle row of the last column gets variants 2 and 3 |
| Normalize.BottomRow | people/include/pcl/people/impl/hog.hpp:196 | row hb-1 gets variant 1 unless in the last column and variant 3 unless in the first |
| Normalize.NormRow | people/include/pcl/people/impl/hog.hpp:191-196 | each cell's entries become their normalized values; the others keep theirs |
| Normalize.NormColumn | people/include/pcl/people/impl/hog.hpp:188-196 | one column of one orientation gets its normalized values |
| Normalize.NormPlane | people/include/pcl/people/impl/hog.hpp:188-196 | orientation o gets its normalized values; later orientations stay zero |
| Normalize.Normalization | people/include/pcl/people/impl/hog.hpp:177-199 | starting from a zeroed G, G becomes the normalized tensor of H with block norms of H's energies |
| Normalize.NormalizedEntry | people/include/pcl/people/impl/hog.hpp:186-196 | an entry of G is the clipped product when its block exists and keeps its calloc zero otherwise |
| Normalize.NormalizedAt | people/include/pcl/people/impl/hog.hpp:184-187 | the norm a written variant reads is its block's reciprocal norm |
| Normalize.VariantCoverage | people/include/pcl/people/impl/hog.hpp:191-196 | variant 0 exists iff x < wb-1 and y < hb-1; variant 1 iff x < wb-1 and y >= 1; variant 2 iff x >= 1 and y < hb-1; variant 3 iff x >= 1 and y >= 1 |
| Normalize.AllVariantsInner | people/include/pcl/people/impl/hog.hpp:191-196 | a cell has all four variants exactly when it is an inner cell |
| Normalize.BlocksNonNeg | people/include/pcl/people/impl/hog.hpp:185 | with non-negative energies and rsqrt, every block-norm entry is non-negative |
| Normalize.VariantBounds | people/include/pcl/people/impl/hog.hpp:187 | with non-negative H and norms, a variant lies in [0, clip] |
| Normalize.NormalizedBounds | people/include/pcl/people/impl/hog.hpp:187 | for non-negative H, clip >= 0 and a non-negative rsqrt, every entry of G lies in [0, clip] |
| Hog.SlotOf | people/include/pcl/people/impl/hog.hpp:234-245 | descriptor entry k is written for exactly one slot l and inner cell (j, i), at k = (l·(wb-2) + j-1)·(hb-2) + i-1 |
| Hog.SlotOfIndex | people/include/pcl/people/impl/hog.hpp:234-245 | every slot with an inner cell has an entry below the descriptor length, and decoding it gives the slot back |
| Hog.DescIndexSteps | people/include/pcl/people/impl/hog.hpp:237-242 | k advances by one per cell and by hb-2 per column; the end of a column is the start of the next, and the end of a slot the start of the next slot |
| Hog.ReadIndexEntry | people/include/pcl/people/impl/hog.hpp:241 | the intended index i + j·hb + l·hb·wb is variant l / n_orients, orientation l % n_orients of cell (j, i), inside G |
| Hog.Descriptor | people/include/pcl/people/impl/hog.hpp:234-245 | the descriptor has 4·n_orients·(wb-2)·(hb-2) entries, and none when wb or hb is below 2 |
| Hog.DescriptorAt | people/include/pcl/people/impl/hog.hpp:241-242 | entry k is the G entry its slot's cell reads |
| Hog.DescriptorEntry | people/include/pcl/people/impl/hog.hpp:241 | entry k is G's variant l / n_orients, orientation l % n_orients at the slot's cell |
| Hog.InnerBlock | people/include/pcl/people/impl/hog.hpp:237-239 | every variant of an inner cell has its block, so the copied entries are written values, not calloc zeros |
| Hog.AssembleColumn | people/include/pcl/people/impl/hog.hpp:239-243 | the innermost loop writes the entries of one cell column and advances k past them |
| Hog.AssembleSlot | people/include/pcl/people/impl/hog.hpp:237-244 | the column loop writes every entry of slot l |
| Hog.Assemble | people/include/pcl/people/impl/hog.hpp:234-245 | the descriptor becomes the inner cells of G in slot-column-row order, read at the intended index, cell column j at offset j·(h/bin_size) (see Findings) |
| Hog.WrittenIndexAgrees | people/include/pcl/people/impl/hog.hpp:241 | when bin_size divides h, the index as written equals the intended one |
| Hog.WrittenIndexSlips | people/include/pcl/people/impl/hog.hpp:241 | concrete sizes where the written index reads the wrong cell, and ones where it reads past the end of G |
| Hog.Zeros | people/include/pcl/people/impl/hog.hpp:221-222 | calloc gives a buffer of zeros of the requested length |
| Hog.OrientFieldRange | people/include/pcl/people/impl/hog.hpp:99 | an orientation function with values in [0, pi) gives an orientation field in [0, pi) |
| Hog.HogDescriptor | people/include/pcl/people/impl/hog.hpp:214-247 | the composed specification has 4·n_orients·(wb-2)·(hb-2) entries, and none when wb or hb is below 2 |
| Hog.ComputableStages | people/include/pcl/people/impl/hog.hpp:221-245 | on a grid compute accepts, normalization, the selection loop and soft gradHist each stay in bounds, and the descriptor is non-empty exactly when wb >= 3 and hb >= 3 |
| Hog.SmallGrids | people/include/pcl/people/impl/hog.hpp:188-196 | one cell, and one cell column of two rows, are accepted with an empty descriptor; one row of two columns and one column of three rows are not; with no cell row the selection loop is bounded over two cell columns, not over three |
| Hog.HOG.constructor | people/include/pcl/people/impl/hog.hpp:45-55 | defaults 128 x 64, 3 channels, bin size 8, 9 orientations, soft binning, clip 0.2; these give a 3024-entry descriptor |
| Hog.HOG.Compute | people/include/pcl/people/impl/hog.hpp:214-247 | the descriptor becomes the composition of the gradient, histogram, normalization and selection specifications for the current parameters |
| Hog.HOG.ComputeWith | people/include/pcl/people/impl/hog.hpp:201-212 | every parameter except clip is replaced, and the descriptor is computed with the new parameters |

## Left out

- `acosTable` (hog.hpp:279-292) is not modelled: it is floating-point `acos` plus a lazily built static table with an unsynchronised flag. Orientation enters as the function `orient`, required to take values in [0, pi).
- The magnitude and orientation arithmetic of `gradMag` (lines 89-99) is not modelled. This covers `RCPSQRT`, `RCP`, the `1e10f` clamp, the sign-bit XOR and the table lookup. Magnitude and orientation enter as the functions `mag` and `orient` of the winning gradient. The reciprocal square root of `normalization` enters as `rsqrt`.
- Float rounding is not modelled; values are exact reals. The value of `eps` (line 180) is modelled exactly, but only its positivity is used.
- SSE alignment, the padded column height `h4` and the aligned/unaligned branches of `grad1` all compute the same differences, so one scalar rule models them.
- `alMalloc` and `alFree` are memory plumbing; buffers are fresh Dafny arrays.
- The `PCL_ERROR` branches for builds without SSE2 are not modelled; the model is the SSE2 build.
- The unrolled hard-binning loops for bin_size 1 to 4 (lines 125-128) are modelled by the generic loop at line 129. Each performs bin_size GH steps per cell in the same order.
- `GH` in soft mode is a four-lane load/add/store. The model makes its two meaningful adds: lanes 2-3 add zero, so in range the result is the same. The store past the end of H is recorded under Findings.
- The uninitialised `xb` and `init` of the soft branch are modelled as loop-carried values. Both are declared at line 135 inside the column loop. `init` is set only at x = 0 (line 137) and read at line 139 for every column; `xb` is set at line 137 and advanced at line 139. At column x the model's `xb` equals (x + 0.5)/bin_size - 0.5, and `init` keeps its x = 0 value. This is what the source computes when the stack slots survive between iterations.
- Binning.GradHist requires hb >= 1 when soft binning runs with bin_size > 1 and wb >= 1. With hb = 0 the source's leading-row loop (line 145) still runs bin_size/2 rows: it reads quantized rows that `gradQuantize` never wrote, and it adds outside H.
- Normalize.Normalization requires `SafeGrid`: wb = 0, or wb = 1 with hb <= 2, or wb >= 2 with hb >= 2. The block pass (lines 184-185) stays inside N on every grid. Only `U` leaves the arrays on the other grids:
  - hb = 1 with wb >= 2: `U(1,1)` at x = 0, y = 0 reads N[-1] (line 196);
  - hb = 0 with wb >= 2: `U(0,0)` at x = 0 reads the empty H (line 192);
  - wb = 1 with hb >= 3: `U(2,hb)` in the last-column loop reads N[y - hb] (line 195).
- Hog.Assemble requires `SelectionBounded`: wb >= 1, and hb >= 1 when wb >= 3. The loop counters at lines 237-239 are unsigned. With wb = 0 the bound wb - 1 wraps around. With wb >= 3 and hb = 0 the column loop runs, its row bound wraps, and the loop reads past the end of G. With wb <= 2 the column loop never runs, whatever hb is.
- Hog.HOG.Compute and Hog.HOG.ComputeWith require bin_size >= 1 (hb = h/bin_size divides by it), n_orients >= 1 (with none, H is empty but gradHist still adds into it at the bins gradQuantize gives), n_channels >= 1 (with none, gradMag reads an empty M2), h, w >= 2 for the gradient, and `Computable`: the grid bounds of normalization and selection, plus hb >= 1 under soft binning (see Binning.GradHist above). These are the grids with at least two cells each way, and a single cell column of one or two cell rows (or of none, with hard binning). They also require a descriptor buffer of exactly `DescLength` entries.
- Grids with wb <= 2 or hb <= 2 are accepted where the source stays in bounds, and give an empty descriptor, as in the code. A stricter rejection of grids below 3 x 3 cells is not in the code, and is not modelled.
- Hog.HOG.Compute, Hog.HOG.ComputeWith and Hog.Assemble read G at the intended index i + j·hb + l·hb·wb, not at the source's `i + j * h_ / bin_size_ + ...` (second row of Findings). The two agree when bin_size divides h (Hog.WrittenIndexAgrees). Otherwise the source reads other cells or past G (Hog.WrittenIndexSlips), and the model does not describe what it then writes.
- people/include/pcl/people/hog.h, the class declaration, is not part of this model. The model's fields are the ones the implementation file reads and writes.

## Findings

| source | as written | input that shows it | evidently intended | confidence | as-written member | corrected member |
|---|---|---|---|---|---|---|
| people/include/pcl/people/impl/hog.hpp:155-157 | a main-row `GH` stores four floats at `H0 + O0[y]` (resp. `+ hb`), two of them adding 0 | h = w = 16, bin_size = 8, n_orients = 9, pixel (12, 4) with orientation 3.1: orientation 8, right-most cell column, cell row 0 — the store writes indices 34..37 of a 36-float H | two scalar adds into cell rows yb0 and yb0 + 1, never touching memory past H | not executed | Histogram.SseStoreOverruns | Binning.StorePair |
| people/include/pcl/people/impl/hog.hpp:241 | `j * h_ / bin_size_` groups as `(j * h_) / bin_size_` | h = 31, w = 32, bin_size = 8: slot 0, cell (2, 1) reads cell (2, 2); h = 31, w = 80, bin_size = 8, n_orients = 1: slot 3, cell (8, 1) reads index 122 of a 120-entry G | `j * (h_ / bin_size_)`, the cell column stride hb | not executed | Hog.WrittenIndexSlips | Hog.Assemble |
