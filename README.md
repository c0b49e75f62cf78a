# ContiguousLineFilter in Dafny

This project models the `ContiguousLineFilter` class of `contiguous_line_filter.cpp`. The class is a binary line-image filter. Its constructor builds three things:

- a K×K kernel of concentric powers of two, with weight 1 in the centre and 2^(K/2) on the outer ring;
- an 8-bit checksum: the sum of the kernel's centre row;
- a fixed-size table of "acceptable" products of perimeter weights. Each product pairs perimeter position i with a position within span/2 of the opposite position, (i + L/2 + j) mod L, where L = 4(K−1).

`run` then does three things to an image:

1. It clamps the image with a threshold at 1.
2. It prunes the image once (pass 1). Every lit pixel is checked: the kernel perimeter around it is scanned clockwise from the top-left corner, stopping after two lit cells. If the product of those two cells' weights is not in the table, the pixel is cleared.
3. It confirms the image `kernelRuns` times (pass 2). Every pixel becomes 255 when its kernel-weighted window sum, kept in an 8-bit accumulator, equals the checksum, and 0 otherwise.

Modules, one per file:

- `Kernel`: the kernel weights and the nested fill loops. The checksum loop, with its closed form 2^(K/2+2) − 3 ≤ 253.
- `ProductTable`: the perimeter vector, the generated products, and the first-seen deduplicating fill loop with its zero-filled slots. `std::sort` is taken by its postcondition.
- `Grids`: images as values (`Grid`). `cv::threshold(…, 1, 1, THRESH_BINARY)` and `copyMakeBorder(…, BORDER_CONSTANT, 0)` as pure functions. The copying between `array2<int>` and values.
- `Passes`: pass 1 and pass 2 as functions of a grid. The in-place pixel loops as methods proved against those functions. Lemmas about what each pass keeps and clears.
- `LineFilter`: the class `ContiguousLineFilter`, with `const` fields, the constructor and `Run`, plus whole-filter lemmas.

The code and the comments beside it disagree in several places. The model follows the code:

- The comment at `contiguous_line_filter.cpp:26-27` puts the highest weight at the centre. The code puts 1 there and the largest weight on the outer ring.
- The threshold maps an input value of 1 to 0.
- Pass-2 runs after the first read the previous run's 255s. Nothing re-clamps them to 1. `RepaintedLineCleared` proves the window-level step: a window that holds the line as 255s, as a later run reads it, is cleared. `FullWidthLineClearedBySecondRun` proves the whole-run consequence for an image holding one full-width line of 255s. The first run confirms the line as 255s, because its own window hits the checksum, and clears the rows beside it, whose windows miss it. The second run reads those 255s and clears the line.
- Pass 2 still never creates foreground. Every weight except the centre's is even and the checksum is odd, so a window can hit the checksum only where its centre pixel is odd, and so non-zero (`Pass2NeverCreates`). The foreground therefore never grows from one run to the next (`RunsNeverGrow`, `FilterRunsNeverGrow`, `FilterCountNeverGrows`).
- The pass-2 sum wraps modulo 256.
- Unused table slots hold 0, and they take part in the table lookup.

## Model

| member | source | states |
|---|---|---|
| Kernel.Ring | contiguous_line_filter.cpp:50-55 | the ring index of a cell is at most K/2 |
| Kernel.Weight | contiguous_line_filter.cpp:43-59 | the weight 2^(K/2 − ring) of cell (x, y): the definition that BuildKernel's contract and the window lemmas refer to |
| Kernel.Pow2 | contiguous_line_filter.cpp:44-45 | 2^n, the values of the `powersOfTwo` table: the definition Weight and the checksum closed form are stated with |
| Kernel.WeightParity | contiguous_line_filter.cpp:43-59 | only the centre weight is odd: every other ring holds a power of two of at least 2 |
| Kernel.KernelParity | contiguous_line_filter.cpp:43-59 | the built kernel vector is odd at the centre slot and even at every other slot |
| Kernel.Idx | contiguous_line_filter.cpp:56 | cell (x, y) sits at y·K + x, inside the K² vector |
| Kernel.IdxInjective | contiguous_line_filter.cpp:56 | distinct cells occupy distinct slots of the kernel vector |
| Kernel.KernelExtremes | contiguous_line_filter.cpp:43-59 | the centre weight is 1; every weight lies in [1, 2^(K/2)] with 2^(K/2) ≤ 64; border cells hold 2^(K/2) |
| Kernel.KernelSymmetric | contiguous_line_filter.cpp:50-59 | the kernel is symmetric under both mirrorings and under transposition |
| Kernel.Pow2Monotone | contiguous_line_filter.cpp:44-45 | powers of two are positive and monotone |
| Kernel.PaintStep | contiguous_line_filter.cpp:50-59 | painting ring i sets exactly the square [i, K−i)² to 2^(K/2−i); after the last ring every cell holds its weight |
| Kernel.PaintColumn | contiguous_line_filter.cpp:54-57 | the innermost loop writes one column of ring i and leaves every other cell as it was |
| Kernel.RingDone | contiguous_line_filter.cpp:52-58 | a fully painted ring i is rings 0..i painted |
| Kernel.BuildKernel | contiguous_line_filter.cpp:38-59 | the filled vector holds 2^(K/2 − ring(x, y)) at y·K + x for every cell |
| Kernel.CenterRowPrefix | contiguous_line_filter.cpp:64-67 | closed form of every prefix sum of the centre row |
| Kernel.ChecksumClosedForm | contiguous_line_filter.cpp:64-67 | the centre-row sum is 2^(K/2+2) − 3 |
| Kernel.CenterRowSum | contiguous_line_filter.cpp:64-67 | the checksum as the sum of the kernel's centre row: the definition that ComputeChecksum's contract and ChecksumClosedForm refer to |
| Kernel.ChecksumFitsByte | contiguous_line_filter.cpp:29-30 | for odd K ≤ 13 the checksum lies in [1, 253], so the uint8 field never wraps |
| Kernel.CenterColumnSum | contiguous_line_filter.cpp:64-67 | the centre column sums to the same value as the centre row |
| Kernel.RowPrefix | contiguous_line_filter.cpp:50-59 | closed form of every prefix sum of a kernel row in the upper half |
| Kernel.RowExcess | contiguous_line_filter.cpp:50-67 | a kernel row at distance d ≥ 1 above the centre sums to the checksum plus 3 + (2d − 3)·2^d |
| Kernel.RowMirror | contiguous_line_filter.cpp:50-59 | rows y and K − 1 − y of the kernel have the same sum |
| Kernel.OffCentreRowsDiffer | contiguous_line_filter.cpp:275-284 | for every odd K ≤ 13, no kernel row but the centre one sums to the checksum modulo 256 |
| Kernel.ComputeChecksum | contiguous_line_filter.cpp:64-67 | the 8-bit accumulation yields exactly the centre-row sum 2^(K/2+2) − 3 |
| Kernel.ModAdd256 | contiguous_line_filter.cpp:280 | reducing the 8-bit running sum before each addition leaves the final residue unchanged |
| ProductTable.Opposite | contiguous_line_filter.cpp:112-123 | (i + 2K − 2 + j) mod L is a perimeter index, equal to (i + L/2 + j) mod L |
| ProductTable.RowProducts | contiguous_line_filter.cpp:120-124 | position i contributes exactly span products |
| ProductTable.Generated | contiguous_line_filter.cpp:116-131 | the products of positions 0..n−1 in loop order, span of them per position: the sequence the fill loop consumes, which FillAcceptable's contract and the table lemmas refer to |
| ProductTable.Products | contiguous_line_filter.cpp:116-131 | all L·span products the two loops generate, in loop order |
| ProductTable.TableConfig | contiguous_line_filter.cpp:29-30 | the constructor's preconditions: the asserts at :29-30 and :79, span/2 ≤ 2K − 2 (so the operand of the `%` at :123 is never negative), byte weights, and room for every distinct product |
| ProductTable.PerimeterLength | contiguous_line_filter.cpp:81 | L = 4(K − 1), the perimeter vector's length: the definition every perimeter index is bounded by |
| ProductTable.LutSize | contiguous_line_filter.cpp:108 | L·span/2, the table's capacity: the definition the constructor's `lutSize` field and TableShape's length clause refer to |
| ProductTable.Product | contiguous_line_filter.cpp:122-123 | the product of weight i and the weight at Opposite(i, j): the definition RowProducts builds on and ProductsExactly is stated with |
| ProductTable.GeneratedContains | contiguous_line_filter.cpp:116-131 | every pairing (i, j) with i < n is among the products generated for positions 0..n−1 |
| ProductTable.GeneratedMembers | contiguous_line_filter.cpp:116-131 | every generated product comes from some pairing (i, j) |
| ProductTable.ProductsExactly | contiguous_line_filter.cpp:116-131 | a value is generated iff it is w[i]·w[(i + L/2 + j) mod L] for some i < L and \|j\| ≤ span/2 |
| ProductTable.Dedup | contiguous_line_filter.cpp:125-129 | the first-seen deduplication holds distinct values, no 0, and exactly the non-zero generated values |
| ProductTable.DedupSize | contiguous_line_filter.cpp:125-129 | the length of `Dedup(s)` equals the cardinality of `Elements(s) - {0}`: the deduplicated list is exactly as long as the set of distinct non-zero values in `s` |
| ProductTable.Insert | contiguous_line_filter.cpp:134 | insertion into a sorted list is sorted and adds exactly one occurrence |
| ProductTable.Sort | contiguous_line_filter.cpp:134 | the result is sorted and a permutation of the input |
| ProductTable.Unsorted | contiguous_line_filter.cpp:110 | the vector before sorting has length L·span/2 |
| ProductTable.AcceptableTable | contiguous_line_filter.cpp:108-144 | h_mAcceptableVec: the zero-filled first-seen table, sorted; the definition that the constructor's contract refers to and TableShape, TableCounts and TableMembership describe |
| ProductTable.TableShape | contiguous_line_filter.cpp:134-144 | the table has length L·span/2 and is sorted ascending |
| ProductTable.TableCounts | contiguous_line_filter.cpp:110-144 | each non-zero value occurs once if generated and otherwise never; 0 fills every slot the fill loop left unused |
| ProductTable.TableMembership | contiguous_line_filter.cpp:110-144 | a value is in the table iff it was generated, or it is 0 and a slot was left unused |
| ProductTable.TableContainsProducts | contiguous_line_filter.cpp:116-144 | every w[i]·w[(i + L/2 + j) mod L] with \|j\| ≤ span/2 is in the table |
| ProductTable.Contains | contiguous_line_filter.cpp:234-241 | the linear search reports true iff the value occurs in the sequence |
| ProductTable.FillStep | contiguous_line_filter.cpp:125-129 | a product found in the vector leaves the deduplication as it was; otherwise slot counter is free and the store extends it |
| ProductTable.RoomForNew | contiguous_line_filter.cpp:127 | under the capacity precondition, a product not yet stored still has a free slot |
| ProductTable.StoreIfNew | contiguous_line_filter.cpp:125-129 | the find-and-store step leaves the vector as the deduplication of the products seen so far, zero-filled |
| ProductTable.RowProductAt | contiguous_line_filter.cpp:122-123 | the product the loop computes for (i, j) is the j-th of row i, and a generated one |
| ProductTable.FillRow | contiguous_line_filter.cpp:120-130 | the inner loop extends the vector by the products of position i |
| ProductTable.FillAcceptable | contiguous_line_filter.cpp:108-131 | the filled vector is the first-seen deduplication of all products, then zeros up to L·span/2 |
| Grids.Clamp | contiguous_line_filter.cpp:159 | each pixel becomes 1 iff it is greater than 1, else 0; dimensions are kept |
| Grids.Threshold | contiguous_line_filter.cpp:159 | THRESH_BINARY at 1 with maxval 1 on one pixel: always 0 or 1; the definition Clamp applies to every pixel |
| Grids.ZeroPad | contiguous_line_filter.cpp:171 | the padded plane has a border of m on every side, and pixel (a, b) is the original (a−m, b−m), 0 outside |
| Grids.PadTransparent | contiguous_line_filter.cpp:171 | reading the padded plane at offset m is reading the original plane with a zero border |
| Grids.ClampOfZero255 | contiguous_line_filter.cpp:157-159 | a 0/255 image clamps to 0/1 with its foreground kept |
| Grids.ClampOfFaint | contiguous_line_filter.cpp:159 | an image with no pixel above 1 is blank once clamped |
| Grids.ThresholdCopy | contiguous_line_filter.cpp:158-159 | the clamp goes into a fresh array |
| Grids.PadCopy | contiguous_line_filter.cpp:170-171 | the padded copy is fresh and holds the image with a zero border of width m |
| Grids.FillPixel | contiguous_line_filter.cpp:245 | a write to one pixel moves the in-place fill on by one row |
| Grids.Snapshot | contiguous_line_filter.cpp:171 | reading a cv::Mat into a value gives exactly the array's current pixels |
| Grids.Foreground | contiguous_line_filter.cpp:256-288 | the set of coordinates of non-zero pixels: the definition RunsNeverGrow and FilterRunsNeverGrow compare |
| Grids.Materialize | contiguous_line_filter.cpp:159 | a fresh array holding exactly the given pixels, as the OpenCV calls write their destination |
| Passes.PerimeterOffset | contiguous_line_filter.cpp:185-228 | perimeter position t is a cell of the outer ring of the kernel |
| Passes.EdgeCell | contiguous_line_filter.cpp:186-227 | the padded cell the k-th step of each of the four edge loops reads (top row, right column, bottom row, left column): the definition EdgeCellOffset relates to PerimeterOffset |
| Passes.EdgeStart | contiguous_line_filter.cpp:186-227 | the perimeter position e·(K − 1) where edge loop e starts: the definition ScanEdge's contract advances the scan from |
| Passes.PerimeterInjective | contiguous_line_filter.cpp:185-228 | no outer-ring cell is visited twice |
| Passes.PerimeterCovers | contiguous_line_filter.cpp:185-228 | every outer-ring cell is visited |
| Passes.PerimeterWalk | contiguous_line_filter.cpp:185-228 | the walk starts at the top-left corner and steps clockwise one cell at a time back to the start |
| Passes.Perimeter | contiguous_line_filter.cpp:185-228 | the lit flags of the L perimeter cells around a pixel, in the order the four edge loops read them: the sequence that ScanPerimeter's contract and the scan lemmas refer to |
| Passes.Lit | contiguous_line_filter.cpp:186-227 | whether perimeter cell t is lit; a lit cell always lies inside the image, because the zero border is never lit |
| Passes.EdgeCellOffset | contiguous_line_filter.cpp:186-227 | the cell each edge loop reads at step k is perimeter position k + h + e·(K−1), a weight index below 4(K−1) |
| Passes.EdgeCellLit | contiguous_line_filter.cpp:186-227 | the cell each edge loop reads in the padded copy is lit iff that perimeter position is lit |
| Passes.PerimeterMatchesPadded | contiguous_line_filter.cpp:186-227 | all four edge loops read, in the padded copy, exactly the perimeter cells of the kernel centred on the pixel |
| Passes.LitPositions | contiguous_line_filter.cpp:186-228 | lists lit perimeter positions, ascending |
| Passes.LitPositionsComplete | contiguous_line_filter.cpp:186-228 | every lit position is listed |
| Passes.Scan | contiguous_line_filter.cpp:183-228 | the early-exit scan with its uint16 product: the count never passes 2 and the product stays below 2^16; the definition that ScanEdge's and ScanPerimeter's contracts and ScanFindsFirstTwo refer to |
| Passes.ScanSettles | contiguous_line_filter.cpp:188-189 | once two lit cells are counted, the rest of the scan changes nothing |
| Passes.ScanStep | contiguous_line_filter.cpp:188-194 | one scan step keeps the count and the 16-bit product in step with the first two lit positions |
| Passes.ScanFindsFirstTwo | contiguous_line_filter.cpp:178-228 | the early-exit scan counts the lit cells up to two, and its uint16 product equals the exact product of the first two weights |
| Passes.ScanEdge | contiguous_line_filter.cpp:186-195 | one edge loop, with its early break, advances the scan by K−1 positions |
| Passes.ScanPerimeter | contiguous_line_filter.cpp:183-228 | the four edge loops together compute the scan over the whole perimeter |
| Passes.StraightLineVerdict | contiguous_line_filter.cpp:178-248 | the pixel is cleared iff pass 1 maps it to 0, and otherwise keeps its value |
| Passes.Pass1Pixel | contiguous_line_filter.cpp:178-248 | the pass-1 value of one pixel, either its own value or 0; the definition Pass1 applies to every pixel and Pass1OnlyClears characterises |
| Passes.Pass1 | contiguous_line_filter.cpp:173-250 | every pixel is judged from the same pre-pass snapshot; dimensions are kept |
| Passes.Pass1OnlyClears | contiguous_line_filter.cpp:178-248 | pass 1 only clears, and it clears a pixel iff it is lit, two perimeter cells are lit, and the first two weights' product is not in the table |
| Passes.PairInTableKept | contiguous_line_filter.cpp:230-247 | a lit pixel whose first two lit perimeter cells have a product in the table is kept |
| Passes.OppositePairKept | contiguous_line_filter.cpp:116-131 | with the constructor's table, a pixel whose first two lit perimeter cells are within span/2 of opposite each other is kept |
| Passes.StraightLineColumn | contiguous_line_filter.cpp:175-249 | one column of pass 1 in place moves the fill on to the next column |
| Passes.StraightLinePass | contiguous_line_filter.cpp:170-250 | the in-place pass leaves the array holding Pass1 of the clamped image |
| Passes.WindowRowNext | contiguous_line_filter.cpp:277-281 | one inner-loop step adds pixel·weight to the window row sum |
| Passes.WindowRow | contiguous_line_filter.cpp:277-281 | the kernel-weighted sum of one window row, unbounded: the definition that WindowRowSum's contract and the line lemmas refer to |
| Passes.Window | contiguous_line_filter.cpp:275-282 | the kernel-weighted sum of the whole window, unbounded; WindowSum's 8-bit accumulator ends holding it modulo 256 |
| Passes.WindowRowSum | contiguous_line_filter.cpp:277-281 | the inner loop adds one window row to the 8-bit accumulator |
| Passes.WindowSum | contiguous_line_filter.cpp:273-282 | the 8-bit accumulator ends holding the window sum modulo 256 |
| Passes.Pass2Pixel | contiguous_line_filter.cpp:273-285 | the pass-2 value of one pixel: 255 when the 8-bit window sum equals the checksum, else 0, so always 0 or 255; the definition Pass2 applies to every pixel |
| Passes.Pass2 | contiguous_line_filter.cpp:268-287 | every pixel is 255 or 0 by the window test on the same snapshot; dimensions are kept |
| Passes.Pass2Runs | contiguous_line_filter.cpp:256-288 | any number of runs keeps the dimensions; the definition of n successive runs that RunNeverCreates, RunsKeepOnlyForeground and RunsNeverGrow constrain |
| Passes.WindowRowParity | contiguous_line_filter.cpp:276-282 | modulo 2, a window row sums to the centre pixel where it covers the centre, and to 0 elsewhere |
| Passes.WindowParity | contiguous_line_filter.cpp:275-282 | modulo 2, the whole window sum equals the centre pixel |
| Passes.CentreOdd | contiguous_line_filter.cpp:275-284 | a window whose 8-bit sum equals an odd checksum has an odd centre pixel |
| Passes.Pass2NeverCreates | contiguous_line_filter.cpp:273-285 | with a kernel odd only at its centre and an odd checksum, a pixel pass 2 sets to 255 was odd, and so non-zero, in the image it read |
| Passes.RunNeverCreates | contiguous_line_filter.cpp:256-288 | a pixel set after run n + 1 was set after run n |
| Passes.RunsKeepOnlyForeground | contiguous_line_filter.cpp:256-288 | a pixel set after any number of runs was set before the first |
| Passes.RunsCompose | contiguous_line_filter.cpp:256-288 | k runs after m runs are exactly m + k runs |
| Passes.RunsNeverGrow | contiguous_line_filter.cpp:256-288 | the foreground after run n + 1 is a subset of the foreground after run n |
| Passes.RunsShrinkForeground | contiguous_line_filter.cpp:256-288 | the foreground after any number of runs is a subset of the foreground before the first |
| Passes.Filter | contiguous_line_filter.cpp:154-291 | what run returns: the clamp, pass 1, then the pass-2 runs, with the input's dimensions; the value Run's contract equates the result with |
| Passes.WindowRowUniform | contiguous_line_filter.cpp:277-281 | a window row whose pixels all hold v sums to v times the row's weights |
| Passes.WindowRowSingle | contiguous_line_filter.cpp:277-281 | a window row lit only at column x sums to v times that cell's weight |
| Passes.WindowOfHorizontalLine | contiguous_line_filter.cpp:275-282 | a horizontal line of value v along window row y sums to v times the weights of kernel row y; through the centre, v times the checksum |
| Passes.WindowOfVerticalLine | contiguous_line_filter.cpp:275-282 | a vertical line of value v through the centre sums to v times the centre-column weights |
| Passes.WindowOfIsolatedPixel | contiguous_line_filter.cpp:275-282 | an isolated pixel of value v sums to v |
| Passes.ChecksumOdd | contiguous_line_filter.cpp:64-67 | the checksum is odd |
| Passes.NegatedByteDiffers | contiguous_line_filter.cpp:284 | an odd byte is not congruent to 255 times itself modulo 256 |
| Passes.StraightLineConfirmed | contiguous_line_filter.cpp:273-284 | a pixel on a horizontal or vertical one-pixel line of 1s through its window becomes 255 |
| Passes.OffCentreLineCleared | contiguous_line_filter.cpp:273-285 | a horizontal line of 1s along any window row but the centre one gives 0 |
| Passes.RepaintedLineCleared | contiguous_line_filter.cpp:256-287 | the same line stored as 255s, as a later run reads it, becomes 0 |
| Passes.IsolatedPixelCleared | contiguous_line_filter.cpp:273-284 | an isolated pixel whose value is not the checksum becomes 0 |
| Passes.ContiguousLineColumn | contiguous_line_filter.cpp:270-286 | one column of a pass-2 run in place moves the fill on to the next column |
| Passes.ContiguousLinePass | contiguous_line_filter.cpp:262-287 | one in-place run leaves the array holding Pass2 of the previous grid |
| LineFilter.ContiguousLineFilter.constructor | contiguous_line_filter.cpp:8-147 | the fields hold the kernel, the checksum 2^(K/2+2) − 3 ≤ 253, the perimeter weights, and the acceptable table, sorted and of length L·span/2 |
| LineFilter.ContiguousLineFilter.Run | contiguous_line_filter.cpp:154-291 | the fresh result holds clamp, then pass 1, then kernelRuns pass-2 runs of the image |
| LineFilter.FilterValues | contiguous_line_filter.cpp:154-291 | the output has the input's dimensions; with no run every pixel is 0 or 1, after one or more runs 0 or 255 |
| LineFilter.Pass1OfBlank | contiguous_line_filter.cpp:178-248 | pass 1 leaves a blank image blank |
| LineFilter.WindowOfBlank | contiguous_line_filter.cpp:273-282 | a window over a blank image sums to 0 |
| LineFilter.Pass2RunsOfBlank | contiguous_line_filter.cpp:256-287 | a blank image stays blank through any number of runs |
| LineFilter.FaintImageFiltersToBlank | contiguous_line_filter.cpp:154-291 | an image with no pixel above 1, such as one stored as 0/1, comes out blank |
| LineFilter.FilterNeverCreates | contiguous_line_filter.cpp:154-291 | whatever the number of runs, a pixel set in the output was above 1 in the input |
| LineFilter.FilterRunsNeverGrow | contiguous_line_filter.cpp:154-291 | for m ≤ n runs (m = 1 included), the n-run output's foreground lies within the m-run output's foreground |
| LineFilter.FilterCountNeverGrows | contiguous_line_filter.cpp:154-291 | so the n-run output has no more foreground pixels than the m-run output |
| LineFilter.LineLitAcross | contiguous_line_filter.cpp:185-228 | around a pixel of a full-width line of 1s only perimeter positions 3h and 7h, level with the pixel, can be lit |
| LineFilter.LineKeptByPass1 | contiguous_line_filter.cpp:178-248 | with the constructor's table, pass 1 keeps every pixel of a full-width line of 1s and the zeros around it |
| LineFilter.PrunedLine | contiguous_line_filter.cpp:157-250 | the clamp and pass 1 turn a full-width line of 255s into a full-width line of 1s |
| LineFilter.LineInWindow | contiguous_line_filter.cpp:275-282 | a window at least K/2 from the left and right edges sees a full-width line along its row r0 − r + K/2 |
| LineFilter.FullWidthLineConfirmed | contiguous_line_filter.cpp:154-291 | one run leaves a full-width line of 255s as 255 wherever its window lies inside the image |
| LineFilter.FirstRunPixel | contiguous_line_filter.cpp:256-287 | after one run over a full-width line of 1s, a pixel within K/2 rows of the line is 255 on the line and 0 off it |
| LineFilter.LineWindowFromRows | contiguous_line_filter.cpp:275-282 | a grid holding v on row r0 and 0 on the rows within K/2 of it, across a window's columns, holds a horizontal line of v through that window's centre |
| LineFilter.FullWidthLineClearedBySecondRun | contiguous_line_filter.cpp:154-291 | two runs clear that line at every pixel at least 2·(K/2) from the left and right edges |

## Left out

- Reading the weights file (`contiguous_line_filter.cpp:91-102`) is file I/O. The constructor takes the L perimeter weights as a parameter, already cast to bytes.
- `main.cpp` is a driver with hard-coded parameters and image file I/O. It is not part of this model.
- OpenCV is a foreign library. `cv::Mat` becomes `array2<int>`. `cv::threshold` and `copyMakeBorder` are restated as `Clamp` and `ZeroPad` with the semantics the filter uses.
- `std::pow(2, i)` at `:45` is floating point. It is modelled as the integer 2^i, which is exact for i ≤ 6.
- `std::sort` at `:134` is taken by its postcondition, a sorted permutation. `Sort` is an insertion sort on values.
- The copy of the sorted vector into `h_mAcceptableVec` (`:139-144`) is a value assignment of the same sequence.
- The `assert`s at `:29-30`, `:79` and `:95` become `requires` clauses. The open-file check at `:95` has no counterpart, because there is no file.
- LineFilter.ContiguousLineFilter.constructor: it requires two more conditions than the source states.
  - span/2 ≤ 2K − 2, so that the operand of the `%` at `:123` is never negative. In C++ that operand is converted to unsigned and wraps.
  - The distinct generated products fit the L·span/2 slots, so the write at `:127` stays in bounds. This bound counts 0 as well, which is slightly stronger than the source strictly needs.
- LineFilter.ContiguousLineFilter.constructor: `kernelSize`, `kernelRuns` and `kernelSpan` are naturals. The conversion of negative `int` arguments to the `uint32_t` fields is not modelled.
- The fields `mKernelVecSize`, `mLUTsize` and `mChecksum` are immutable after construction, as the source never writes them again, so they are `const` fields.
- Each pass writes its pixels in place, column by column, through helper methods for one column and one pixel. Each pass reads a fresh padded copy, so the order of the writes cannot change the result.
- There is no concurrency in the source.
