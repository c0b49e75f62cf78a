// The ContiguousLineFilter object (contiguous_line_filter.h:18-38): the
// constructor that builds the kernel, the checksum and the acceptable-product
// table, and run, which clamps an image, prunes it once with pass 1 and
// confirms it kernelRuns times with pass 2.

module LineFilter {
  import opened Kernel
  import opened ProductTable
  import opened Grids
  import opened Passes

  class ContiguousLineFilter {
    const kernelSize: nat
    const kernelRuns: nat
    const kernelSpan: nat
    const kernelVecSize: nat
    const checksum: int
    const lutSize: nat
    /** The size×size concentric kernel, row-major. */
    const kernel: seq<int>
    /** The perimeter weights, one byte per outer-ring cell. */
    const kernelVec: seq<int>
    /** The sorted, zero-filled table of acceptable products. */
    const acceptable: seq<int>

    ghost predicate Valid() {
      TableConfig(kernelVec, kernelSize, kernelSpan) &&
      kernelVecSize == PerimeterLength(kernelSize) && lutSize == LutSize(kernelSize, kernelSpan) &&
      IsKernel(kernel, kernelSize) && checksum == CenterRowSum(kernelSize) &&
      acceptable == AcceptableTable(kernelVec, kernelSize, kernelSpan)
    }

    /**
     * Builds the kernel and its checksum, then the table of acceptable
     * products from the perimeter weights (already read and cast to bytes).
     */
    constructor(weights: seq<int>, size: nat, runs: nat, span: nat)
      requires TableConfig(weights, size, span)
      ensures Valid()
      ensures kernelSize == size && kernelRuns == runs && kernelSpan == span && kernelVec == weights
      ensures checksum == Pow2(size / 2 + 2) - 3 <= 253
      ensures |acceptable| == lutSize && Sorted(acceptable)
    {
      kernelSize := size;
      kernelRuns := runs;
      kernelSpan := span;
      var k := BuildKernel(size);
      kernel := k;
      var sum := ComputeChecksum(k, size);
      checksum := sum;
      kernelVecSize := PerimeterLength(size);
      kernelVec := weights;
      lutSize := LutSize(size, span);
      var unsorted := FillAcceptable(weights, size, span);
      acceptable := Sort(unsorted);
      ChecksumFitsByte(size);
      TableShape(weights, size, span);
    }

    /** Filters image into a fresh array; image itself is left as it is. */
    method Run(image: array2<int>) returns (result: array2<int>)
      requires Valid()
      ensures fresh(result)
      ensures Holds(result, Filter(GridOf(image), kernelSize, kernelRuns, kernel, kernelVec, acceptable, checksum))
    {
      ghost var g := GridOf(image);
      var clamped := ThresholdCopy(image);
      StraightLinePass(clamped, Clamp(g), kernelSize, kernelVec, acceptable);
      ghost var pruned := Pass1(Clamp(g), kernelSize, kernelVec, acceptable);
      var run := 0;
      while run < kernelRuns
        invariant run <= kernelRuns
        invariant Holds(clamped, Pass2Runs(pruned, kernelSize, kernel, checksum, run))
      {
        ContiguousLinePass(clamped, Pass2Runs(pruned, kernelSize, kernel, checksum, run), kernelSize, kernel, checksum);
        run := run + 1;
      }
      result := clamped;
    }
  }

  /**
   * The output has the input's dimensions; without a pass-2 run every pixel
   * is 0 or 1 (the clamp, then pass 1, which only clears), and after one or
   * more runs every pixel is 0 or 255.
   */
  lemma FilterValues(g: Grid, size: nat, runs: nat, kernel: seq<int>, weights: seq<int>, table: seq<int>,
                     checksum: int, r: nat, c: nat)
    requires g.Valid() && size % 2 == 1 && |kernel| == size * size && PerimeterWeights(weights, size)
    requires r < g.rows && c < g.cols
    ensures var out := Filter(g, size, runs, kernel, weights, table, checksum);
      out.rows == g.rows && out.cols == g.cols &&
      if runs == 0 then out.cells[r][c] == 0 || out.cells[r][c] == 1
      else out.cells[r][c] == 0 || out.cells[r][c] == 255
  {
    Pass1OnlyClears(Clamp(g), size, weights, table, r, c);
  }

  /** Pass 1 leaves a blank image blank. */
  lemma Pass1OfBlank(g: Grid, size: nat, weights: seq<int>, table: seq<int>)
    requires g.Valid() && size % 2 == 1 && |weights| == PerimeterLength(size) && Blank(g)
    ensures Blank(Pass1(g, size, weights, table))
  {
  }

  /** A pass-2 window over a blank image sums to 0. */
  lemma {:induction false} WindowOfBlank(g: Grid, size: nat, kernel: seq<int>, r: int, c: int, m: nat)
    requires g.Valid() && IsKernel(kernel, size) && m <= size && Blank(g)
    ensures Window(g, size, kernel, r, c, m) == 0
  {
    if m > 0 {
      WindowOfBlank(g, size, kernel, r, c, m - 1);
      WindowRowUniform(g, size, kernel, r, c, m - 1, size, 0);
    }
  }

  /** However many pass-2 runs follow, a blank image stays blank: the checksum is never 0. */
  lemma {:induction false} Pass2RunsOfBlank(g: Grid, size: nat, kernel: seq<int>, checksum: int, n: nat)
    requires g.Valid() && IsKernel(kernel, size) && checksum % 256 != 0 && Blank(g)
    ensures Blank(Pass2Runs(g, size, kernel, checksum, n))
  {
    if n > 0 {
      var prev := Pass2Runs(g, size, kernel, checksum, n - 1);
      Pass2RunsOfBlank(g, size, kernel, checksum, n - 1);
      forall r, c | 0 <= r < prev.rows && 0 <= c < prev.cols
        ensures Pass2Pixel(prev, size, kernel, checksum, r, c) == 0
      {
        WindowOfBlank(prev, size, kernel, r, c, size);
      }
    }
  }

  /**
   * An image with no pixel above 1 (for instance one stored as 0/1 rather
   * than 0/255) comes out blank, whatever the number of runs.
   */
  lemma FaintImageFiltersToBlank(g: Grid, size: nat, runs: nat, kernel: seq<int>, weights: seq<int>,
                                 table: seq<int>)
    requires g.Valid() && ValidSize(size) && IsKernel(kernel, size) && |weights| == PerimeterLength(size)
    requires forall r, c :: 0 <= r < g.rows && 0 <= c < g.cols ==> g.cells[r][c] <= 1
    ensures Blank(Filter(g, size, runs, kernel, weights, table, CenterRowSum(size)))
  {
    ClampOfFaint(g);
    Pass1OfBlank(Clamp(g), size, weights, table);
    ChecksumFitsByte(size);
    SmallMod(CenterRowSum(size), 256);
    Pass2RunsOfBlank(Pass1(Clamp(g), size, weights, table), size, kernel, CenterRowSum(size), runs);
  }

  /**
   * The filter only removes foreground: whatever the number of runs, a pixel
   * set in the output was above 1 in the input.
   */
  lemma FilterNeverCreates(g: Grid, size: nat, runs: nat, kernel: seq<int>, weights: seq<int>, table: seq<int>,
                           r: nat, c: nat)
    requires g.Valid() && size % 2 == 1 && IsKernel(kernel, size) && |weights| == PerimeterLength(size)
    requires r < g.rows && c < g.cols
    ensures Filter(g, size, runs, kernel, weights, table, CenterRowSum(size)).cells[r][c] != 0 ==> g.cells[r][c] > 1
  {
    var pruned := Pass1(Clamp(g), size, weights, table);
    ChecksumOdd(size);
    RunsKeepOnlyForeground(pruned, size, kernel, CenterRowSum(size), runs, r, c);
  }

  /**
   * More runs never grow the foreground: after n runs the set pixels are
   * among those set after any m <= n runs (in particular after the first),
   * so there are no more of them.
   */
  lemma FilterRunsNeverGrow(g: Grid, size: nat, m: nat, n: nat, kernel: seq<int>, weights: seq<int>,
                            table: seq<int>)
    requires g.Valid() && size % 2 == 1 && IsKernel(kernel, size) && |weights| == PerimeterLength(size)
    requires m <= n
    ensures var earlier := Filter(g, size, m, kernel, weights, table, CenterRowSum(size));
      var later := Filter(g, size, n, kernel, weights, table, CenterRowSum(size));
      Foreground(later) <= Foreground(earlier)
  {
    var pruned := Pass1(Clamp(g), size, weights, table);
    var earlier := Filter(g, size, m, kernel, weights, table, CenterRowSum(size));
    var later := Filter(g, size, n, kernel, weights, table, CenterRowSum(size));
    ChecksumOdd(size);
    RunsCompose(pruned, size, kernel, CenterRowSum(size), m, n - m);
    RunsShrinkForeground(earlier, size, kernel, CenterRowSum(size), n - m);
  }

  /** So the number of set pixels never grows with more runs. */
  lemma FilterCountNeverGrows(g: Grid, size: nat, m: nat, n: nat, kernel: seq<int>, weights: seq<int>,
                              table: seq<int>)
    requires g.Valid() && size % 2 == 1 && IsKernel(kernel, size) && |weights| == PerimeterLength(size)
    requires m <= n
    ensures |Foreground(Filter(g, size, n, kernel, weights, table, CenterRowSum(size)))| <=
      |Foreground(Filter(g, size, m, kernel, weights, table, CenterRowSum(size)))|
  {
    var earlier := Foreground(Filter(g, size, m, kernel, weights, table, CenterRowSum(size)));
    var later := Foreground(Filter(g, size, n, kernel, weights, table, CenterRowSum(size)));
    FilterRunsNeverGrow(g, size, m, n, kernel, weights, table);
    SubsetCard(later, earlier);
  }

  // ---------------------------------------------------------------------
  // A straight line through a whole run

  /** Row r0 of g holds v across the full width and every other pixel is 0. */
  predicate FullWidthLine(g: Grid, r0: nat, v: int)
    requires g.Valid()
  {
    r0 < g.rows && forall r, c :: 0 <= r < g.rows && 0 <= c < g.cols ==> g.cells[r][c] == if r == r0 then v else 0
  }

  /**
   * Around a pixel of a full-width line of 1s, only the two perimeter cells
   * level with it can be lit: position 3h on the right edge and 7h on the
   * left edge, h = size / 2.
   */
  lemma LineLitAcross(g: Grid, size: nat, r0: nat, c: int, t: nat)
    requires g.Valid() && size % 2 == 1 && t < PerimeterLength(size) && FullWidthLine(g, r0, 1)
    requires Lit(g, size, r0, c, t)
    ensures t == 3 * (size / 2) || t == 7 * (size / 2)
  {
    var d := PerimeterOffset(size, t);
    assert g.At(r0 + d.0, c + d.1) > 0;
    assert d.0 == 0;
  }

  /**
   * Pass 1, with the table the constructor builds, keeps every pixel of a
   * full-width line of 1s: the first two lit perimeter cells of a line pixel
   * are exactly opposite, and a pixel with fewer than two is never cleared.
   */
  lemma LineKeptByPass1(g: Grid, size: nat, weights: seq<int>, span: nat, r0: nat, r: nat, c: nat)
    requires g.Valid() && TableConfig(weights, size, span) && FullWidthLine(g, r0, 1)
    requires r < g.rows && c < g.cols
    ensures Pass1(g, size, weights, AcceptableTable(weights, size, span)).cells[r][c] == g.cells[r][c]
  {
    var table := AcceptableTable(weights, size, span);
    var pos := LitPositions(Perimeter(g, size, r, c), |weights|);
    if r == r0 && |pos| >= 2 {
      var h := size / 2;
      LineLitAcross(g, size, r0, c, pos[0]);
      LineLitAcross(g, size, r0, c, pos[1]);
      assert pos[0] == 3 * h && pos[1] == 7 * h;
      SmallMod(7 * h, |weights|);
      OppositePairKept(g, size, weights, span, r, c, 0);
    } else {
      Pass1OnlyClears(g, size, weights, table, r, c);
    }
  }

  /** The clamp and pass 1 turn a full-width line of 255s into a full-width line of 1s. */
  lemma PrunedLine(g: Grid, size: nat, weights: seq<int>, span: nat, r0: nat)
    requires g.Valid() && TableConfig(weights, size, span) && FullWidthLine(g, r0, 255)
    ensures FullWidthLine(Pass1(Clamp(g), size, weights, AcceptableTable(weights, size, span)), r0, 1)
  {
    var clamped := Clamp(g);
    assert FullWidthLine(clamped, r0, 1);
    forall r, c | 0 <= r < g.rows && 0 <= c < g.cols
      ensures Pass1(clamped, size, weights, AcceptableTable(weights, size, span)).cells[r][c] == clamped.cells[r][c]
    {
      LineKeptByPass1(clamped, size, weights, span, r0, r, c);
    }
  }

  /**
   * The window centred on (r, c), at least size/2 from the left and right
   * edges, sees a full-width line along its row r0 - r + size/2 (no row at
   * all when r is more than size/2 from r0).
   */
  lemma LineInWindow(g: Grid, size: nat, r0: nat, r: int, c: int, v: int)
    requires g.Valid() && FullWidthLine(g, r0, v)
    requires size / 2 <= c && c + size / 2 < g.cols
    ensures HorizontalLine(g, size, r, c, r0 - r + size / 2, v)
  {
  }

  /**
   * An image holding only a one-pixel-wide full-width line of 255s comes out
   * of one run as 255 on the line wherever the line's window lies inside the
   * image: pass 1 keeps the line and pass 2 confirms it.
   */
  lemma FullWidthLineConfirmed(g: Grid, size: nat, kernel: seq<int>, weights: seq<int>, span: nat, r0: nat, c: nat)
    requires g.Valid() && TableConfig(weights, size, span) && IsKernel(kernel, size) && FullWidthLine(g, r0, 255)
    requires size / 2 <= c && c + size / 2 < g.cols
    ensures Filter(g, size, 1, kernel, weights, AcceptableTable(weights, size, span), CenterRowSum(size)).cells[r0][c] == 255
  {
    var pruned := Pass1(Clamp(g), size, weights, AcceptableTable(weights, size, span));
    PrunedLine(g, size, weights, span, r0);
    LineInWindow(pruned, size, r0, r0, c, 1);
    StraightLineConfirmed(pruned, size, kernel, r0, c);
    assert Pass2Runs(pruned, size, kernel, CenterRowSum(size), 1) == Pass2(pruned, size, kernel, CenterRowSum(size));
  }

  /**
   * One run over a full-width line of 1s leaves the line as 255s and clears
   * the rows within size/2 above and below it, whose windows hold the line
   * off their centre row.
   */
  lemma FirstRunPixel(g: Grid, size: nat, kernel: seq<int>, r0: nat, r: nat, c: nat)
    requires g.Valid() && ValidSize(size) && IsKernel(kernel, size) && FullWidthLine(g, r0, 1)
    requires size / 2 <= c && c + size / 2 < g.cols && r < g.rows && r0 <= r + size / 2 && r <= r0 + size / 2
    ensures Pass2(g, size, kernel, CenterRowSum(size)).cells[r][c] == if r == r0 then 255 else 0
  {
    LineInWindow(g, size, r0, r, c, 1);
    if r == r0 {
      StraightLineConfirmed(g, size, kernel, r, c);
    } else {
      OffCentreLineCleared(g, size, kernel, r, c, r0 - r + size / 2);
    }
  }

  /**
   * A grid that holds v on row r0 and 0 on the rows within size/2 of it,
   * across the columns of the window centred on (r0, c), holds a horizontal
   * line of v through that window's centre.
   */
  lemma LineWindowFromRows(g: Grid, size: nat, r0: nat, c: nat, v: int)
    requires g.Valid() && r0 < g.rows && size / 2 <= c && c + size / 2 < g.cols
    requires forall r, c' ::
      0 <= r < g.rows && r0 <= r + size / 2 && r <= r0 + size / 2 && c - size / 2 <= c' <= c + size / 2 ==>
        g.cells[r][c'] == if r == r0 then v else 0
    ensures HorizontalLine(g, size, r0, c, size / 2, v)
  {
  }

  /**
   * The same line after two runs: the first confirms it and stores it as
   * 255s; with no re-clamp, the second reads 255s along the centre row of the
   * window, which sum to -checksum modulo 256, and clears it.
   */
  lemma FullWidthLineClearedBySecondRun(g: Grid, size: nat, kernel: seq<int>, weights: seq<int>, span: nat,
                                        r0: nat, c: nat)
    requires g.Valid() && TableConfig(weights, size, span) && IsKernel(kernel, size) && FullWidthLine(g, r0, 255)
    requires 2 * (size / 2) <= c && c + 2 * (size / 2) < g.cols
    ensures Filter(g, size, 2, kernel, weights, AcceptableTable(weights, size, span), CenterRowSum(size)).cells[r0][c] == 0
  {
    var checksum := CenterRowSum(size);
    var pruned := Pass1(Clamp(g), size, weights, AcceptableTable(weights, size, span));
    PrunedLine(g, size, weights, span, r0);
    var once := Pass2(pruned, size, kernel, checksum);
    forall r, c' | 0 <= r < g.rows && r0 <= r + size / 2 && r <= r0 + size / 2 && c - size / 2 <= c' <= c + size / 2
      ensures once.cells[r][c'] == if r == r0 then 255 else 0
    {
      FirstRunPixel(pruned, size, kernel, r0, r, c');
    }
    LineWindowFromRows(once, size, r0, c, 255);
    RepaintedLineCleared(once, size, kernel, r0, c);
    assert Pass2Runs(pruned, size, kernel, checksum, 1) == once;
  }
}
