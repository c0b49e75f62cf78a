// The two passes of ContiguousLineFilter::run (contiguous_line_filter.cpp
// :154-291): the straight-line pruning pass, run once, and the
// contiguous-line confirmation pass, run kernelRuns times.

module Passes {
  import opened Kernel
  import opened ProductTable
  import opened Grids

  // ---------------------------------------------------------------------
  // The kernel perimeter

  /**
   * Offset (row, column) from the kernel centre of perimeter position t:
   * top row left to right, right column downwards, bottom row right to left,
   * left column upwards, each edge leaving out its last corner.
   */
  function PerimeterOffset(size: nat, t: nat): (d: (int, int))
    requires size % 2 == 1 && t < PerimeterLength(size)
    ensures -(size / 2) <= d.0 <= size / 2 && -(size / 2) <= d.1 <= size / 2
    ensures d.0 == -(size / 2) || d.0 == size / 2 || d.1 == -(size / 2) || d.1 == size / 2
  {
    var h := size / 2;
    if t < 2 * h then (-h, t - h)
    else if t < 4 * h then (t - 3 * h, h)
    else if t < 6 * h then (h, 5 * h - t)
    else (7 * h - t, -h)
  }

  /** No outer-ring cell is visited twice. */
  lemma PerimeterInjective(size: nat, t: nat, t': nat)
    requires size % 2 == 1 && t < PerimeterLength(size) && t' < PerimeterLength(size)
    requires PerimeterOffset(size, t) == PerimeterOffset(size, t')
    ensures t == t'
  {
  }

  /** Every outer-ring cell is visited. */
  lemma PerimeterCovers(size: nat, dr: int, dc: int)
    requires size % 2 == 1 && size > 1
    requires -(size / 2) <= dr <= size / 2 && -(size / 2) <= dc <= size / 2
    requires dr == -(size / 2) || dr == size / 2 || dc == -(size / 2) || dc == size / 2
    ensures exists t: nat :: t < PerimeterLength(size) && PerimeterOffset(size, t) == (dr, dc)
  {
    var h := size / 2;
    var t: nat;
    if dr == -h && dc < h {
      t := dc + h;
    } else if dc == h && dr < h {
      t := dr + 3 * h;
    } else if dr == h && dc > -h {
      t := 5 * h - dc;
    } else {
      t := 7 * h - dr;
    }
    assert PerimeterOffset(size, t) == (dr, dc);
  }

  /**
   * The walk starts at the top-left corner and goes clockwise one cell at a
   * time: right along the top, down the right side, left along the bottom,
   * up the left side, and back to the start.
   */
  lemma PerimeterWalk(size: nat, t: nat)
    requires size % 2 == 1 && t < PerimeterLength(size)
    ensures PerimeterOffset(size, 0) == (-(size / 2), -(size / 2))
    ensures var h := size / 2;
      var d := PerimeterOffset(size, t);
      var next := if t + 1 < PerimeterLength(size) then PerimeterOffset(size, t + 1) else PerimeterOffset(size, 0);
      if t < 2 * h then next == (d.0, d.1 + 1)
      else if t < 4 * h then next == (d.0 + 1, d.1)
      else if t < 6 * h then next == (d.0, d.1 - 1)
      else next == (d.0 - 1, d.1)
  {
    assert PerimeterLength(size) == 8 * (size / 2);
  }

  // ---------------------------------------------------------------------
  // Pass 1: straight-line pruning

  /**
   * Which perimeter cells of the kernel centred on (r, c) are lit, in scan
   * order.
   */
  function Perimeter(g: Grid, size: nat, r: int, c: int): (lit: seq<bool>)
    requires g.Valid() && size % 2 == 1
    ensures |lit| == PerimeterLength(size)
  {
    seq(PerimeterLength(size), t requires 0 <= t < PerimeterLength(size) => Lit(g, size, r, c, t))
  }

  /** Whether perimeter cell t of the kernel centred on (r, c) is lit. */
  predicate Lit(g: Grid, size: nat, r: int, c: int, t: nat)
    requires g.Valid() && size % 2 == 1 && t < PerimeterLength(size)
    ensures Lit(g, size, r, c, t) ==>
      0 <= r + PerimeterOffset(size, t).0 < g.rows && 0 <= c + PerimeterOffset(size, t).1 < g.cols
  {
    var d := PerimeterOffset(size, t);
    g.At(r + d.0, c + d.1) > 0
  }

  /** The lit positions among the first n, ascending. */
  function LitPositions(lit: seq<bool>, n: nat): (pos: seq<nat>)
    requires n <= |lit|
    ensures forall k :: 0 <= k < |pos| ==> pos[k] < n && lit[pos[k]]
    ensures forall a, b :: 0 <= a < b < |pos| ==> pos[a] < pos[b]
  {
    if n == 0 then []
    else LitPositions(lit, n - 1) + if lit[n - 1] then [n - 1] else []
  }

  /** Every lit position among the first n is listed. */
  lemma {:induction false} LitPositionsComplete(lit: seq<bool>, n: nat, t: nat)
    requires t < n <= |lit| && lit[t]
    ensures t in LitPositions(lit, n)
  {
    if t < n - 1 {
      LitPositionsComplete(lit, n - 1, t);
    }
  }

  /**
   * The early-exit scan of the first n perimeter positions: (number of lit
   * cells counted, 16-bit running product of their weights), counting
   * stopping at two.
   */
  function Scan(lit: seq<bool>, weights: seq<int>, n: nat): (s: (nat, int))
    requires |weights| == |lit| && n <= |lit|
    ensures s.0 <= 2 && 0 <= s.1 < 65536
  {
    if n == 0 then (0, 1)
    else
      var prev := Scan(lit, weights, n - 1);
      if prev.0 >= 2 then prev
      else if lit[n - 1] then (prev.0 + 1, (prev.1 * weights[n - 1]) % 65536)
      else prev
  }

  /** Once two lit cells are counted, the rest of the scan changes nothing. */
  lemma {:induction false} ScanSettles(lit: seq<bool>, weights: seq<int>, n: nat, m: nat)
    requires |weights| == |lit| && n <= m <= |lit|
    requires Scan(lit, weights, n).0 >= 2
    ensures Scan(lit, weights, m) == Scan(lit, weights, n)
  {
    if n < m {
      ScanSettles(lit, weights, n, m - 1);
    }
  }

  lemma ByteProduct(a: int, b: int)
    requires 0 <= a < 256 && 0 <= b < 256
    ensures 0 <= a * b <= 255 * 255
  {
    MulMonotone(a, 255, b);
    MulMonotone(b, 255, 255);
  }

  /**
   * What the scan should report for the lit positions pos: how many of them
   * there are, up to two, and the product of the weights of the first two.
   */
  function FirstTwo(weights: seq<int>, pos: seq<nat>): (nat, int)
    requires forall k :: 0 <= k < |pos| ==> pos[k] < |weights|
  {
    if |pos| == 0 then (0, 1)
    else if |pos| == 1 then (1, weights[pos[0]])
    else (2, weights[pos[0]] * weights[pos[1]])
  }

  /** One more position of the scan keeps it in step with FirstTwo. */
  lemma ScanStep(lit: seq<bool>, weights: seq<int>, n: nat)
    requires |weights| == |lit| && 0 < n <= |lit|
    requires forall t :: 0 <= t < |weights| ==> 0 <= weights[t] < 256
    requires Scan(lit, weights, n - 1) == FirstTwo(weights, LitPositions(lit, n - 1))
    ensures Scan(lit, weights, n) == FirstTwo(weights, LitPositions(lit, n))
  {
    var prev := Scan(lit, weights, n - 1);
    var pos := LitPositions(lit, n - 1);
    var pos' := LitPositions(lit, n);
    if !lit[n - 1] {
      assert pos' == pos;
    } else if |pos| >= 2 {
      assert pos' == pos + [n - 1];
      assert pos'[0] == pos[0] && pos'[1] == pos[1];
    } else if |pos| == 0 {
      assert pos' == [n - 1];
      SmallMod(1 * weights[n - 1], 65536);
    } else {
      assert pos' == pos + [n - 1];
      assert pos'[0] == pos[0] && pos'[1] == n - 1;
      var w0, w1 := weights[pos[0]], weights[n - 1];
      assert prev == (1, w0);
      ByteProduct(w0, w1);
      SmallMod(w0 * w1, 65536);
      assert Scan(lit, weights, n) == (2, w0 * w1);
    }
  }

  /**
   * The scan finds the first two lit cells in scan order, and its 16-bit
   * product is exactly the product of their weights: for 8-bit weights the
   * 16-bit accumulator never wraps.
   */
  lemma {:induction false} ScanFindsFirstTwo(lit: seq<bool>, weights: seq<int>, n: nat)
    requires |weights| == |lit| && n <= |lit|
    requires forall t :: 0 <= t < |weights| ==> 0 <= weights[t] < 256
    ensures Scan(lit, weights, n) == FirstTwo(weights, LitPositions(lit, n))
  {
    if n > 0 {
      ScanFindsFirstTwo(lit, weights, n - 1);
      ScanStep(lit, weights, n);
    }
  }

  /** The pass-1 value of pixel (r, c) of the clamped image g. */
  function Pass1Pixel(g: Grid, size: nat, weights: seq<int>, table: seq<int>, r: nat, c: nat): (v: int)
    requires g.Valid() && r < g.rows && c < g.cols
    requires size % 2 == 1 && |weights| == PerimeterLength(size)
    ensures v == g.cells[r][c] || v == 0
  {
    if g.cells[r][c] > 0 then
      var s := Scan(Perimeter(g, size, r, c), weights, |weights|);
      if s.0 == 2 && s.1 !in table then 0 else g.cells[r][c]
    else g.cells[r][c]
  }

  /** Pass 1, every pixel judged from the same snapshot g. */
  function Pass1(g: Grid, size: nat, weights: seq<int>, table: seq<int>): (out: Grid)
    requires g.Valid() && size % 2 == 1 && |weights| == PerimeterLength(size)
    ensures out.Valid() && out.rows == g.rows && out.cols == g.cols
    ensures forall r, c :: 0 <= r < g.rows && 0 <= c < g.cols ==>
      out.cells[r][c] == Pass1Pixel(g, size, weights, table, r, c)
  {
    Grid(g.rows, g.cols,
      seq(g.rows, r requires 0 <= r < g.rows =>
        seq(g.cols, c requires 0 <= c < g.cols => Pass1Pixel(g, size, weights, table, r, c))))
  }

  /**
   * Pass 1 only clears pixels, and it clears pixel (r, c) exactly when the
   * pixel is lit, at least two of its perimeter cells are lit, and the
   * product of the weights of the first two (clockwise from the top-left
   * corner) is not in the table.
   */
  lemma Pass1OnlyClears(g: Grid, size: nat, weights: seq<int>, table: seq<int>, r: nat, c: nat)
    requires g.Valid() && r < g.rows && c < g.cols
    requires size % 2 == 1 && PerimeterWeights(weights, size)
    ensures var out := Pass1(g, size, weights, table).cells[r][c];
      var pos := LitPositions(Perimeter(g, size, r, c), |weights|);
      (out == g.cells[r][c] || out == 0) &&
      (out != g.cells[r][c] <==>
        g.cells[r][c] > 0 && |pos| >= 2 && weights[pos[0]] * weights[pos[1]] !in table)
  {
    ScanFindsFirstTwo(Perimeter(g, size, r, c), weights, |weights|);
  }

  /**
   * With the table the constructor builds, pass 1 keeps a pixel whose first
   * two lit perimeter cells lie across the kernel from each other, within
   * span / 2 positions of exactly opposite: the straight lines it is meant
   * to let through.
   */
  lemma OppositePairKept(g: Grid, size: nat, weights: seq<int>, span: nat, r: nat, c: nat, j: int)
    requires g.Valid() && r < g.rows && c < g.cols && TableConfig(weights, size, span)
    requires -(span / 2) <= j <= span / 2
    requires var pos := LitPositions(Perimeter(g, size, r, c), |weights|);
      |pos| >= 2 && pos[1] == (pos[0] + |weights| / 2 + j) % |weights|
    ensures Pass1(g, size, weights, AcceptableTable(weights, size, span)).cells[r][c] == g.cells[r][c]
  {
    OppositePairFound(LitPositions(Perimeter(g, size, r, c), |weights|), weights, size, span, j);
    PairInTableKept(g, size, weights, AcceptableTable(weights, size, span), r, c);
  }

  /** Lit positions that lie across the kernel within the span have their product in the table. */
  lemma OppositePairFound(pos: seq<nat>, weights: seq<int>, size: nat, span: nat, j: int)
    requires TableConfig(weights, size, span) && -(span / 2) <= j <= span / 2
    requires |pos| >= 2 && pos[0] < |weights| && pos[1] == (pos[0] + |weights| / 2 + j) % |weights|
    ensures weights[pos[0]] * weights[pos[1]] in AcceptableTable(weights, size, span)
  {
    TableContainsProducts(weights, size, span, pos[0], j);
  }

  lemma PairInTableKept(g: Grid, size: nat, weights: seq<int>, table: seq<int>, r: nat, c: nat)
    requires g.Valid() && r < g.rows && c < g.cols
    requires size % 2 == 1 && PerimeterWeights(weights, size)
    requires var pos := LitPositions(Perimeter(g, size, r, c), |weights|);
      |pos| >= 2 && weights[pos[0]] * weights[pos[1]] in table
    ensures Pass1(g, size, weights, table).cells[r][c] == g.cells[r][c]
  {
    Pass1OnlyClears(g, size, weights, table, r, c);
  }

  // ---------------------------------------------------------------------
  // Pass 2: contiguous-line confirmation

  /** Pixel (a, b) of the size×size window centred on (r, c), zero outside the image. */
  function WindowPixel(g: Grid, size: nat, r: int, c: int, a: int, b: int): int
    requires g.Valid()
  {
    g.At(r - size / 2 + a, c - size / 2 + b)
  }

  /** Weighted sum of the first n pixels of window row a for the kernel centred on (r, c). */
  function WindowRow(g: Grid, size: nat, kernel: seq<int>, r: int, c: int, a: nat, n: nat): int
    requires g.Valid() && |kernel| == size * size && a < size && n <= size
  {
    if n == 0 then 0
    else
      WindowRow(g, size, kernel, r, c, a, n - 1) + WindowPixel(g, size, r, c, a, n - 1) * kernel[Idx(size, n - 1, a)]
  }

  /** Weighted sum of the first m window rows. */
  function Window(g: Grid, size: nat, kernel: seq<int>, r: int, c: int, m: nat): int
    requires g.Valid() && |kernel| == size * size && m <= size
  {
    if m == 0 then 0 else Window(g, size, kernel, r, c, m - 1) + WindowRow(g, size, kernel, r, c, m - 1, size)
  }

  /** The pass-2 value of pixel (r, c): 255 when the 8-bit window sum equals the checksum. */
  function Pass2Pixel(g: Grid, size: nat, kernel: seq<int>, checksum: int, r: int, c: int): (v: int)
    requires g.Valid() && |kernel| == size * size
    ensures v == 0 || v == 255
  {
    if Window(g, size, kernel, r, c, size) % 256 == checksum then 255 else 0
  }

  /** One pass-2 run, every pixel computed from the same snapshot g. */
  function Pass2(g: Grid, size: nat, kernel: seq<int>, checksum: int): (out: Grid)
    requires g.Valid() && |kernel| == size * size
    ensures out.Valid() && out.rows == g.rows && out.cols == g.cols
    ensures forall r, c :: 0 <= r < g.rows && 0 <= c < g.cols ==>
      out.cells[r][c] == Pass2Pixel(g, size, kernel, checksum, r, c)
  {
    Grid(g.rows, g.cols,
      seq(g.rows, r requires 0 <= r < g.rows =>
        seq(g.cols, c requires 0 <= c < g.cols => Pass2Pixel(g, size, kernel, checksum, r, c))))
  }

  // ---------------------------------------------------------------------
  // What pass 2 confirms

  /** The window centred on (r, c) holds v along its row y and 0 elsewhere. */
  predicate HorizontalLine(g: Grid, size: nat, r: int, c: int, y: int, v: int)
    requires g.Valid()
  {
    forall a, b :: 0 <= a < size && 0 <= b < size ==>
      WindowPixel(g, size, r, c, a, b) == if a == y then v else 0
  }

  /** The window centred on (r, c) holds v along its centre column and 0 elsewhere. */
  predicate VerticalLine(g: Grid, size: nat, r: int, c: int, v: int)
    requires g.Valid()
  {
    forall a, b :: 0 <= a < size && 0 <= b < size ==>
      WindowPixel(g, size, r, c, a, b) == if b == size / 2 then v else 0
  }

  /** The window centred on (r, c) holds v at its centre and 0 elsewhere. */
  predicate IsolatedPixel(g: Grid, size: nat, r: int, c: int, v: int)
    requires g.Valid()
  {
    forall a, b :: 0 <= a < size && 0 <= b < size ==>
      WindowPixel(g, size, r, c, a, b) == if a == size / 2 && b == size / 2 then v else 0
  }

  lemma MulAdd(v: int, x: int, y: int)
    ensures v * (x + y) == v * x + v * y
  {
  }

  /** A window row whose first n pixels all hold v sums to v times the row's weights. */
  lemma {:induction false} WindowRowUniform(g: Grid, size: nat, kernel: seq<int>, r: int, c: int, a: nat, n: nat, v: int)
    requires g.Valid() && IsKernel(kernel, size) && a < size && n <= size
    requires forall b :: 0 <= b < n ==> WindowPixel(g, size, r, c, a, b) == v
    ensures WindowRow(g, size, kernel, r, c, a, n) == v * RowWeightSum(size, a, n)
  {
    if n > 0 {
      WindowRowUniform(g, size, kernel, r, c, a, n - 1, v);
      assert kernel[Idx(size, n - 1, a)] == Weight(size, n - 1, a);
      MulAdd(v, RowWeightSum(size, a, n - 1), Weight(size, n - 1, a));
    }
  }

  /** A window row lit only at column x with value v sums to v times that cell's weight. */
  lemma {:induction false} WindowRowSingle(g: Grid, size: nat, kernel: seq<int>, r: int, c: int, a: nat, n: nat,
                                           x: nat, v: int)
    requires g.Valid() && IsKernel(kernel, size) && a < size && n <= size && x < size
    requires forall b :: 0 <= b < n ==> WindowPixel(g, size, r, c, a, b) == if b == x then v else 0
    ensures WindowRow(g, size, kernel, r, c, a, n) == if x < n then v * Weight(size, x, a) else 0
  {
    if n > 0 {
      WindowRowSingle(g, size, kernel, r, c, a, n - 1, x, v);
      assert kernel[Idx(size, n - 1, a)] == Weight(size, n - 1, a);
    }
  }

  lemma HorizontalLineRow(g: Grid, size: nat, kernel: seq<int>, r: int, c: int, y: nat, a: nat, v: int)
    requires g.Valid() && IsKernel(kernel, size) && y < size && a < size
    requires HorizontalLine(g, size, r, c, y, v)
    ensures WindowRow(g, size, kernel, r, c, a, size) == if a == y then v * RowWeightSum(size, y, size) else 0
  {
    if a == y {
      WindowRowUniform(g, size, kernel, r, c, a, size, v);
    } else {
      WindowRowUniform(g, size, kernel, r, c, a, size, 0);
    }
  }

  lemma VerticalLineRow(g: Grid, size: nat, kernel: seq<int>, r: int, c: int, a: nat, v: int)
    requires g.Valid() && size % 2 == 1 && IsKernel(kernel, size) && a < size
    requires VerticalLine(g, size, r, c, v)
    ensures WindowRow(g, size, kernel, r, c, a, size) == v * Weight(size, size / 2, a)
  {
    WindowRowSingle(g, size, kernel, r, c, a, size, size / 2, v);
  }

  lemma IsolatedPixelRow(g: Grid, size: nat, kernel: seq<int>, r: int, c: int, a: nat, v: int)
    requires g.Valid() && size % 2 == 1 && IsKernel(kernel, size) && a < size
    requires IsolatedPixel(g, size, r, c, v)
    ensures WindowRow(g, size, kernel, r, c, a, size) == if a == size / 2 then v else 0
  {
    if a == size / 2 {
      WindowRowSingle(g, size, kernel, r, c, a, size, size / 2, v);
      assert Weight(size, size / 2, size / 2) == Pow2(0);
    } else {
      WindowRowUniform(g, size, kernel, r, c, a, size, 0);
    }
  }

  /**
   * The window sum of a horizontal line of value v along window row y is v
   * times the weights of kernel row y; through the centre, v times the
   * checksum.
   */
  lemma {:induction false} WindowOfHorizontalLine(g: Grid, size: nat, kernel: seq<int>, r: int, c: int, y: nat, m: nat,
                                                  v: int)
    requires g.Valid() && IsKernel(kernel, size) && y < size && m <= size
    requires HorizontalLine(g, size, r, c, y, v)
    ensures Window(g, size, kernel, r, c, m) == if m > y then v * RowWeightSum(size, y, size) else 0
  {
    if m > 0 {
      WindowOfHorizontalLine(g, size, kernel, r, c, y, m - 1, v);
      HorizontalLineRow(g, size, kernel, r, c, y, m - 1, v);
    }
  }

  /** The window sum of a vertical line of value v through the centre is v times the centre column's weights. */
  lemma {:induction false} WindowOfVerticalLine(g: Grid, size: nat, kernel: seq<int>, r: int, c: int, m: nat, v: int)
    requires g.Valid() && size % 2 == 1 && IsKernel(kernel, size) && m <= size
    requires VerticalLine(g, size, r, c, v)
    ensures Window(g, size, kernel, r, c, m) == v * ColumnWeightSum(size, size / 2, m)
  {
    if m > 0 {
      WindowOfVerticalLine(g, size, kernel, r, c, m - 1, v);
      VerticalLineRow(g, size, kernel, r, c, m - 1, v);
      MulAdd(v, ColumnWeightSum(size, size / 2, m - 1), Weight(size, size / 2, m - 1));
    }
  }

  /** The window sum of an isolated pixel of value v is v: the centre weight is 1. */
  lemma {:induction false} WindowOfIsolatedPixel(g: Grid, size: nat, kernel: seq<int>, r: int, c: int, m: nat, v: int)
    requires g.Valid() && size % 2 == 1 && IsKernel(kernel, size) && m <= size
    requires IsolatedPixel(g, size, r, c, v)
    ensures Window(g, size, kernel, r, c, m) == if m > size / 2 then v else 0
  {
    if m > 0 {
      WindowOfIsolatedPixel(g, size, kernel, r, c, m - 1, v);
      IsolatedPixelRow(g, size, kernel, r, c, m - 1, v);
    }
  }

  lemma OddForm(k: int)
    ensures (2 * k + 1) % 2 == 1
  {
  }

  /** The checksum is odd: 2^(size/2+2) - 3. */
  lemma ChecksumOdd(size: nat)
    requires size % 2 == 1
    ensures CenterRowSum(size) % 2 == 1
  {
    var n := size / 2 + 1;
    ChecksumClosedForm(size);
    assert Pow2(n + 1) == 2 * Pow2(n);
    OddForm(Pow2(n) - 2);
  }

  /** An odd byte x is not its own negation modulo 256: 255 * x is congruent to 256 - x. */
  lemma NegatedByteDiffers(x: int)
    requires 1 <= x <= 255 && x % 2 == 1
    ensures (255 * x) % 256 != x
  {
    assert 255 * x == 256 * (x - 1) + (256 - x);
  }

  /**
   * Pass 2 keeps a pixel that lies on a one-pixel-wide straight line of 1s,
   * horizontal or vertical, through its window: both sum to the checksum.
   */
  lemma StraightLineConfirmed(g: Grid, size: nat, kernel: seq<int>, r: int, c: int)
    requires g.Valid() && ValidSize(size) && IsKernel(kernel, size)
    requires HorizontalLine(g, size, r, c, size / 2, 1) || VerticalLine(g, size, r, c, 1)
    ensures Pass2Pixel(g, size, kernel, CenterRowSum(size), r, c) == 255
  {
    if HorizontalLine(g, size, r, c, size / 2, 1) {
      WindowOfHorizontalLine(g, size, kernel, r, c, size / 2, size, 1);
    } else {
      WindowOfVerticalLine(g, size, kernel, r, c, size, 1);
      CenterColumnSum(size, size);
    }
    ChecksumFitsByte(size);
    SmallMod(CenterRowSum(size), 256);
  }

  /**
   * A horizontal line of 1s across the window is confirmed only where it
   * runs along the centre row: on any other row of the window its weights
   * miss the checksum modulo 256.
   */
  lemma OffCentreLineCleared(g: Grid, size: nat, kernel: seq<int>, r: int, c: int, y: nat)
    requires g.Valid() && ValidSize(size) && IsKernel(kernel, size) && y < size && y != size / 2
    requires HorizontalLine(g, size, r, c, y, 1)
    ensures Pass2Pixel(g, size, kernel, CenterRowSum(size), r, c) == 0
  {
    WindowOfHorizontalLine(g, size, kernel, r, c, y, size, 1);
    OffCentreRowsDiffer(size, y);
  }

  /**
   * Pass 2 does not re-clamp: in a later run the same line, now stored as
   * 255s, sums to 255 * checksum, which is -checksum modulo 256 and differs
   * from the odd checksum, so the line is cleared.
   */
  lemma RepaintedLineCleared(g: Grid, size: nat, kernel: seq<int>, r: int, c: int)
    requires g.Valid() && ValidSize(size) && IsKernel(kernel, size)
    requires HorizontalLine(g, size, r, c, size / 2, 255) || VerticalLine(g, size, r, c, 255)
    ensures Pass2Pixel(g, size, kernel, CenterRowSum(size), r, c) == 0
  {
    if HorizontalLine(g, size, r, c, size / 2, 255) {
      WindowOfHorizontalLine(g, size, kernel, r, c, size / 2, size, 255);
    } else {
      WindowOfVerticalLine(g, size, kernel, r, c, size, 255);
      CenterColumnSum(size, size);
    }
    ChecksumFitsByte(size);
    ChecksumOdd(size);
    NegatedByteDiffers(CenterRowSum(size));
  }

  /**
   * Pass 2 clears an isolated pixel whose value is not the checksum; for
   * kernels of size 3 and up the checksum is at least 5, so a lone 1 or 255
   * is cleared.
   */
  lemma IsolatedPixelCleared(g: Grid, size: nat, kernel: seq<int>, r: int, c: int, v: int)
    requires g.Valid() && ValidSize(size) && IsKernel(kernel, size)
    requires 0 <= v < 256 && v != CenterRowSum(size) && IsolatedPixel(g, size, r, c, v)
    ensures Pass2Pixel(g, size, kernel, CenterRowSum(size), r, c) == 0
  {
    WindowOfIsolatedPixel(g, size, kernel, r, c, size, v);
    SmallMod(v, 256);
  }

  /** n pass-2 runs, each reading the previous run's output as it is (no re-clamp). */
  function Pass2Runs(g: Grid, size: nat, kernel: seq<int>, checksum: int, n: nat): (out: Grid)
    requires g.Valid() && |kernel| == size * size
    ensures out.Valid() && out.rows == g.rows && out.cols == g.cols
  {
    if n == 0 then g else Pass2(Pass2Runs(g, size, kernel, checksum, n - 1), size, kernel, checksum)
  }

  /** What run returns for input image g. */
  function Filter(g: Grid, size: nat, runs: nat, kernel: seq<int>, weights: seq<int>, table: seq<int>,
                  checksum: int): (out: Grid)
    requires g.Valid() && size % 2 == 1 && |kernel| == size * size && |weights| == PerimeterLength(size)
    ensures out.Valid() && out.rows == g.rows && out.cols == g.cols
  {
    Pass2Runs(Pass1(Clamp(g), size, weights, table), size, kernel, checksum, runs)
  }

  // ---------------------------------------------------------------------
  // Pass 2 never creates foreground

  predicate IsEven(x: int) {
    x % 2 == 0
  }

  lemma EvenTerm(p: int, w: int)
    requires w % 2 == 0
    ensures IsEven(p * w)
  {
    var k := w / 2;
    assert w == 2 * k;
    assert p * w == 2 * (p * k);
  }

  lemma OddTerm(p: int, w: int)
    requires w % 2 == 1
    ensures IsEven(p * w - p)
  {
    var k := w / 2;
    assert w == 2 * k + 1;
    assert p * w == p * (2 * k) + p;
    assert p * (2 * k) == 2 * (p * k);
  }

  lemma EvenSum(x: int, y: int)
    requires IsEven(x) && IsEven(y)
    ensures IsEven(x + y)
  {
  }

  /**
   * Modulo 2 a window row is the centre pixel where it covers the centre,
   * and 0 elsewhere: every other weight is even.
   */
  lemma {:induction false} WindowRowParity(g: Grid, size: nat, kernel: seq<int>, r: int, c: int, a: nat, n: nat)
    requires g.Valid() && size % 2 == 1 && OddOnlyAtCentre(kernel, size) && a < size && n <= size
    ensures IsEven(WindowRow(g, size, kernel, r, c, a, n) - if a == size / 2 && size / 2 < n then g.At(r, c) else 0)
  {
    if n > 0 {
      var prev := WindowRow(g, size, kernel, r, c, a, n - 1);
      var p := WindowPixel(g, size, r, c, a, n - 1);
      var w := kernel[Idx(size, n - 1, a)];
      assert WindowRow(g, size, kernel, r, c, a, n) == prev + p * w;
      WindowRowParity(g, size, kernel, r, c, a, n - 1);
      assert w % 2 == if a == size / 2 && n - 1 == size / 2 then 1 else 0;
      if a == size / 2 && n - 1 == size / 2 {
        assert p == g.At(r, c);
        OddTerm(p, w);
        EvenSum(prev, p * w - p);
      } else {
        EvenTerm(p, w);
        EvenSum(prev - (if a == size / 2 && size / 2 < n - 1 then g.At(r, c) else 0), p * w);
      }
    }
  }

  /** The whole window sum has the parity of the centre pixel. */
  lemma {:induction false} WindowParity(g: Grid, size: nat, kernel: seq<int>, r: int, c: int, m: nat)
    requires g.Valid() && size % 2 == 1 && OddOnlyAtCentre(kernel, size) && m <= size
    ensures IsEven(Window(g, size, kernel, r, c, m) - if size / 2 < m then g.At(r, c) else 0)
  {
    if m > 0 {
      var prev := Window(g, size, kernel, r, c, m - 1);
      var row := WindowRow(g, size, kernel, r, c, m - 1, size);
      var centre := g.At(r, c);
      assert Window(g, size, kernel, r, c, m) == prev + row;
      WindowParity(g, size, kernel, r, c, m - 1);
      WindowRowParity(g, size, kernel, r, c, m - 1, size);
      assert size / 2 < size;
      EvenSum(prev - (if size / 2 < m - 1 then centre else 0), row - (if m - 1 == size / 2 then centre else 0));
    }
  }

  /**
   * Pass 2 only confirms: the 8-bit window sum can equal an odd checksum
   * only when the centre pixel is odd, so a pixel pass 2 sets was already
   * set (and odd) in the image it read.
   */
  lemma Pass2NeverCreates(g: Grid, size: nat, kernel: seq<int>, checksum: int, r: int, c: int)
    requires g.Valid() && size % 2 == 1 && OddOnlyAtCentre(kernel, size) && checksum % 2 == 1
    ensures Pass2Pixel(g, size, kernel, checksum, r, c) != 0 ==> g.At(r, c) % 2 == 1
  {
    if Pass2Pixel(g, size, kernel, checksum, r, c) != 0 {
      CentreOdd(g, size, kernel, checksum, r, c);
    }
  }

  /** A window whose 8-bit sum is the odd checksum has an odd centre pixel. */
  lemma CentreOdd(g: Grid, size: nat, kernel: seq<int>, checksum: int, r: int, c: int)
    requires g.Valid() && size % 2 == 1 && OddOnlyAtCentre(kernel, size) && checksum % 2 == 1
    requires Window(g, size, kernel, r, c, size) % 256 == checksum
    ensures g.At(r, c) % 2 == 1
  {
    var w := Window(g, size, kernel, r, c, size);
    var x := g.At(r, c);
    WindowParity(g, size, kernel, r, c, size);
    assert size / 2 < size;
    assert IsEven(w - x);
    OddResidue(w, checksum);
    OddDifference(w, x);
  }

  /** A sum whose 8-bit residue is odd is odd. */
  lemma OddResidue(w: int, checksum: int)
    requires checksum % 2 == 1 && w % 256 == checksum
    ensures !IsEven(w)
  {
    assert w == 2 * (128 * (w / 256)) + checksum;
  }

  lemma OddDifference(w: int, x: int)
    requires !IsEven(w) && IsEven(w - x)
    ensures x % 2 == 1
  {
  }

  /** A pixel set after run n + 1 was set after run n. */
  lemma RunNeverCreates(g: Grid, size: nat, kernel: seq<int>, checksum: int, n: nat, r: nat, c: nat)
    requires g.Valid() && size % 2 == 1 && IsKernel(kernel, size) && checksum % 2 == 1
    requires r < g.rows && c < g.cols
    ensures Pass2Runs(g, size, kernel, checksum, n + 1).cells[r][c] != 0 ==>
      Pass2Runs(g, size, kernel, checksum, n).cells[r][c] != 0
  {
    var prev := Pass2Runs(g, size, kernel, checksum, n);
    assert Pass2Runs(g, size, kernel, checksum, n + 1) == Pass2(prev, size, kernel, checksum);
    KernelParity(kernel, size);
    Pass2NeverCreates(prev, size, kernel, checksum, r, c);
  }

  /** A pixel set after any number of runs was set before the first. */
  lemma {:induction false} RunsKeepOnlyForeground(g: Grid, size: nat, kernel: seq<int>, checksum: int, n: nat,
                                                  r: nat, c: nat)
    requires g.Valid() && size % 2 == 1 && IsKernel(kernel, size) && checksum % 2 == 1
    requires r < g.rows && c < g.cols
    ensures Pass2Runs(g, size, kernel, checksum, n).cells[r][c] != 0 ==> g.cells[r][c] != 0
  {
    if n > 0 {
      RunNeverCreates(g, size, kernel, checksum, n - 1, r, c);
      RunsKeepOnlyForeground(g, size, kernel, checksum, n - 1, r, c);
    }
  }

  /** k runs after m runs are m + k runs. */
  lemma {:induction false} RunsCompose(g: Grid, size: nat, kernel: seq<int>, checksum: int, m: nat, k: nat)
    requires g.Valid() && |kernel| == size * size
    ensures Pass2Runs(Pass2Runs(g, size, kernel, checksum, m), size, kernel, checksum, k) ==
      Pass2Runs(g, size, kernel, checksum, m + k)
  {
    if k > 0 {
      RunsCompose(g, size, kernel, checksum, m, k - 1);
    }
  }

  /** After any number of runs the foreground lies within the foreground before the first. */
  lemma RunsShrinkForeground(g: Grid, size: nat, kernel: seq<int>, checksum: int, n: nat)
    requires g.Valid() && size % 2 == 1 && IsKernel(kernel, size) && checksum % 2 == 1
    ensures Foreground(Pass2Runs(g, size, kernel, checksum, n)) <= Foreground(g)
  {
    forall p | p in Foreground(Pass2Runs(g, size, kernel, checksum, n))
      ensures p in Foreground(g)
    {
      var (r, c) := p;
      RunsKeepOnlyForeground(g, size, kernel, checksum, n, r, c);
    }
  }

  /** Each further run keeps the foreground or shrinks it. */
  lemma RunsNeverGrow(g: Grid, size: nat, kernel: seq<int>, checksum: int, n: nat)
    requires g.Valid() && size % 2 == 1 && IsKernel(kernel, size) && checksum % 2 == 1
    ensures Foreground(Pass2Runs(g, size, kernel, checksum, n + 1)) <= Foreground(Pass2Runs(g, size, kernel, checksum, n))
  {
    var next := Pass2Runs(g, size, kernel, checksum, n + 1);
    var prev := Pass2Runs(g, size, kernel, checksum, n);
    forall p | p in Foreground(next)
      ensures p in Foreground(prev)
    {
      var (r, c) := p;
      RunNeverCreates(g, size, kernel, checksum, n, r, c);
    }
  }

  // ---------------------------------------------------------------------
  // The per-pixel loops

  /**
   * Padded coordinates of the k-th cell (k in -h .. h-1) of edge e of the
   * perimeter around padded pixel (row, col): top row, right column, bottom
   * row, left column.
   */
  function EdgeCell(e: nat, h: int, row: int, col: int, k: int): (int, int)
    requires e < 4
  {
    if e == 0 then (row - h, col + k)
    else if e == 1 then (row + k, col + h)
    else if e == 2 then (row + h, col - k)
    else (row - k, col - h)
  }

  /** The perimeter position where edge e starts: e * (size - 1). */
  function EdgeStart(e: nat, size: nat): nat
    requires e < 4 && size >= 1
  {
    if e == 0 then 0 else if e == 1 then size - 1 else if e == 2 then 2 * (size - 1) else 3 * (size - 1)
  }

  /** The k-th cell of edge e is perimeter position EdgeStart(e, size) + k + h. */
  lemma EdgeCellOffset(e: nat, size: nat, row: int, col: int, k: int)
    requires e < 4 && size % 2 == 1 && -(size / 2) <= k < size / 2
    ensures EdgeStart(e, size) + k + size / 2 < PerimeterLength(size)
    ensures var cell := EdgeCell(e, size / 2, row, col, k);
      PerimeterOffset(size, EdgeStart(e, size) + k + size / 2) == (cell.0 - row, cell.1 - col)
  {
  }

  /**
   * The k-th cell of edge e around padded pixel (row, col) lies inside the
   * padded array and is lit there exactly when lit says it is.
   */
  ghost predicate CellMatches(padded: array2<int>, lit: seq<bool>, size: nat, row: nat, col: nat, e: nat, k: int)
    reads padded
  {
    var h := size / 2;
    e < 4 && size >= 1 &&
    var cell := EdgeCell(e, h, row, col, k);
    0 <= EdgeStart(e, size) + k + h < |lit| &&
    0 <= cell.0 < padded.Length0 && 0 <= cell.1 < padded.Length1 &&
    (lit[EdgeStart(e, size) + k + h] <==> padded[cell.0, cell.1] > 0)
  }

  lemma EdgeCellLit(padded: array2<int>, g: Grid, size: nat, row: nat, col: nat, e: nat, k: int)
    requires g.Valid() && e < 4 && size % 2 == 1 && -(size / 2) <= k < size / 2
    requires PaddedBy(padded, g, size / 2)
    requires size / 2 <= row < g.rows + size / 2 && size / 2 <= col < g.cols + size / 2
    ensures CellMatches(padded, Perimeter(g, size, row - size / 2, col - size / 2), size, row, col, e, k)
  {
    var h := size / 2;
    var t := EdgeStart(e, size) + k + h;
    EdgeCellOffset(e, size, row, col, k);
    var cell := EdgeCell(e, h, row, col, k);
    var d := PerimeterOffset(size, t);
    assert cell == (row + d.0, col + d.1);
    assert Perimeter(g, size, row - h, col - h)[t] == Lit(g, size, row - h, col - h, t);
    assert 0 <= cell.0 < padded.Length0 && 0 <= cell.1 < padded.Length1;
    assert padded[cell.0, cell.1] == g.At(cell.0 - h, cell.1 - h);
  }

  lemma PerimeterMatchesPadded(padded: array2<int>, g: Grid, lit: seq<bool>, size: nat, row: nat, col: nat)
    requires size % 2 == 1
    requires PaddedBy(padded, g, size / 2)
    requires size / 2 <= row < g.rows + size / 2 && size / 2 <= col < g.cols + size / 2
    requires lit == Perimeter(g, size, row - size / 2, col - size / 2)
    ensures forall e: nat, k :: e < 4 && -(size / 2) <= k < size / 2 ==> CellMatches(padded, lit, size, row, col, e, k)
  {
    forall e: nat, k | e < 4 && -(size / 2) <= k < size / 2
      ensures CellMatches(padded, lit, size, row, col, e, k)
    {
      EdgeCellLit(padded, g, size, row, col, e, k);
    }
  }

  /** One more position of the scan, as the loop body takes it. */
  lemma ScanNext(lit: seq<bool>, weights: seq<int>, t: nat)
    requires |weights| == |lit| && t < |lit|
    ensures var prev := Scan(lit, weights, t);
      Scan(lit, weights, t + 1) ==
        if prev.0 >= 2 then prev
        else if lit[t] then (prev.0 + 1, (prev.1 * weights[t]) % 65536)
        else prev
  {
  }

  /**
   * One edge loop of pass 1: continues the scan over the 2h positions of
   * edge e, stopping at once when two lit cells have been counted.
   */
  method ScanEdge(padded: array2<int>, ghost lit: seq<bool>, size: nat, weights: seq<int>, row: nat, col: nat,
                  e: nat, numPos0: nat, product0: int)
    returns (numPos: nat, product: int)
    requires size % 2 == 1 && |lit| == |weights| == PerimeterLength(size) && e < 4
    requires forall k :: -(size / 2) <= k < size / 2 ==> CellMatches(padded, lit, size, row, col, e, k)
    requires EdgeStart(e, size) + size - 1 <= |lit|
    requires (numPos0, product0) == Scan(lit, weights, EdgeStart(e, size))
    ensures (numPos, product) == Scan(lit, weights, EdgeStart(e, size) + size - 1)
  {
    var h := size / 2;
    var base := EdgeStart(e, size);
    numPos, product := numPos0, product0;
    var k := -h;
    while k < h
      invariant -h <= k <= h
      invariant (numPos, product) == Scan(lit, weights, base + k + h)
    {
      if numPos >= 2 {
        break;
      }
      var cell := EdgeCell(e, h, row, col, k);
      assert CellMatches(padded, lit, size, row, col, e, k);
      ScanNext(lit, weights, base + k + h);
      if padded[cell.0, cell.1] > 0 {
        product := (product * weights[k + h + base]) % 65536;
        numPos := numPos + 1;
      }
      k := k + 1;
    }
    if numPos >= 2 {
      ScanSettles(lit, weights, base + k + h, base + 2 * h);
    }
  }

  /**
   * The four edge loops of pass 1 for padded pixel (row, col), clockwise
   * from the top-left corner.
   */
  method ScanPerimeter(padded: array2<int>, ghost lit: seq<bool>, size: nat, weights: seq<int>, row: nat, col: nat)
    returns (numPos: nat, product: int)
    requires size % 2 == 1 && |lit| == |weights| == PerimeterLength(size)
    requires forall e: nat, k :: e < 4 && -(size / 2) <= k < size / 2 ==> CellMatches(padded, lit, size, row, col, e, k)
    ensures (numPos, product) == Scan(lit, weights, |weights|)
  {
    assert EdgeStart(1, size) == EdgeStart(0, size) + size - 1;
    assert EdgeStart(2, size) == EdgeStart(1, size) + size - 1;
    assert EdgeStart(3, size) == EdgeStart(2, size) + size - 1;
    assert EdgeStart(3, size) + size - 1 == |weights|;
    numPos, product := 0, 1;
    numPos, product := ScanEdge(padded, lit, size, weights, row, col, 0, numPos, product);
    numPos, product := ScanEdge(padded, lit, size, weights, row, col, 1, numPos, product);
    numPos, product := ScanEdge(padded, lit, size, weights, row, col, 2, numPos, product);
    numPos, product := ScanEdge(padded, lit, size, weights, row, col, 3, numPos, product);
  }

  lemma WindowRowNext(g: Grid, size: nat, kernel: seq<int>, r: int, c: int, a: nat, n: nat, v: int)
    requires g.Valid() && |kernel| == size * size && a < size && n < size
    requires v == WindowPixel(g, size, r, c, a, n)
    ensures WindowRow(g, size, kernel, r, c, a, n + 1) == WindowRow(g, size, kernel, r, c, a, n) + v * kernel[Idx(size, n, a)]
  {
  }

  /** The innermost pass-2 loop: window row k + size/2 added to the 8-bit accumulator. */
  method WindowRowSum(padded: array2<int>, ghost g: Grid, size: nat, kernel: seq<int>, row: nat, col: nat, k: int,
                      sum0: int)
    returns (sum: int)
    requires size % 2 == 1 && |kernel| == size * size
    requires PaddedBy(padded, g, size / 2)
    requires size / 2 <= row < g.rows + size / 2 && size / 2 <= col < g.cols + size / 2
    requires -(size / 2) <= k <= size / 2
    requires sum0 == Window(g, size, kernel, row - size / 2, col - size / 2, k + size / 2) % 256
    ensures sum == Window(g, size, kernel, row - size / 2, col - size / 2, k + size / 2 + 1) % 256
  {
    var h := size / 2;
    ghost var r, c := row - h, col - h;
    ghost var before := Window(g, size, kernel, r, c, k + h);
    sum := sum0;
    var l := -h;
    while l <= h
      invariant -h <= l <= h + 1
      invariant sum == (before + WindowRow(g, size, kernel, r, c, k + h, l + h)) % 256
    {
      var coefPos := Idx(size, l + h, k + h);
      var pixel := padded[row + k, col + l];
      assert pixel == g.At(r + k, c + l);
      var term := pixel * kernel[coefPos];
      WindowRowNext(g, size, kernel, r, c, k + h, l + h, pixel);
      ModAdd256(before + WindowRow(g, size, kernel, r, c, k + h, l + h), term);
      sum := (sum + term) % 256;
      l := l + 1;
    }
  }

  /** The pass-2 correlation of padded pixel (row, col), in an 8-bit accumulator. */
  method WindowSum(padded: array2<int>, ghost g: Grid, size: nat, kernel: seq<int>, row: nat, col: nat)
    returns (sum: int)
    requires size % 2 == 1 && |kernel| == size * size
    requires PaddedBy(padded, g, size / 2)
    requires size / 2 <= row < g.rows + size / 2 && size / 2 <= col < g.cols + size / 2
    ensures sum == Window(g, size, kernel, row - size / 2, col - size / 2, size) % 256
  {
    var h := size / 2;
    sum := 0;
    var k := -h;
    while k <= h
      invariant -h <= k <= h + 1
      invariant sum == Window(g, size, kernel, row - h, col - h, k + h) % 256
    {
      sum := WindowRowSum(padded, g, size, kernel, row, col, k, sum);
      k := k + 1;
    }
  }

  // ---------------------------------------------------------------------
  // The passes over the whole image

  /**
   * The pass-1 verdict on padded pixel (row, col): whether it is a lit pixel
   * whose first two lit perimeter cells form a product missing from the table.
   */
  method StraightLineVerdict(padded: array2<int>, ghost g: Grid, size: nat, weights: seq<int>, table: seq<int>,
                             row: nat, col: nat)
    returns (clear: bool)
    requires size % 2 == 1 && |weights| == PerimeterLength(size)
    requires PaddedBy(padded, g, size / 2)
    requires size / 2 <= row < g.rows + size / 2 && size / 2 <= col < g.cols + size / 2
    ensures Pass1Pixel(g, size, weights, table, row - size / 2, col - size / 2) ==
      if clear then 0 else g.cells[row - size / 2][col - size / 2]
  {
    assert padded[row, col] == g.cells[row - size / 2][col - size / 2];
    ghost var lit := Perimeter(g, size, row - size / 2, col - size / 2);
    PerimeterMatchesPadded(padded, g, lit, size, row, col);
    clear := false;
    if padded[row, col] > 0 {
      var numPos, product := ScanPerimeter(padded, lit, size, weights, row, col);
      if numPos == 2 {
        var acceptable := Contains(table, product);
        clear := !acceptable;
      }
    }
  }

  /** Pass 1 down padded column col: rows h .. rows + h - 1, top to bottom. */
  method StraightLineColumn(clamped: array2<int>, padded: array2<int>, ghost g: Grid, ghost out: Grid,
                            size: nat, weights: seq<int>, table: seq<int>, col: nat)
    requires size % 2 == 1 && |weights| == PerimeterLength(size) && padded != clamped
    requires PaddedBy(padded, g, size / 2) && out == Pass1(g, size, weights, table)
    requires size / 2 <= col < g.cols + size / 2
    requires FilledTo(clamped, g, out, col - size / 2, 0)
    modifies clamped
    ensures FilledTo(clamped, g, out, col - size / 2 + 1, 0)
  {
    var h := size / 2;
    var j := h;
    while j < padded.Length0 - h
      invariant h <= j <= padded.Length0 - h
      invariant FilledTo(clamped, g, out, col - h, j - h)
    {
      var clear := StraightLineVerdict(padded, g, size, weights, table, j, col);
      if clear {
        FillPixel(clamped, g, out, col - h, j - h, 0);
      } else {
        FilledKeep(clamped, g, out, col - h, j - h);
      }
      j := j + 1;
    }
    FilledNextColumn(clamped, g, out, col - h);
  }

  /** Pass 1 in place on the clamped image, reading a zero-padded snapshot. */
  method StraightLinePass(clamped: array2<int>, ghost g: Grid, size: nat, weights: seq<int>, table: seq<int>)
    requires size % 2 == 1 && |weights| == PerimeterLength(size)
    requires Holds(clamped, g)
    modifies clamped
    ensures Holds(clamped, Pass1(g, size, weights, table))
  {
    var h := size / 2;
    var padded := PadCopy(clamped, g, h);
    ghost var out := Pass1(g, size, weights, table);
    FilledStart(clamped, g, out);
    var i := h;
    while i < padded.Length1 - h
      modifies clamped
      invariant h <= i <= padded.Length1 - h
      invariant FilledTo(clamped, g, out, i - h, 0)
    {
      StraightLineColumn(clamped, padded, g, out, size, weights, table, i);
      i := i + 1;
    }
    FilledAll(clamped, g, out);
  }

  /** One pass-2 run down padded column col. */
  method ContiguousLineColumn(clamped: array2<int>, padded: array2<int>, ghost g: Grid, ghost out: Grid,
                              size: nat, kernel: seq<int>, checksum: int, col: nat)
    requires size % 2 == 1 && |kernel| == size * size && padded != clamped
    requires PaddedBy(padded, g, size / 2) && out == Pass2(g, size, kernel, checksum)
    requires size / 2 <= col < g.cols + size / 2
    requires FilledTo(clamped, g, out, col - size / 2, 0)
    modifies clamped
    ensures FilledTo(clamped, g, out, col - size / 2 + 1, 0)
  {
    var h := size / 2;
    var j := h;
    while j < padded.Length0 - h
      invariant h <= j <= padded.Length0 - h
      invariant FilledTo(clamped, g, out, col - h, j - h)
    {
      var sum := WindowSum(padded, g, size, kernel, j, col);
      FillPixel(clamped, g, out, col - h, j - h, if sum == checksum then 255 else 0);
      j := j + 1;
    }
    FilledNextColumn(clamped, g, out, col - h);
  }

  /** One pass-2 run in place, reading a zero-padded snapshot of the previous grid. */
  method ContiguousLinePass(clamped: array2<int>, ghost g: Grid, size: nat, kernel: seq<int>, checksum: int)
    requires size % 2 == 1 && |kernel| == size * size
    requires Holds(clamped, g)
    modifies clamped
    ensures Holds(clamped, Pass2(g, size, kernel, checksum))
  {
    var h := size / 2;
    var padded := PadCopy(clamped, g, h);
    ghost var out := Pass2(g, size, kernel, checksum);
    FilledStart(clamped, g, out);
    var i := h;
    while i < padded.Length1 - h
      modifies clamped
      invariant h <= i <= padded.Length1 - h
      invariant FilledTo(clamped, g, out, i - h, 0)
    {
      ContiguousLineColumn(clamped, padded, g, out, size, kernel, checksum, i);
      i := i + 1;
    }
    FilledAll(clamped, g, out);
  }
}
