// Single-channel 8-bit images as values, the two OpenCV calls the filter
// makes on them (cv::threshold and copyMakeBorder with a constant zero
// border), and the copying between cv::Mat-like arrays and values.

module Grids {

  /** A rows×cols plane of pixel values, row-major. */
  datatype Grid = Grid(rows: nat, cols: nat, cells: seq<seq<int>>) {
    predicate Valid() {
      |cells| == rows && forall r :: 0 <= r < rows ==> |cells[r]| == cols
    }

    /** The pixel at (r, c), and 0 anywhere outside the plane. */
    function At(r: int, c: int): int
      requires Valid()
    {
      if 0 <= r < rows && 0 <= c < cols then cells[r][c] else 0
    }
  }

  /** cv::threshold(src, dst, 1, 1, THRESH_BINARY) on one pixel: 1 above 1, else 0. */
  function Threshold(v: int): (t: int)
    ensures t == 0 || t == 1
  {
    if v > 1 then 1 else 0
  }

  /** The clamp at the start of run: every pixel thresholded, dimensions kept. */
  function Clamp(g: Grid): (out: Grid)
    requires g.Valid()
    ensures out.Valid() && out.rows == g.rows && out.cols == g.cols
    ensures forall r, c :: 0 <= r < g.rows && 0 <= c < g.cols ==>
      (out.cells[r][c] == 1 <==> g.cells[r][c] > 1) && (out.cells[r][c] == 0 <==> g.cells[r][c] <= 1)
  {
    Grid(g.rows, g.cols,
      seq(g.rows, r requires 0 <= r < g.rows =>
        seq(g.cols, c requires 0 <= c < g.cols => Threshold(g.cells[r][c]))))
  }

  /** copyMakeBorder(src, dst, m, m, m, m, BORDER_CONSTANT, 0). */
  function ZeroPad(g: Grid, m: nat): (out: Grid)
    requires g.Valid()
    ensures out.Valid() && out.rows == g.rows + 2 * m && out.cols == g.cols + 2 * m
    ensures forall a, b :: 0 <= a < out.rows && 0 <= b < out.cols ==> out.cells[a][b] == g.At(a - m, b - m)
  {
    Grid(g.rows + 2 * m, g.cols + 2 * m,
      seq(g.rows + 2 * m, a requires 0 <= a < g.rows + 2 * m =>
        seq(g.cols + 2 * m, b requires 0 <= b < g.cols + 2 * m => g.At(a - m, b - m))))
  }

  /**
   * Reading the padded plane at an offset of m is reading the original plane
   * with a zero border, everywhere: inside, in the margin and beyond it.
   */
  lemma PadTransparent(g: Grid, m: nat, r: int, c: int)
    requires g.Valid()
    ensures ZeroPad(g, m).At(r + m, c + m) == g.At(r, c)
  {
  }

  /** An image stored as 0/255 is clamped to 0/1 with its foreground kept. */
  lemma ClampOfZero255(g: Grid)
    requires g.Valid()
    requires forall r, c :: 0 <= r < g.rows && 0 <= c < g.cols ==> g.cells[r][c] == 0 || g.cells[r][c] == 255
    ensures forall r, c :: 0 <= r < g.rows && 0 <= c < g.cols ==>
      Clamp(g).cells[r][c] == if g.cells[r][c] == 255 then 1 else 0
  {
  }

  /** The foreground of an image: the coordinates of its non-zero pixels. */
  ghost function Foreground(g: Grid): set<(int, int)>
    requires g.Valid()
  {
    set r: int, c: int | 0 <= r < g.rows && 0 <= c < g.cols && g.cells[r][c] != 0 :: (r, c)
  }

  /** Every pixel is 0. */
  predicate Blank(g: Grid)
    requires g.Valid()
  {
    forall r, c :: 0 <= r < g.rows && 0 <= c < g.cols ==> g.cells[r][c] == 0
  }

  /** An image with no pixel above 1 is blank once clamped. */
  lemma ClampOfFaint(g: Grid)
    requires g.Valid()
    requires forall r, c :: 0 <= r < g.rows && 0 <= c < g.cols ==> g.cells[r][c] <= 1
    ensures Blank(Clamp(g))
  {
  }

  // ---------------------------------------------------------------------
  // Arrays and values

  /** Array a holds exactly the pixels of g. */
  ghost predicate Holds(a: array2<int>, g: Grid)
    reads a
  {
    g.Valid() && a.Length0 == g.rows && a.Length1 == g.cols &&
    forall r, c :: 0 <= r < g.rows && 0 <= c < g.cols ==> a[r, c] == g.cells[r][c]
  }

  /** Array a holds g with a zero border of width m: ZeroPad(g, m), read through g. */
  ghost predicate PaddedBy(a: array2<int>, g: Grid, m: nat)
    reads a
  {
    g.Valid() && a.Length0 == g.rows + 2 * m && a.Length1 == g.cols + 2 * m &&
    forall r, c :: 0 <= r < a.Length0 && 0 <= c < a.Length1 ==> a[r, c] == g.At(r - m, c - m)
  }

  lemma HoldsPadded(a: array2<int>, g: Grid, m: nat)
    requires g.Valid() && Holds(a, ZeroPad(g, m))
    ensures PaddedBy(a, g, m)
  {
  }

  lemma HoldsUnique(a: array2<int>, g: Grid, g': Grid)
    requires Holds(a, g) && Holds(a, g')
    ensures g == g'
  {
    assert forall r :: 0 <= r < g.rows ==> g.cells[r] == g'.cells[r];
  }

  /**
   * Array a, which held before, has been overwritten with after in column-major
   * order up to (but excluding) column col, row row.
   */
  ghost predicate FilledTo(a: array2<int>, before: Grid, after: Grid, col: int, row: int)
    reads a
  {
    before.Valid() && after.Valid() && after.rows == before.rows && after.cols == before.cols &&
    a.Length0 == before.rows && a.Length1 == before.cols &&
    forall r, c :: 0 <= r < before.rows && 0 <= c < before.cols ==>
      a[r, c] == if c < col || (c == col && r < row) then after.cells[r][c] else before.cells[r][c]
  }

  lemma FilledStart(a: array2<int>, before: Grid, after: Grid)
    requires after.Valid() && after.rows == before.rows && after.cols == before.cols
    requires Holds(a, before)
    ensures FilledTo(a, before, after, 0, 0)
  {
  }

  /** The next pixel already holds its new value. */
  lemma FilledKeep(a: array2<int>, before: Grid, after: Grid, col: int, row: int)
    requires FilledTo(a, before, after, col, row)
    requires 0 <= row < before.rows && 0 <= col < before.cols && after.cells[row][col] == before.cells[row][col]
    ensures FilledTo(a, before, after, col, row + 1)
  {
  }

  /** Writes the new value of the next pixel. */
  method FillPixel(a: array2<int>, ghost before: Grid, ghost after: Grid, col: nat, row: nat, v: int)
    requires FilledTo(a, before, after, col, row)
    requires row < before.rows && col < before.cols && v == after.cells[row][col]
    modifies a
    ensures FilledTo(a, before, after, col, row + 1)
  {
    a[row, col] := v;
  }

  lemma FilledNextColumn(a: array2<int>, before: Grid, after: Grid, col: int)
    requires FilledTo(a, before, after, col, before.rows)
    ensures FilledTo(a, before, after, col + 1, 0)
  {
  }

  lemma FilledAll(a: array2<int>, before: Grid, after: Grid)
    requires FilledTo(a, before, after, before.cols, 0)
    ensures Holds(a, after)
  {
  }

  /** The current contents of a, as a value. */
  ghost function GridOf(a: array2<int>): (g: Grid)
    reads a
    ensures Holds(a, g)
  {
    Grid(a.Length0, a.Length1,
      seq(a.Length0, r requires 0 <= r < a.Length0 reads a =>
        seq(a.Length1, c requires 0 <= c < a.Length1 reads a => a[r, c])))
  }

  /** Copies the array into a value. */
  method Snapshot(a: array2<int>) returns (g: Grid)
    ensures g == GridOf(a)
  {
    var cells: seq<seq<int>> := [];
    for r := 0 to a.Length0
      invariant |cells| == r
      invariant forall r', c :: 0 <= r' < r && 0 <= c < a.Length1 ==> |cells[r']| == a.Length1 && cells[r'][c] == a[r', c]
      invariant forall r' :: 0 <= r' < r ==> |cells[r']| == a.Length1
    {
      var row: seq<int> := [];
      for c := 0 to a.Length1
        invariant |row| == c
        invariant forall c' :: 0 <= c' < c ==> row[c'] == a[r, c']
      {
        row := row + [a[r, c]];
      }
      cells := cells + [row];
    }
    g := Grid(a.Length0, a.Length1, cells);
    HoldsUnique(a, g, GridOf(a));
  }

  /** copyMakeBorder into a fresh array: a's pixels with a zero border of width m. */
  method PadCopy(a: array2<int>, ghost g: Grid, m: nat) returns (padded: array2<int>)
    requires Holds(a, g)
    ensures fresh(padded) && PaddedBy(padded, g, m)
  {
    var snapshot := Snapshot(a);
    HoldsUnique(a, g, snapshot);
    padded := Materialize(ZeroPad(snapshot, m));
    HoldsPadded(padded, g, m);
  }

  /** cv::threshold(src, dst, 1, 1, THRESH_BINARY) into a fresh array. */
  method ThresholdCopy(src: array2<int>) returns (dst: array2<int>)
    ensures fresh(dst) && Holds(dst, Clamp(GridOf(src)))
  {
    var g := Snapshot(src);
    dst := Materialize(Clamp(g));
  }

  /** Allocates an array holding the pixels of g. */
  method Materialize(g: Grid) returns (a: array2<int>)
    requires g.Valid()
    ensures fresh(a) && Holds(a, g)
  {
    a := new int[g.rows, g.cols];
    for r := 0 to g.rows
      invariant forall r', c :: 0 <= r' < r && 0 <= c < g.cols ==> a[r', c] == g.cells[r'][c]
    {
      for c := 0 to g.cols
        invariant forall r', c' :: 0 <= r' < r && 0 <= c' < g.cols ==> a[r', c'] == g.cells[r'][c']
        invariant forall c' :: 0 <= c' < c ==> a[r, c'] == g.cells[r][c']
      {
        a[r, c] := g.cells[r][c];
      }
    }
  }
}
