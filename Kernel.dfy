// The concentric power-of-two kernel of the contiguous line filter and its
// checksum (contiguous_line_filter.cpp, first block of the constructor).

module Kernel {

  /** The kernel sizes the constructor accepts: odd and at most 13. */
  predicate ValidSize(size: nat) {
    size % 2 == 1 && size <= 13
  }

  /** 2^n; std::pow(2, n) is exact for the small n used here. */
  function Pow2(n: nat): nat {
    if n == 0 then 1 else 2 * Pow2(n - 1)
  }

  lemma {:induction false} Pow2Monotone(m: nat, n: nat)
    requires m <= n
    ensures 1 <= Pow2(m) <= Pow2(n)
  {
    if m < n {
      Pow2Monotone(m, n - 1);
    } else if m > 0 {
      Pow2Monotone(m - 1, m - 1);
    }
  }

  function Min(a: int, b: int): int {
    if a <= b then a else b
  }

  /** Ring of cell (x, y): 0 for the outermost square annulus, size / 2 for the centre. */
  function Ring(size: nat, x: nat, y: nat): (ring: nat)
    requires x < size && y < size
    ensures ring <= size / 2
  {
    Min(Min(x, y), Min(size - 1 - x, size - 1 - y))
  }

  /** Weight of kernel cell (x, y): ring i holds 2^(size/2 - i). */
  function Weight(size: nat, x: nat, y: nat): nat
    requires x < size && y < size
  {
    Pow2(size / 2 - Ring(size, x, y))
  }

  /** Position of cell (x, y) in the row-major kernel vector. */
  function Idx(size: nat, x: nat, y: nat): (p: nat)
    requires x < size && y < size
    ensures p < size * size
  {
    MulMonotone(y, size - 1, size);
    y * size + x
  }

  /** Reducing an 8-bit running sum before each addition does not change the final residue. */
  lemma ModAdd256(a: int, b: int)
    ensures (a % 256 + b) % 256 == (a + b) % 256
  {
  }

  /** A value already below the modulus is its own residue. */
  lemma SmallMod(x: int, m: int)
    requires 0 <= x < m
    ensures x % m == x
  {
  }

  lemma MulMonotone(a: nat, b: nat, k: nat)
    requires a <= b
    ensures a * k <= b * k
  {
    assert b * k == a * k + (b - a) * k;
  }

  /** Cells in an earlier row occupy earlier slots of the kernel vector. */
  lemma IdxRowOrder(size: nat, x: nat, y: nat, x': nat, y': nat)
    requires x < size && y < y' < size && x' < size
    ensures Idx(size, x, y) < Idx(size, x', y')
  {
    MulMonotone(y + 1, y', size);
    assert (y + 1) * size == y * size + size;
  }

  /** Distinct cells occupy distinct slots of the kernel vector. */
  lemma IdxInjective(size: nat)
    ensures forall x: nat, y: nat, x': nat, y': nat ::
      (x < size && y < size && x' < size && y' < size && Idx(size, x, y) == Idx(size, x', y'))
      ==> x == x' && y == y'
  {
    forall x: nat, y: nat, x': nat, y': nat | x < size && y < size && x' < size && y' < size && Idx(size, x, y) == Idx(size, x', y')
      ensures x == x' && y == y'
    {
      if y < y' {
        IdxRowOrder(size, x, y, x', y');
      } else if y' < y {
        IdxRowOrder(size, x', y', x, y);
      }
    }
  }

  /** The kernel vector holds Weight(size, x, y) at Idx(size, x, y) for every cell. */
  ghost predicate IsKernel(kernel: seq<int>, size: nat) {
    |kernel| == size * size &&
    forall x: nat, y: nat :: x < size && y < size ==> kernel[Idx(size, x, y)] == Weight(size, x, y)
  }

  /** The centre has weight 1, the outermost ring 2^(size/2), and no weight exceeds that. */
  lemma {:induction false} KernelExtremes(size: nat, x: nat, y: nat)
    requires ValidSize(size) && x < size && y < size
    ensures Weight(size, size / 2, size / 2) == 1
    ensures 1 <= Weight(size, x, y) <= Pow2(size / 2) <= 64
    ensures (x == 0 || y == 0 || x == size - 1 || y == size - 1) ==> Weight(size, x, y) == Pow2(size / 2)
  {
    Pow2Monotone(size / 2 - Ring(size, x, y), size / 2);
    Pow2Monotone(size / 2, 6);
  }

  /** The kernel is symmetric under both mirrorings and under transposition. */
  lemma KernelSymmetric(size: nat, x: nat, y: nat)
    requires x < size && y < size
    ensures Weight(size, x, y) == Weight(size, size - 1 - x, y)
    ensures Weight(size, x, y) == Weight(size, x, size - 1 - y)
    ensures Weight(size, x, y) == Weight(size, y, x)
  {
  }

  /**
   * Only the centre weight is odd: every other cell lies on a ring i below
   * size / 2 and holds 2^(size/2 - i), a power of two at least 2.
   */
  lemma WeightParity(size: nat, x: nat, y: nat)
    requires size % 2 == 1 && x < size && y < size
    ensures Weight(size, x, y) % 2 == if x == size / 2 && y == size / 2 then 1 else 0
  {
    if x != size / 2 || y != size / 2 {
      var k := size / 2 - Ring(size, x, y);
      assert k >= 1;
      assert Pow2(k) == 2 * Pow2(k - 1);
    }
  }

  /** The kernel vector's parities: odd at the centre, even everywhere else. */
  ghost predicate OddOnlyAtCentre(kernel: seq<int>, size: nat) {
    |kernel| == size * size &&
    forall x: nat, y: nat :: x < size && y < size ==>
      kernel[Idx(size, x, y)] % 2 == if x == size / 2 && y == size / 2 then 1 else 0
  }

  lemma KernelParity(kernel: seq<int>, size: nat)
    requires size % 2 == 1 && IsKernel(kernel, size)
    ensures OddOnlyAtCentre(kernel, size)
  {
    forall x: nat, y: nat | x < size && y < size
      ensures kernel[Idx(size, x, y)] % 2 == if x == size / 2 && y == size / 2 then 1 else 0
    {
      WeightParity(size, x, y);
    }
  }

  /** Sum of the first n weights of row y. */
  function RowWeightSum(size: nat, y: nat, n: nat): nat
    requires y < size && n <= size
  {
    if n == 0 then 0 else RowWeightSum(size, y, n - 1) + Weight(size, n - 1, y)
  }

  /** Sum of the first n weights of column x. */
  function ColumnWeightSum(size: nat, x: nat, n: nat): nat
    requires x < size && n <= size
  {
    if n == 0 then 0 else ColumnWeightSum(size, x, n - 1) + Weight(size, x, n - 1)
  }

  /** The sum of the centre row, which the constructor stores as the checksum. */
  function CenterRowSum(size: nat): nat
    requires size % 2 == 1
  {
    RowWeightSum(size, size / 2, size)
  }

  lemma {:induction false} CenterRowPrefix(size: nat, n: nat)
    requires size % 2 == 1 && n <= size
    ensures var h := size / 2;
      RowWeightSum(size, h, n) ==
        if n <= h + 1 then Pow2(h + 1) - Pow2(h + 1 - n)
        else Pow2(h + 1) - 3 + Pow2(n - h)
  {
    var h := size / 2;
    if n > 0 {
      CenterRowPrefix(size, n - 1);
      if n - 1 <= h {
        assert Ring(size, n - 1, h) == n - 1;
        assert Pow2(h + 1 - (n - 1)) == 2 * Pow2(h - (n - 1));
      } else {
        assert Ring(size, n - 1, h) == size - n;
        assert Pow2(n - h) == 2 * Pow2(n - 1 - h);
      }
    }
  }

  /** Closed form of the checksum: 1 + 2(2 + 4 + ... + 2^h) = 2^(h+2) - 3. */
  lemma ChecksumClosedForm(size: nat)
    requires size % 2 == 1
    ensures CenterRowSum(size) == Pow2(size / 2 + 2) - 3
  {
    CenterRowPrefix(size, size);
  }

  /** For every accepted size the checksum fits the 8-bit field (at most 253), so it never wraps. */
  lemma ChecksumFitsByte(size: nat)
    requires ValidSize(size)
    ensures 1 <= CenterRowSum(size) <= 253
  {
    ChecksumClosedForm(size);
    Pow2Monotone(size / 2 + 2, 8);
    Pow2Monotone(2, size / 2 + 2);
  }

  /**
   * Prefix sum of the first n weights of a row y in the upper half:
   * 2^h + ... + 2^(h-n+1) while left of ring y, then 2^(h-y) for each cell
   * of ring y across the row, then the mirror image of the left part.
   */
  function UpperRowPrefix(size: nat, y: nat, n: nat): int
    requires size % 2 == 1 && y <= size / 2 && n <= size
  {
    var h := size / 2;
    if n <= y then Pow2(h + 1) - Pow2(h + 1 - n)
    else if n <= size - y then Pow2(h + 1) - Pow2(h + 1 - y) + (n - y) * Pow2(h - y)
    else Pow2(h + 1) - 2 * Pow2(h + 1 - y) + (size - 2 * y) * Pow2(h - y) + Pow2(n - h)
  }

  lemma ScaleStep(p: int, k: int)
    ensures (k + 1) * p == k * p + p
  {
  }

  lemma RowPrefixStep(size: nat, y: nat, n: nat)
    requires size % 2 == 1 && y <= size / 2 && 0 < n <= size
    requires RowWeightSum(size, y, n - 1) == UpperRowPrefix(size, y, n - 1)
    ensures RowWeightSum(size, y, n) == UpperRowPrefix(size, y, n)
  {
    if n <= y {
      LeftPartStep(size, y, n);
    } else if n <= size - y {
      MiddlePartStep(size, y, n);
    } else {
      RightPartStep(size, y, n);
    }
  }

  /** Left of ring y the weights halve cell by cell. */
  lemma LeftPartStep(size: nat, y: nat, n: nat)
    requires size % 2 == 1 && y <= size / 2 && 0 < n <= y
    ensures RowWeightSum(size, y, n) - RowWeightSum(size, y, n - 1) == UpperRowPrefix(size, y, n) - UpperRowPrefix(size, y, n - 1)
  {
    var h := size / 2;
    assert Ring(size, n - 1, y) == n - 1;
    assert Pow2(h + 1 - (n - 1)) == 2 * Pow2(h - (n - 1));
  }

  /** Across ring y every cell weighs 2^(h-y). */
  lemma MiddlePartStep(size: nat, y: nat, n: nat)
    requires size % 2 == 1 && y <= size / 2 && y < n <= size - y
    ensures RowWeightSum(size, y, n) - RowWeightSum(size, y, n - 1) == UpperRowPrefix(size, y, n) - UpperRowPrefix(size, y, n - 1)
  {
    var h := size / 2;
    assert Ring(size, n - 1, y) == y;
    ScaleStep(Pow2(h - y), n - 1 - y);
  }

  /** Right of ring y the weights double cell by cell. */
  lemma RightPartStep(size: nat, y: nat, n: nat)
    requires size % 2 == 1 && y <= size / 2 && size - y < n <= size
    ensures RowWeightSum(size, y, n) - RowWeightSum(size, y, n - 1) == UpperRowPrefix(size, y, n) - UpperRowPrefix(size, y, n - 1)
  {
    var h := size / 2;
    assert Ring(size, n - 1, y) == size - n;
    assert Pow2(n - h) == 2 * Pow2(n - 1 - h);
  }

  lemma {:induction false} RowPrefix(size: nat, y: nat, n: nat)
    requires size % 2 == 1 && y <= size / 2 && n <= size
    ensures RowWeightSum(size, y, n) == UpperRowPrefix(size, y, n)
  {
    if n > 0 {
      RowPrefix(size, y, n - 1);
      RowPrefixStep(size, y, n);
    }
  }

  /** How much more than the checksum a row at distance d from the centre sums to. */
  function Excess(d: nat): int {
    3 + (2 * d - 3) * Pow2(d)
  }

  /**
   * Row y, at distance d = size/2 - y >= 1 above the centre, sums to
   * 3 + (2d - 3) * 2^d more than the checksum.
   */
  lemma RowExcess(size: nat, y: nat)
    requires size % 2 == 1 && y < size / 2
    ensures RowWeightSum(size, y, size) == CenterRowSum(size) + Excess(size / 2 - y)
  {
    var h := size / 2;
    RowPrefix(size, y, size);
    ChecksumClosedForm(size);
    assert Pow2(h + 2) == 2 * Pow2(h + 1);
    if y == 0 {
      OuterRowTotal(size);
    } else {
      InnerRowTotal(size, y);
    }
    ExcessForm(Pow2(h - y), h - y);
  }

  /** The outer row: every cell weighs 2^h. */
  lemma OuterRowTotal(size: nat)
    requires size % 2 == 1 && 0 < size / 2
    ensures var h := size / 2; UpperRowPrefix(size, 0, size) == 2 * Pow2(h + 1) - 4 * Pow2(h) + (2 * h + 1) * Pow2(h)
  {
    var h := size / 2;
    assert Pow2(h + 1) == 2 * Pow2(h);
  }

  /** A row strictly between the outer row and the centre. */
  lemma InnerRowTotal(size: nat, y: nat)
    requires size % 2 == 1 && 0 < y < size / 2
    ensures var h := size / 2; var d := h - y;
      UpperRowPrefix(size, y, size) == 2 * Pow2(h + 1) - 4 * Pow2(d) + (2 * d + 1) * Pow2(d)
  {
    var h := size / 2;
    assert Pow2(h + 1 - y) == 2 * Pow2(h - y);
    assert size - h == h + 1;
  }

  lemma ExcessForm(p: int, d: nat)
    requires p == Pow2(d)
    ensures -4 * p + (2 * d + 1) * p == Excess(d) - 3
  {
  }

  /** Rows y and size - 1 - y have the same weights. */
  lemma {:induction false} RowMirror(size: nat, y: nat, n: nat)
    requires y < size && n <= size
    ensures RowWeightSum(size, y, n) == RowWeightSum(size, size - 1 - y, n)
  {
    if n > 0 {
      RowMirror(size, y, n - 1);
      KernelSymmetric(size, n - 1, y);
    }
  }

  /** 3 + (2d - 3) * 2^d, for d from 1 to 6, is 1, 7, 27, 83, 227 or 579: never a multiple of 256. */
  lemma ExcessNotMultiple(d: nat)
    requires 1 <= d <= 6
    ensures 0 < Excess(d) < 600 && Excess(d) != 256 && Excess(d) != 512
  {
    assert Pow2(1) == 2;
    assert Pow2(2) == 4;
    assert Pow2(3) == 8;
    assert Pow2(4) == 16;
    assert Pow2(5) == 32;
    assert Pow2(6) == 64;
  }

  /**
   * For every accepted size, no row other than the centre row sums to the
   * checksum modulo 256: the sums exceed it by 1, 7, 27, 83, 227 and 579 at
   * distances 1 to 6 from the centre.
   */
  lemma OffCentreRowsDiffer(size: nat, y: nat)
    requires ValidSize(size) && y < size && y != size / 2
    ensures RowWeightSum(size, y, size) % 256 != CenterRowSum(size)
  {
    if y < size / 2 {
      UpperRowDiffers(size, y);
    } else {
      RowMirror(size, y, size);
      UpperRowDiffers(size, size - 1 - y);
    }
  }

  lemma UpperRowDiffers(size: nat, y: nat)
    requires ValidSize(size) && y < size / 2
    ensures RowWeightSum(size, y, size) % 256 != CenterRowSum(size)
  {
    var d := size / 2 - y;
    assert 1 <= d <= 6;
    var total, checksum := RowWeightSum(size, y, size), CenterRowSum(size);
    RowExcess(size, y);
    assert total == checksum + Excess(d);
    ChecksumFitsByte(size);
    assert 1 <= checksum <= 253;
    ExcessResidue(total, checksum, d);
  }

  lemma ExcessResidue(total: int, checksum: int, d: nat)
    requires 1 <= checksum <= 253 && 1 <= d <= 6
    requires total == checksum + Excess(d)
    ensures total % 256 != checksum
  {
    ExcessNotMultiple(d);
    ShiftedResidue(checksum, Excess(d));
  }

  lemma ShiftedResidue(x: int, e: int)
    requires 0 <= x < 256 && 0 < e < 600 && e != 256 && e != 512
    ensures (x + e) % 256 != x
  {
  }

  /** The centre column sums to the same value as the centre row. */
  lemma {:induction false} CenterColumnSum(size: nat, n: nat)
    requires size % 2 == 1 && n <= size
    ensures ColumnWeightSum(size, size / 2, n) == RowWeightSum(size, size / 2, n)
  {
    if n > 0 {
      CenterColumnSum(size, n - 1);
      KernelSymmetric(size, size / 2, n - 1);
    }
  }

  /**
   * Vector k after rings 0 .. i-1 have been painted and ring i has been
   * painted column by column up to (but excluding) column x, row y.
   */
  ghost predicate PaintedTo(k: array<int>, size: nat, i: nat, x: nat, y: nat)
    reads k
  {
    k.Length == size * size && i <= size / 2 + 1 &&
    forall x': nat, y': nat :: x' < size && y' < size ==>
      k[Idx(size, x', y')] ==
        if i <= y' < size - i && (i <= x' < x || (x' == x && i <= y' < y)) then Pow2(size / 2 - i)
        else Painted(size, i, x', y')
  }

  /** The innermost loop of the constructor: column x of ring i gets 2^(size/2 - i). */
  method PaintColumn(k: array<int>, size: nat, i: nat, x: nat, v: int)
    requires size % 2 == 1 && i <= size / 2 && i <= x < size - i && v == Pow2(size / 2 - i)
    requires PaintedTo(k, size, i, x, i)
    modifies k
    ensures PaintedTo(k, size, i, x + 1, i)
  {
    IdxInjective(size);
    for y := i to size - i
      invariant PaintedTo(k, size, i, x, y)
    {
      k[Idx(size, x, y)] := v;
    }
  }

  /** Ring i, fully painted, is rings 0 .. i painted. */
  lemma RingDone(k: array<int>, size: nat, i: nat)
    requires i <= size / 2 && PaintedTo(k, size, i, size - i, i)
    ensures PaintedTo(k, size, i + 1, i + 1, i + 1)
  {
    forall x': nat, y': nat | x' < size && y' < size {
      PaintStep(size, i, x', y');
    }
  }

  /**
   * Fills a zeroed size×size vector ring by ring, outermost first, each ring
   * overwriting the square it bounds, so that inner rings win.
   */
  method BuildKernel(size: nat) returns (kernel: seq<int>)
    requires ValidSize(size)
    ensures IsKernel(kernel, size)
  {
    var h := size / 2;
    var powersOfTwo := new int[h + 1];
    for i := 0 to h + 1
      invariant forall t :: h - i < t <= h ==> powersOfTwo[t] == Pow2(h - t)
    {
      powersOfTwo[h - i] := Pow2(i);
    }
    var k := new int[size * size](_ => 0);
    for i := 0 to h + 1
      modifies k
      invariant PaintedTo(k, size, i, i, i)
    {
      for x := i to size - i
        modifies k
        invariant PaintedTo(k, size, i, x, i)
      {
        PaintColumn(k, size, i, x, powersOfTwo[i]);
      }
      RingDone(k, size, i);
    }
    forall x: nat, y: nat | x < size && y < size {
      PaintStep(size, h, x, y);
    }
    kernel := k[..];
  }

  /** Value of cell (x, y) once rings 0 .. i-1 have been painted over the zeroed vector. */
  function Painted(size: nat, i: nat, x: nat, y: nat): nat
    requires x < size && y < size
  {
    if i == 0 then 0 else Pow2(size / 2 - Min(Ring(size, x, y), i - 1))
  }

  /** Painting ring i sets exactly the square [i, size - i)² to 2^(size/2 - i). */
  lemma PaintStep(size: nat, i: nat, x: nat, y: nat)
    requires x < size && y < size && i <= size / 2
    ensures Painted(size, i + 1, x, y) ==
      if i <= x < size - i && i <= y < size - i then Pow2(size / 2 - i) else Painted(size, i, x, y)
    ensures i == size / 2 ==> Painted(size, i + 1, x, y) == Weight(size, x, y)
  {
  }

  /**
   * Sums the centre row into an 8-bit accumulator; the result is the closed
   * form 2^(size/2+2) - 3, the accumulator never wrapping.
   */
  method ComputeChecksum(kernel: seq<int>, size: nat) returns (checksum: int)
    requires ValidSize(size) && IsKernel(kernel, size)
    ensures checksum == CenterRowSum(size) == Pow2(size / 2 + 2) - 3
  {
    checksum := 0;
    var h := size / 2;
    for i := 0 to size
      invariant checksum == RowWeightSum(size, h, i) % 256
    {
      ModAdd256(RowWeightSum(size, h, i), kernel[Idx(size, i, h)]);
      checksum := (checksum + kernel[Idx(size, i, h)]) % 256;
    }
    ChecksumFitsByte(size);
    ChecksumClosedForm(size);
    SmallMod(CenterRowSum(size), 256);
  }
}
