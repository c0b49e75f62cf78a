// The perimeter weight vector and the table of acceptable pairwise products
// (contiguous_line_filter.cpp, second block of the constructor).

module ProductTable {
  import opened Kernel

  /** Number of cells on the kernel's outer ring: mKernelVecSize = 4 (K - 1). */
  function PerimeterLength(size: nat): nat {
    if size == 0 then 0 else 4 * (size - 1)
  }

  /** Capacity of the table: mLUTsize = 4 (K - 1) * span / 2. */
  function LutSize(size: nat, span: nat): nat {
    PerimeterLength(size) * span / 2
  }

  /**
   * The spans the model accepts: odd (the constructor's assertion), and small
   * enough that i + offset + j is never negative where it is reduced modulo
   * the perimeter length.
   */
  predicate ValidSpan(size: nat, span: nat) {
    span % 2 == 1 && (size == 1 || span / 2 <= 2 * size - 2)
  }

  /** A perimeter weight vector: one byte per outer-ring cell. */
  predicate PerimeterWeights(weights: seq<int>, size: nat) {
    |weights| == PerimeterLength(size) && forall t :: 0 <= t < |weights| ==> 0 <= weights[t] < 256
  }

  /** The cell paired with perimeter position i at angular perturbation j. */
  function Opposite(size: nat, span: nat, i: nat, j: int): (o: nat)
    requires ValidSpan(size, span) && i < PerimeterLength(size) && -(span / 2) <= j <= span / 2
    ensures o < PerimeterLength(size)
    ensures o == (i + PerimeterLength(size) / 2 + j) % PerimeterLength(size)
  {
    (i + (2 * size - 2) + j) % PerimeterLength(size)
  }

  function Product(weights: seq<int>, size: nat, span: nat, i: nat, j: int): int
    requires ValidSpan(size, span) && |weights| == PerimeterLength(size)
    requires i < PerimeterLength(size) && -(span / 2) <= j <= span / 2
  {
    weights[i] * weights[Opposite(size, span, i, j)]
  }

  /** The products for perimeter position i, in the order of the inner loop (j ascending). */
  function RowProducts(weights: seq<int>, size: nat, span: nat, i: nat): (row: seq<int>)
    requires ValidSpan(size, span) && |weights| == PerimeterLength(size) && i < PerimeterLength(size)
    ensures |row| == span
  {
    seq(span, t requires 0 <= t < span => Product(weights, size, span, i, t - span / 2))
  }

  /** The products generated for perimeter positions 0 .. n-1, in generation order. */
  function Generated(weights: seq<int>, size: nat, span: nat, n: nat): (s: seq<int>)
    requires ValidSpan(size, span) && |weights| == PerimeterLength(size) && n <= PerimeterLength(size)
  {
    if n == 0 then [] else Generated(weights, size, span, n - 1) + RowProducts(weights, size, span, n - 1)
  }

  /** Every product the construction loop generates, in generation order. */
  function Products(weights: seq<int>, size: nat, span: nat): seq<int>
    requires ValidSpan(size, span) && |weights| == PerimeterLength(size)
  {
    Generated(weights, size, span, PerimeterLength(size))
  }

  function Elements(s: seq<int>): set<int> {
    set x | x in s
  }

  lemma ElementsAppend(s: seq<int>, p: int)
    ensures Elements(s + [p]) == Elements(s) + {p}
  {
    assert forall x :: x in s + [p] <==> x in s || x == p;
  }

  /** The constructor's requirements on its configuration and weights. */
  predicate TableConfig(weights: seq<int>, size: nat, span: nat) {
    ValidSize(size) && ValidSpan(size, span) && PerimeterWeights(weights, size) &&
    |Elements(Products(weights, size, span))| <= LutSize(size, span)
  }

  lemma {:induction false} GeneratedContains(weights: seq<int>, size: nat, span: nat, n: nat, i: nat, j: int)
    requires ValidSpan(size, span) && |weights| == PerimeterLength(size) && n <= PerimeterLength(size)
    requires i < n && -(span / 2) <= j <= span / 2
    ensures Product(weights, size, span, i, j) in Generated(weights, size, span, n)
  {
    if i < n - 1 {
      GeneratedContains(weights, size, span, n - 1, i, j);
    } else {
      assert RowProducts(weights, size, span, i)[j + span / 2] == Product(weights, size, span, i, j);
    }
  }

  lemma {:induction false} GeneratedMembers(weights: seq<int>, size: nat, span: nat, n: nat, p: int)
    requires ValidSpan(size, span) && |weights| == PerimeterLength(size) && n <= PerimeterLength(size)
    requires p in Generated(weights, size, span, n)
    ensures exists i: nat, j: int :: i < n && -(span / 2) <= j <= span / 2 && p == Product(weights, size, span, i, j)
  {
    if p in Generated(weights, size, span, n - 1) {
      GeneratedMembers(weights, size, span, n - 1, p);
    } else {
      var row := RowProducts(weights, size, span, n - 1);
      var t :| 0 <= t < span && row[t] == p;
      assert p == Product(weights, size, span, n - 1, t - span / 2);
    }
  }

  /**
   * The generated products are exactly the pairings of a position i with a
   * position within span/2 of its opposite, (i + L/2 + j) mod L.
   */
  lemma ProductsExactly(weights: seq<int>, size: nat, span: nat, p: int)
    requires ValidSpan(size, span) && |weights| == PerimeterLength(size)
    ensures p in Products(weights, size, span) <==>
      exists i: nat, j: int :: i < PerimeterLength(size) && -(span / 2) <= j <= span / 2 &&
        p == Product(weights, size, span, i, j)
  {
    var L := PerimeterLength(size);
    if p in Products(weights, size, span) {
      GeneratedMembers(weights, size, span, L, p);
    }
    if exists i: nat, j: int :: i < L && -(span / 2) <= j <= span / 2 && p == Product(weights, size, span, i, j) {
      var i: nat, j: int :| i < L && -(span / 2) <= j <= span / 2 && p == Product(weights, size, span, i, j);
      GeneratedContains(weights, size, span, L, i, j);
    }
  }

  // ---------------------------------------------------------------------
  // First-seen deduplication (the std::find / counter loop)

  predicate Distinct(s: seq<int>) {
    forall a, b :: 0 <= a < b < |s| ==> s[a] != s[b]
  }

  /**
   * The non-zero values of s, each once, in order of first occurrence. Zero
   * is never inserted by the construction loop: while a slot is unused it
   * holds 0, so std::find reports 0 as already present.
   */
  function Dedup(s: seq<int>): (d: seq<int>)
    ensures Distinct(d) && 0 !in d
    ensures Elements(d) == Elements(s) - {0}
  {
    if s == [] then []
    else
      var d := Dedup(s[..|s| - 1]);
      var p := s[|s| - 1];
      assert s == s[..|s| - 1] + [p];
      ElementsAppend(s[..|s| - 1], p);
      if p == 0 || p in d then d
      else
        ElementsAppend(d, p);
        d + [p]
  }

  lemma {:induction false} DistinctCard(s: seq<int>)
    requires Distinct(s)
    ensures |Elements(s)| == |s|
  {
    if s != [] {
      var init := s[..|s| - 1];
      DistinctCard(init);
      assert s == init + [s[|s| - 1]];
      ElementsAppend(init, s[|s| - 1]);
      assert s[|s| - 1] !in Elements(init);
    }
  }

  lemma SubsetCard<T>(a: set<T>, b: set<T>)
    requires a <= b
    ensures |a| <= |b|
  {
    assert b == a + (b - a);
  }

  /** The number of entries the loop writes: the distinct non-zero products. */
  lemma DedupSize(s: seq<int>)
    ensures |Dedup(s)| == |Elements(s) - {0}|
  {
    DistinctCard(Dedup(s));
  }

  function Zeros(n: nat): (z: seq<int>)
    ensures |z| == n && forall t :: 0 <= t < n ==> z[t] == 0
  {
    seq(n, _ => 0)
  }

  // ---------------------------------------------------------------------
  // std::sort, taken by its postcondition

  predicate Sorted(s: seq<int>) {
    forall a, b :: 0 <= a < b < |s| ==> s[a] <= s[b]
  }

  function Insert(x: int, s: seq<int>): (r: seq<int>)
    requires Sorted(s)
    ensures Sorted(r) && multiset(r) == multiset(s) + multiset{x}
    ensures |r| == |s| + 1 && (r[0] == x || (s != [] && r[0] == s[0]))
  {
    if s == [] || x <= s[0] then [x] + s
    else
      var rest := Insert(x, s[1..]);
      assert s == [s[0]] + s[1..];
      assert s[0] <= rest[0];
      [s[0]] + rest
  }

  /** An ascending permutation of s (any sorting algorithm gives this same sequence). */
  function Sort(s: seq<int>): (r: seq<int>)
    ensures Sorted(r) && multiset(r) == multiset(s)
  {
    if s == [] then []
    else
      assert s == [s[0]] + s[1..];
      Insert(s[0], Sort(s[1..]))
  }

  // ---------------------------------------------------------------------
  // The table

  /** The table before sorting: the distinct non-zero products in first-seen order, then zeros. */
  function Unsorted(weights: seq<int>, size: nat, span: nat): (acc: seq<int>)
    requires TableConfig(weights, size, span)
    ensures |acc| == LutSize(size, span)
  {
    var d := Dedup(Products(weights, size, span));
    DedupSize(Products(weights, size, span));
    SubsetCard(Elements(Products(weights, size, span)) - {0}, Elements(Products(weights, size, span)));
    d + Zeros(LutSize(size, span) - |d|)
  }

  /** h_mAcceptableVec: the zero-padded first-seen table, sorted ascending. */
  function AcceptableTable(weights: seq<int>, size: nat, span: nat): seq<int>
    requires TableConfig(weights, size, span)
  {
    Sort(Unsorted(weights, size, span))
  }

  /** The table has the fixed capacity L * span / 2 and is sorted ascending. */
  lemma TableShape(weights: seq<int>, size: nat, span: nat)
    requires TableConfig(weights, size, span)
    ensures |AcceptableTable(weights, size, span)| == LutSize(size, span)
    ensures Sorted(AcceptableTable(weights, size, span))
  {
    assert |multiset(AcceptableTable(weights, size, span))| == |multiset(Unsorted(weights, size, span))|;
  }

  lemma {:induction false} ZerosMultiset(n: nat, p: int)
    ensures multiset(Zeros(n))[p] == if p == 0 then n else 0
  {
    if n > 0 {
      ZerosMultiset(n - 1, p);
      assert Zeros(n) == Zeros(n - 1) + [0];
    }
  }

  lemma {:induction false} DistinctMultiset(s: seq<int>, p: int)
    requires Distinct(s)
    ensures multiset(s)[p] == if p in s then 1 else 0
  {
    if s != [] {
      var init := s[..|s| - 1];
      assert s == init + [s[|s| - 1]];
      DistinctMultiset(init, p);
    }
  }

  /**
   * Each non-zero value occurs at most once, and exactly when it is a
   * generated product; 0 occupies every slot the loop left unused.
   */
  lemma TableCounts(weights: seq<int>, size: nat, span: nat, p: int)
    requires TableConfig(weights, size, span)
    ensures var all := Elements(Products(weights, size, span));
      multiset(AcceptableTable(weights, size, span))[p] ==
        if p == 0 then LutSize(size, span) - |all - {0}|
        else if p in all then 1 else 0
  {
    var all := Products(weights, size, span);
    var d := Dedup(all);
    DedupSize(all);
    var n := LutSize(size, span) - |d|;
    assert Unsorted(weights, size, span) == d + Zeros(n);
    assert multiset(AcceptableTable(weights, size, span)) == multiset(d) + multiset(Zeros(n));
    DistinctMultiset(d, p);
    ZerosMultiset(n, p);
    assert p in d <==> p in Elements(d);
  }

  /**
   * A value is in the table exactly when the construction loop generated it,
   * or when it is 0 and some slot was left unused: the zero padding takes
   * part in the membership test.
   */
  lemma TableMembership(weights: seq<int>, size: nat, span: nat, p: int)
    requires TableConfig(weights, size, span)
    ensures var all := Elements(Products(weights, size, span));
      p in AcceptableTable(weights, size, span) <==>
        p in all || (p == 0 && |all - {0}| < LutSize(size, span))
  {
    var all := Elements(Products(weights, size, span));
    TableCounts(weights, size, span, p);
    if p == 0 && p in all {
      assert all == (all - {0}) + {0};
    }
  }

  /** Every product w[i] * w[(i + L/2 + j) mod L] with |j| <= span/2 is in the table. */
  lemma TableContainsProducts(weights: seq<int>, size: nat, span: nat, i: nat, j: int)
    requires TableConfig(weights, size, span)
    requires i < PerimeterLength(size) && -(span / 2) <= j <= span / 2
    ensures var L := PerimeterLength(size);
      weights[i] * weights[(i + L / 2 + j) % L] in AcceptableTable(weights, size, span)
  {
    GeneratedContains(weights, size, span, PerimeterLength(size), i, j);
    TableMembership(weights, size, span, Product(weights, size, span, i, j));
  }

  // ---------------------------------------------------------------------
  // The construction loop

  /** Linear search (std::find at :125 and the lookup loop at :234-241). */
  method Contains(s: seq<int>, x: int) returns (found: bool)
    ensures found <==> x in s
  {
    found := false;
    var t := 0;
    while t < |s|
      invariant 0 <= t <= |s|
      invariant !found ==> x !in s[..t]
      invariant found ==> x in s
    {
      if x == s[t] {
        found := true;
        break;
      }
      t := t + 1;
    }
  }

  /** A value the loop has not stored yet still fits: the generated set bounds the count. */
  lemma RoomForNew(seen: seq<int>, prod: int, all: set<int>, capacity: nat)
    requires Elements(seen) <= all && prod in all && |all| <= capacity
    requires prod !in Dedup(seen)
    ensures |Dedup(seen)| < capacity
  {
    DedupSize(seen);
    var x := (Elements(seen) - {0}) + {prod};
    assert prod !in Elements(seen) - {0};
    assert |x| == |Elements(seen) - {0}| + 1;
    SubsetCard(x, all);
  }

  /** One iteration of the fill loop, on the vector's contents. */
  lemma FillStep(seen: seq<int>, prod: int, all: set<int>, capacity: nat)
    requires Elements(seen) <= all && prod in all && |all| <= capacity
    requires |Dedup(seen)| <= capacity
    ensures Elements(seen + [prod]) <= all
    ensures var vec := Dedup(seen) + Zeros(capacity - |Dedup(seen)|);
      if prod in vec then Dedup(seen + [prod]) == Dedup(seen)
      else
        |Dedup(seen)| < capacity && prod != 0 &&
        Dedup(seen + [prod]) == Dedup(seen) + [prod] &&
        vec[|Dedup(seen)| := prod] == Dedup(seen + [prod]) + Zeros(capacity - |Dedup(seen + [prod])|)
  {
    var next := seen + [prod];
    assert next[..|next| - 1] == seen;
    ElementsAppend(seen, prod);
    var d := Dedup(seen);
    var vec := d + Zeros(capacity - |d|);
    if prod !in vec {
      RoomForNew(seen, prod, all, capacity);
      assert vec[|d|] == 0;
      assert vec[|d| := prod] == (d + [prod]) + Zeros(capacity - |d| - 1);
    }
  }

  /**
   * The fill vector after the products seen so far: the distinct non-zero
   * ones in first-seen order, counter of them, then zeros.
   */
  ghost predicate Stored(contents: seq<int>, seen: seq<int>, counter: nat) {
    counter == |Dedup(seen)| <= |contents| && contents == Dedup(seen) + Zeros(|contents| - counter)
  }

  /**
   * The body of the fill loop: the std::find over the whole vector and, when
   * the product is absent, the store at slot counter.
   */
  method StoreIfNew(vec: array<int>, ghost seen: seq<int>, ghost all: set<int>, counter: nat, prod: int)
    returns (counter': nat)
    requires Elements(seen) <= all && prod in all && |all| <= vec.Length
    requires Stored(vec[..], seen, counter)
    modifies vec
    ensures Elements(seen + [prod]) <= all
    ensures Stored(vec[..], seen + [prod], counter')
  {
    var found := Contains(vec[..], prod);
    FillStep(seen, prod, all, vec.Length);
    ghost var before := vec[..];
    counter' := counter;
    if !found {
      vec[counter] := prod;
      assert vec[..] == before[counter := prod];
      counter' := counter + 1;
    }
  }

  /** The product the inner loop computes for (i, j) is the j-th of row i, and a generated one. */
  lemma RowProductAt(weights: seq<int>, size: nat, span: nat, i: nat, j: int)
    requires ValidSpan(size, span) && |weights| == PerimeterLength(size) && i < PerimeterLength(size)
    requires -(span / 2) <= j <= span / 2
    ensures RowProducts(weights, size, span, i)[j + span / 2] ==
      weights[i] * weights[(i + (2 * size - 2) + j) % PerimeterLength(size)]
    ensures RowProducts(weights, size, span, i)[j + span / 2] in Elements(Products(weights, size, span))
  {
    assert Opposite(size, span, i, j) == (i + (2 * size - 2) + j) % PerimeterLength(size);
    assert RowProducts(weights, size, span, i)[j + span / 2] == Product(weights, size, span, i, j);
    GeneratedContains(weights, size, span, PerimeterLength(size), i, j);
  }

  /**
   * One pass of the fill loop's inner loop: the products of perimeter
   * position i with the positions within span/2 of its opposite, each stored
   * unless already present.
   */
  method FillRow(vec: array<int>, weights: seq<int>, size: nat, span: nat, i: nat, ghost all: set<int>, counter: nat)
    returns (counter': nat)
    requires ValidSpan(size, span) && |weights| == PerimeterLength(size) && i < PerimeterLength(size)
    requires all == Elements(Products(weights, size, span)) && |all| <= vec.Length
    requires Elements(Generated(weights, size, span, i)) <= all
    requires Stored(vec[..], Generated(weights, size, span, i), counter)
    modifies vec
    ensures Elements(Generated(weights, size, span, i + 1)) <= all
    ensures Stored(vec[..], Generated(weights, size, span, i + 1), counter')
  {
    var L := PerimeterLength(size);
    var oppositeEnd := i + (2 * size - 2);
    var hSpan := span / 2;
    ghost var row := RowProducts(weights, size, span, i);
    ghost var seen := Generated(weights, size, span, i);
    counter' := counter;
    var j := -hSpan;
    while j < hSpan + 1
      invariant -hSpan <= j <= hSpan + 1
      invariant seen == Generated(weights, size, span, i) + row[..j + hSpan]
      invariant Elements(seen) <= all
      invariant Stored(vec[..], seen, counter')
    {
      var prod := weights[i] * weights[(oppositeEnd + j) % L];
      RowProductAt(weights, size, span, i, j);
      counter' := StoreIfNew(vec, seen, all, counter', prod);
      assert row[..j + hSpan + 1] == row[..j + hSpan] + [prod];
      seen := seen + [prod];
      j := j + 1;
    }
    assert row[..span] == row;
  }

  /**
   * The fill loop: pairs every perimeter position i with the positions within
   * span/2 of its opposite and stores each product not already present at
   * slot counter of a zeroed vector of capacity L * span / 2.
   */
  method FillAcceptable(weights: seq<int>, size: nat, span: nat) returns (acc: seq<int>)
    requires TableConfig(weights, size, span)
    ensures acc == Unsorted(weights, size, span)
  {
    var L := PerimeterLength(size);
    var vec := new int[LutSize(size, span)](_ => 0);
    var counter := 0;
    ghost var all := Elements(Products(weights, size, span));
    for i := 0 to L
      invariant Elements(Generated(weights, size, span, i)) <= all
      invariant Stored(vec[..], Generated(weights, size, span, i), counter)
    {
      counter := FillRow(vec, weights, size, span, i, all, counter);
    }
    acc := vec[..];
  }
}
