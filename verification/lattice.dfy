/**
  The ring-lattice builder of the graph generator: `removeLoops`,
  `createRegularMatrix` and `_regularMatrixCalc`. The random graph selector
  carries a verbatim copy of the same three functions, and the NetworkX
  study script a copy of `removeLoops`.

  `_regularMatrixCalc(d)` does not use modular arithmetic: it stamps the
  d-th sub-diagonal and super-diagonal and then stitches the two corners of
  the matrix to close the ring. The central lemma, `StampIsRing`, shows that
  these three loops together set exactly the cells (i, (i+d) mod N) and
  (i, (i-d) mod N).
*/
module Lattice {
  import opened MatrixModel

  /** The smallest side, and the range of ring depths, that createRegularMatrix accepts. */
  const MinSide: int := 5
  const MinDepth: int := 1
  const MaxDepth: int := 4

  /** The parameters createRegularMatrix works with after its boundary checks. */
  datatype LatticeParams = LatticeParams(k: int, width: int, height: int)

  /**
    createRegularMatrix's boundary checks: a side below 5 forces a 5x5
    lattice of depth 2, then the depth is clamped into [1, 4].
  */
  function ClampLattice(k: int, width: int, height: int): (p: LatticeParams)
    ensures p.width >= MinSide && p.height >= MinSide && MinDepth <= p.k <= MaxDepth
    ensures (width < MinSide || height < MinSide) ==> p == LatticeParams(2, MinSide, MinSide)
    ensures width >= MinSide && height >= MinSide ==> p.width == width && p.height == height
    ensures width >= MinSide && height >= MinSide && MinDepth <= k <= MaxDepth ==> p.k == k
    ensures width >= MinSide && height >= MinSide && k < MinDepth ==> p.k == MinDepth
    ensures width >= MinSide && height >= MinSide && k > MaxDepth ==> p.k == MaxDepth
  {
    var (w, h, k1) := if width < MinSide || height < MinSide then (MinSide, MinSide, 2) else (width, height, k);
    var k2 := if k1 < MinDepth then MinDepth else k1;
    var k3 := if k2 > MaxDepth then MaxDepth else k2;
    LatticeParams(k3, w, h)
  }

  /**
    The size clamp of the two command-line scripts: sizes below 10 become
    10, sizes above `upper` become `upper` (2000 in the generator, 3000 in
    the random selector).
  */
  function ClampSize(size: int, upper: int): (r: int)
    requires upper >= 10
    ensures 10 <= r <= upper
    ensures 10 <= size <= upper ==> r == size
    ensures size < 10 ==> r == 10
    ensures size > upper ==> r == upper
  {
    if size < 10 then 10 else if size > upper then upper else size
  }

  /**
    The depth clamp of the two command-line scripts: a negative k becomes 1,
    a k above 4 becomes 4. A k of 0 passes through; createRegularMatrix
    raises it to 1 later.
  */
  function ClampScriptDepth(k: int): (r: int)
    ensures 0 <= r <= MaxDepth
    ensures 0 <= k <= MaxDepth ==> r == k
    ensures k < 0 ==> r == 1
    ensures k > MaxDepth ==> r == MaxDepth
  {
    if k < 0 then 1 else if k > MaxDepth then MaxDepth else k
  }

  /** The matrix with the diagonal cells (i, i), i < width and i < height, set to 0. */
  function ClearDiagonal(g: Matrix, width: int, height: int): (r: Matrix)
  {
    seq(|g|, x requires 0 <= x < |g| =>
      seq(|g[x]|, y requires 0 <= y < |g[x]| =>
        if x == y && x < width && y < height then 0 else g[x][y]))
  }

  /**
    On a square matrix whose side is covered by width and height, clearing
    the diagonal yields a loop-free matrix, changes no off-diagonal cell,
    keeps symmetry and 0/1 values, and is idempotent.
  */
  lemma ClearDiagonalProperties(g: Matrix, width: int, height: int)
    requires Square(g) && |g| <= width && |g| <= height
    ensures Square(ClearDiagonal(g, width, height)) && |ClearDiagonal(g, width, height)| == |g|
    ensures ZeroDiagonal(ClearDiagonal(g, width, height))
    ensures forall x, y | 0 <= x < |g| && 0 <= y < |g| && x != y :: ClearDiagonal(g, width, height)[x][y] == g[x][y]
    ensures Symmetric(g) ==> Symmetric(ClearDiagonal(g, width, height))
    ensures ZeroOne(g) ==> ZeroOne(ClearDiagonal(g, width, height))
    ensures ClearDiagonal(ClearDiagonal(g, width, height), width, height) == ClearDiagonal(g, width, height)
  {
    var r := ClearDiagonal(g, width, height);
    MatrixExt(ClearDiagonal(r, width, height), r);
  }

  /**
    removeLoops: scans the width x height region and sets every cell with
    x == y to 0.
  */
  method RemoveLoops(width: nat, height: nat, m: array2<int>)
    requires width <= m.Length0 || height <= m.Length0
    requires width <= m.Length1 || height <= m.Length1
    modifies m
    ensures Grid(m) == ClearDiagonal(old(Grid(m)), width, height)
  {
    for y := 0 to height
      invariant forall a, b | 0 <= a < m.Length0 && 0 <= b < m.Length1 ::
        m[a, b] == if a == b && a < y && a < width then 0 else old(m[a, b])
    {
      for x := 0 to width
        invariant forall a, b | 0 <= a < m.Length0 && 0 <= b < m.Length1 ::
          m[a, b] == if a == b && (a < y || (a == y && a < x)) && a < width then 0 else old(m[a, b])
      {
        if x == y {
          m[x, y] := 0;
        }
      }
    }
    MatrixExt(Grid(m), ClearDiagonal(old(Grid(m)), width, height));
  }

  /** Cells of the d-th diagonal below the main one: y - x == d. */
  predicate OnSubDiagonal(d: int, width: int, height: int, x: int, y: int)
  {
    0 <= x < width && d <= y < height && y - x == d
  }

  /** Cells of the d-th diagonal above the main one: x - y == d. */
  predicate OnSuperDiagonal(d: int, width: int, height: int, x: int, y: int)
  {
    d <= x < width && 0 <= y < height && x - y == d
  }

  /** The corner cells that close the ring: (c, height-d+c) and (width-d+c, c) for c < d. */
  predicate OnCorner(d: int, width: int, height: int, x: int, y: int)
  {
    (0 <= x < d && y == height - d + x) || (0 <= y < d && x == width - d + y)
  }

  /** The cells that _regularMatrixCalc(d) sets to 1. */
  predicate Stamped(d: int, width: int, height: int, x: int, y: int)
  {
    OnSubDiagonal(d, width, height, x, y) || OnSuperDiagonal(d, width, height, x, y) ||
    OnCorner(d, width, height, x, y)
  }

  /** The matrix after _regularMatrixCalc(d). */
  function Stamp(g: Matrix, d: int, width: int, height: int): (r: Matrix)
  {
    seq(|g|, x requires 0 <= x < |g| =>
      seq(|g[x]|, y requires 0 <= y < |g[x]| =>
        if Stamped(d, width, height, x, y) then 1 else g[x][y]))
  }

  /** The matrix after _regularMatrixCalc(1), ..., _regularMatrixCalc(k). */
  function StampAll(g: Matrix, k: nat, width: int, height: int): (r: Matrix)
    decreases k
  {
    if k == 0 then g else Stamp(StampAll(g, k - 1, width, height), k, width, height)
  }

  /**
    _regularMatrixCalc: two nested loops stamp the d-th sub- and
    super-diagonal, a third loop links the first d and the last d indices.
  */
  method RegularMatrixCalc(d: int, width: int, height: int, m: array2<int>)
    requires 1 <= d <= width && d <= height
    requires width <= m.Length0 && height <= m.Length1
    modifies m
    ensures Grid(m) == Stamp(old(Grid(m)), d, width, height)
  {
    // the diagonal d below the main one
    var y := d;
    while y <= height - 1
      invariant d <= y <= height
      invariant forall a, b | 0 <= a < m.Length0 && 0 <= b < m.Length1 ::
        m[a, b] == if OnSubDiagonal(d, width, height, a, b) && b < y then 1 else old(m[a, b])
    {
      var x := 0;
      while x <= width - 1
        invariant 0 <= x <= width
        invariant forall a, b | 0 <= a < m.Length0 && 0 <= b < m.Length1 ::
          m[a, b] == if OnSubDiagonal(d, width, height, a, b) && (b < y || (b == y && a < x)) then 1 else old(m[a, b])
      {
        if y - x == d {
          m[x, y] := 1;
        }
        x := x + 1;
      }
      y := y + 1;
    }

    // the diagonal d above the main one
    y := 0;
    while y <= height - 1
      invariant 0 <= y <= height
      invariant forall a, b | 0 <= a < m.Length0 && 0 <= b < m.Length1 ::
        m[a, b] == if OnSubDiagonal(d, width, height, a, b) ||
                      (OnSuperDiagonal(d, width, height, a, b) && b < y) then 1 else old(m[a, b])
    {
      var x := d;
      while x <= width - 1
        invariant d <= x <= width
        invariant forall a, b | 0 <= a < m.Length0 && 0 <= b < m.Length1 ::
          m[a, b] == if OnSubDiagonal(d, width, height, a, b) ||
                        (OnSuperDiagonal(d, width, height, a, b) && (b < y || (b == y && a < x))) then 1 else old(m[a, b])
      {
        if x - y == d {
          m[x, y] := 1;
        }
        x := x + 1;
      }
      y := y + 1;
    }

    // link the two ends of the chain
    var count := 0;
    while count < d
      invariant 0 <= count <= d
      invariant forall a, b | 0 <= a < m.Length0 && 0 <= b < m.Length1 ::
        m[a, b] == if OnSubDiagonal(d, width, height, a, b) || OnSuperDiagonal(d, width, height, a, b) ||
                      (0 <= a < count && b == height - d + a) || (0 <= b < count && a == width - d + b)
                   then 1 else old(m[a, b])
    {
      m[count, height - d + count] := 1;
      m[width - d + count, count] := 1;
      count := count + 1;
    }
    MatrixExt(Grid(m), Stamp(old(Grid(m)), d, width, height));
  }

  /**
    createRegularMatrix: clamps its parameters, clears the diagonal and calls
    _regularMatrixCalc for every depth 1..k in turn. On an all-zero N x N
    matrix it builds the ring lattice.
  */
  method CreateRegularMatrix(k: int, width: int, height: int, m: array2<int>)
    requires ClampLattice(k, width, height).width <= m.Length0
    requires ClampLattice(k, width, height).height <= m.Length1
    modifies m
    ensures var p := ClampLattice(k, width, height);
      Grid(m) == StampAll(ClearDiagonal(old(Grid(m)), p.width, p.height), p.k, p.width, p.height)
    ensures IsZero(old(Grid(m))) && m.Length0 == m.Length1 == width == height ==>
      Grid(m) == RegularLattice(width, ClampLattice(k, width, height).k)
  {
    var maxWidth, maxHeight, depth := width, height, k;
    if maxWidth < 5 || maxHeight < 5 {
      maxWidth, maxHeight, depth := 5, 5, 2;
    }
    if depth < 1 {
      depth := 1;
    }
    if depth > 4 {
      depth := 4;
    }
    assert LatticeParams(depth, maxWidth, maxHeight) == ClampLattice(k, width, height);
    RemoveLoops(maxWidth, maxHeight, m);
    StampDepths(depth, maxWidth, maxHeight, m);
    if IsZero(old(Grid(m))) && m.Length0 == m.Length1 == width == height {
      RegularFromZero(old(Grid(m)), k, width);
    }
  }

  /** The loop of createRegularMatrix: _regularMatrixCalc for count = 1, ..., depth. */
  method StampDepths(depth: int, width: int, height: int, m: array2<int>)
    requires 1 <= depth <= width && depth <= height
    requires width <= m.Length0 && height <= m.Length1
    modifies m
    ensures Grid(m) == StampAll(old(Grid(m)), depth, width, height)
  {
    ghost var g0 := Grid(m);
    var count := 1;
    while count <= depth
      invariant 1 <= count <= depth + 1
      invariant Grid(m) == StampAll(g0, count - 1, width, height)
    {
      RegularMatrixCalc(count, width, height, m);
      count := count + 1;
    }
  }

  /** createRegularMatrix on an all-zero N x N matrix builds the ring lattice of the clamped depth. */
  lemma RegularFromZero(g: Matrix, k: int, n: int)
    requires |g| == n && Square(g) && IsZero(g) && n >= MinSide
    ensures var p := ClampLattice(k, n, n);
      p.width == n && p.height == n &&
      StampAll(ClearDiagonal(g, n, n), p.k, n, n) == RegularLattice(n, p.k)
  {
    LatticeFromZero(g, n, ClampLattice(k, n, n).k);
  }

  // ---------------------------------------------------------------------
  // The stamped cells are the ring offsets

  /** Euclidean remainder: a = q*n + r with 0 <= r < n determines r. */
  lemma ModUnique(a: int, n: int, q: int, r: int)
    requires n > 0 && 0 <= r < n && a == q * n + r
    ensures a % n == r
  {
    var q', r' := a / n, a % n;
    assert (q' - q) * n == r - r';
    if q' > q {
      MulAtLeast(q' - q, n);
    } else if q' < q {
      MulAtLeast(q - q', n);
    }
  }

  lemma MulAtLeast(c: int, n: int)
    requires c >= 1 && n > 0
    ensures c * n >= n
  {
  }

  /** Dafny's % on a value at most one period away from [0, n). */
  lemma ModWrap(a: int, n: int)
    requires n > 0 && -n <= a < 2 * n
    ensures a % n == if a < 0 then a + n else if a < n then a else a - n
  {
    if a < 0 {
      ModUnique(a, n, -1, a + n);
    } else if a < n {
      ModUnique(a, n, 0, a);
    } else {
      ModUnique(a, n, 1, a - n);
    }
  }

  /**
    The three loops of _regularMatrixCalc(d) on an N x N matrix set exactly
    the cells (i, (i+d) mod N) and (i, (i-d) mod N).
  */
  lemma StampIsRing(n: int, d: int, x: int, y: int)
    requires 1 <= d < n
    ensures Stamped(d, n, n, x, y) <==>
      0 <= x < n && 0 <= y < n && (y == (x + d) % n || y == (x - d) % n)
  {
    if 0 <= x < n {
      ModWrap(x + d, n);
      ModWrap(x - d, n);
    }
  }

  /** The ring lattice of depth k: (y - x) mod N lies in {1..k} or {N-k..N-1}. */
  predicate InRing(n: int, k: int, x: int, y: int)
    requires n > 0
  {
    0 <= x < n && 0 <= y < n &&
    var t := (y - x) % n;
    (1 <= t <= k) || (n - k <= t <= n - 1)
  }

  /** Some depth 1..k stamps cell (x, y). */
  predicate StampedUpTo(k: int, width: int, height: int, x: int, y: int)
  {
    exists d | 1 <= d <= k :: Stamped(d, width, height, x, y)
  }

  /** Offset d stamps (x, y) exactly when (y - x) mod N is d or N - d. */
  lemma StampedOffset(n: int, d: int, x: int, y: int)
    requires 1 <= d < n && 0 <= x < n && 0 <= y < n
    ensures Stamped(d, n, n, x, y) <==> ((y - x) % n == d || (y - x) % n == n - d)
  {
    StampIsRing(n, d, x, y);
    ModWrap(y - x, n);
    ModWrap(x + d, n);
    ModWrap(x - d, n);
  }

  /** The depths 1..k together stamp exactly the ring lattice of depth k. */
  lemma LatticeIsRing(n: int, k: int, x: int, y: int)
    requires 1 <= k < n && 0 <= x < n && 0 <= y < n
    ensures StampedUpTo(k, n, n, x, y) <==> InRing(n, k, x, y)
  {
    var t := (y - x) % n;
    if StampedUpTo(k, n, n, x, y) {
      var d :| 1 <= d <= k && Stamped(d, n, n, x, y);
      StampedOffset(n, d, x, y);
    }
    if InRing(n, k, x, y) {
      var d := if 1 <= t <= k then t else n - t;
      StampedOffset(n, d, x, y);
      assert Stamped(d, n, n, x, y);
    }
  }

  /** StampAll sets the cells some depth 1..k stamps and keeps every other cell. */
  lemma {:induction false} StampAllAt(g: Matrix, k: nat, width: int, height: int)
    ensures |StampAll(g, k, width, height)| == |g|
    ensures forall x | 0 <= x < |g| :: |StampAll(g, k, width, height)[x]| == |g[x]|
    ensures forall x, y | 0 <= x < |g| && 0 <= y < |g[x]| ::
      StampAll(g, k, width, height)[x][y] == if StampedUpTo(k, width, height, x, y) then 1 else g[x][y]
  {
    if k > 0 {
      StampAllAt(g, k - 1, width, height);
    }
  }

  /** The N x N ring lattice of depth k as a 0/1 matrix. */
  function RegularLattice(n: int, k: int): (r: Matrix)
    requires n > 0
  {
    seq(n, x requires 0 <= x < n => seq(n, y requires 0 <= y < n => if InRing(n, k, x, y) then 1 else 0))
  }

  /** createRegularMatrix on an all-zero N x N matrix yields the ring lattice. */
  lemma LatticeFromZero(g: Matrix, n: int, k: int)
    requires |g| == n && Square(g) && IsZero(g) && 1 <= k < n
    ensures StampAll(ClearDiagonal(g, n, n), k, n, n) == RegularLattice(n, k)
  {
    var c := ClearDiagonal(g, n, n);
    StampAllAt(c, k, n, n);
    forall x, y | 0 <= x < n && 0 <= y < n
      ensures StampAll(c, k, n, n)[x][y] == RegularLattice(n, k)[x][y]
    {
      LatticeIsRing(n, k, x, y);
    }
    MatrixExt(StampAll(c, k, n, n), RegularLattice(n, k));
  }

  /** The ring relation is symmetric and irreflexive. */
  lemma InRingSymmetric(n: int, k: int, x: int, y: int)
    requires 1 <= k < n && 0 <= x < n && 0 <= y < n
    ensures InRing(n, k, x, y) <==> InRing(n, k, y, x)
    ensures !InRing(n, k, x, x)
  {
    ModWrap(y - x, n);
    ModWrap(x - y, n);
  }

  /** The ring lattice is a simple undirected graph. */
  lemma RegularLatticeIsSimple(n: int, k: int)
    requires 1 <= k < n
    ensures SimpleGraph(RegularLattice(n, k))
  {
    var r := RegularLattice(n, k);
    forall x, y | 0 <= x < n && 0 <= y < n
      ensures r[x][y] == r[y][x]
    {
      InRingSymmetric(n, k, x, y);
    }
    forall i | 0 <= i < n
      ensures r[i][i] == 0
    {
      InRingSymmetric(n, k, i, i);
    }
  }

  /** Row 0 of the ring lattice, indexed by the offset t = (y - x) mod N. */
  function OffsetPattern(n: nat, k: int): (s: seq<int>)
  {
    seq(n, t => if (1 <= t <= k) || (n - k <= t <= n - 1) then 1 else 0)
  }

  function Repeat(v: int, len: nat): (s: seq<int>)
  {
    seq(len, _ => v)
  }

  lemma {:induction false} RowOnesRepeat(v: int, len: nat)
    ensures RowOnes(Repeat(v, len)) == len * Bit(v)
  {
    if len > 0 {
      assert Repeat(v, len)[1..] == Repeat(v, len - 1);
      RowOnesRepeat(v, len - 1);
    }
  }

  /** The offset pattern holds exactly 2k ones when 2k < N. */
  lemma OffsetPatternOnes(n: int, k: int)
    requires 1 <= k && 2 * k < n
    ensures RowOnes(OffsetPattern(n, k)) == 2 * k
  {
    var a, b, c := Repeat(1, k), Repeat(0, n - 2 * k - 1), Repeat(1, k);
    assert OffsetPattern(n, k) == [0] + a + b + c;
    RowOnesRepeat(1, k);
    RowOnesRepeat(0, n - 2 * k - 1);
    RowOnesConcat([0] + a + b, c);
    RowOnesConcat([0] + a, b);
    RowOnesConcat([0], a);
  }

  /** Every node of the ring lattice has degree exactly 2k when 2k < N. */
  lemma RegularLatticeDegree(n: int, k: int, x: int)
    requires 1 <= k && 2 * k < n && 0 <= x < n
    ensures RowOnes(RegularLattice(n, k)[x]) == 2 * k
  {
    var p := OffsetPattern(n, k);
    var row := RegularLattice(n, k)[x];
    forall y | 0 <= y < n
      ensures row[y] == (p[n - x..] + p[..n - x])[y]
    {
      ModWrap(y - x, n);
    }
    assert row == p[n - x..] + p[..n - x];
    RowOnesConcat(p[n - x..], p[..n - x]);
    RowOnesConcat(p[..n - x], p[n - x..]);
    assert p[..n - x] + p[n - x..] == p;
    OffsetPatternOnes(n, k);
  }

  /** The ring lattice has 2Nk one-cells, that is N*k undirected edges. */
  lemma RegularLatticeOnes(n: int, k: int)
    requires 1 <= k && 2 * k < n
    ensures Ones(RegularLattice(n, k)) == 2 * n * k
  {
    var r := RegularLattice(n, k);
    forall x | 0 <= x < n
      ensures RowOnes(r[x]) == 2 * k
    {
      RegularLatticeDegree(n, k, x);
    }
    OnesUniform(r, 2 * k);
  }

  /**
    With the command-line clamps of either script (size in [10, upper],
    depth at most 4), createRegularMatrix builds an N x N lattice whose every
    node has degree exactly 2k, k being the depth it used.
  */
  lemma ScriptLatticeIsRegular(size: int, upper: int, k: int, x: int)
    requires upper >= 10
    requires 0 <= x < ClampSize(size, upper)
    ensures var n := ClampSize(size, upper);
      var p := ClampLattice(ClampScriptDepth(k), n, n);
      p.width == p.height == n && 2 * p.k < n &&
      SimpleGraph(RegularLattice(n, p.k)) &&
      RowOnes(RegularLattice(n, p.k)[x]) == 2 * p.k
  {
    var n := ClampSize(size, upper);
    var p := ClampLattice(ClampScriptDepth(k), n, n);
    RegularLatticeIsSimple(n, p.k);
    RegularLatticeDegree(n, p.k, x);
  }
}
