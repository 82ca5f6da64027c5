/**
  The adjacency matrix shared by the graph generator, the random graph
  selector and the NetworkX study script.

  The scripts keep the matrix as a Python list of lists and index it as
  `matrix[x][y]`; here it is an `array2<int>` indexed as `m[x, y]`. Every
  property is stated about the value `Grid(m)`, a sequence of rows, so that
  the lemmas about it are ordinary lemmas over values.
*/
module MatrixModel {

  type Matrix = seq<seq<int>>

  /** The value held by the array, row `x` being `m[x, 0..]`. */
  ghost function Grid(m: array2<int>): (g: Matrix)
    reads m
    ensures |g| == m.Length0
    ensures forall x | 0 <= x < |g| :: |g[x]| == m.Length1
    ensures forall x, y | 0 <= x < m.Length0 && 0 <= y < m.Length1 :: g[x][y] == m[x, y]
  {
    seq(m.Length0, x requires 0 <= x < m.Length0 reads m =>
      seq(m.Length1, y requires 0 <= y < m.Length1 reads m => m[x, y]))
  }

  /** Two matrices with the same shape and the same cells are equal. */
  lemma MatrixExt(g: Matrix, h: Matrix)
    requires |g| == |h|
    requires forall x | 0 <= x < |g| :: |g[x]| == |h[x]|
    requires forall x, y | 0 <= x < |g| && 0 <= y < |g[x]| :: g[x][y] == h[x][y]
    ensures g == h
  {
    forall x | 0 <= x < |g|
      ensures g[x] == h[x]
    {
      assert |g[x]| == |h[x]|;
    }
  }

  predicate Square(g: Matrix)
  {
    forall x | 0 <= x < |g| :: |g[x]| == |g|
  }

  /** Undirected: cell (x,y) equals cell (y,x). */
  predicate Symmetric(g: Matrix)
  {
    Square(g) && forall x, y | 0 <= x < |g| && 0 <= y < |g| :: g[x][y] == g[y][x]
  }

  /** No self-loops: the main diagonal is 0. */
  predicate ZeroDiagonal(g: Matrix)
  {
    Square(g) && forall i | 0 <= i < |g| :: g[i][i] == 0
  }

  /** Every cell is an edge flag. */
  predicate ZeroOne(g: Matrix)
  {
    Square(g) && forall x, y | 0 <= x < |g| && 0 <= y < |g| :: g[x][y] == 0 || g[x][y] == 1
  }

  /** A simple undirected graph: symmetric, loop-free, 0/1 valued. */
  predicate SimpleGraph(g: Matrix)
  {
    Symmetric(g) && ZeroDiagonal(g) && ZeroOne(g)
  }

  predicate IsZero(g: Matrix)
  {
    forall x, y | 0 <= x < |g| && 0 <= y < |g[x]| :: g[x][y] == 0
  }

  function Bit(v: int): (b: nat)
  {
    if v == 1 then 1 else 0
  }

  /** Number of cells equal to 1 in one row: the degree of a node. */
  function RowOnes(s: seq<int>): (n: nat)
  {
    if |s| == 0 then 0 else Bit(s[0]) + RowOnes(s[1..])
  }

  /** Number of cells equal to 1 in the matrix: twice the edge count of a simple graph. */
  function Ones(g: Matrix): (n: nat)
  {
    if |g| == 0 then 0 else RowOnes(g[0]) + Ones(g[1..])
  }

  /** The matrix with the single cell (x,y) replaced by v. */
  function Set(g: Matrix, x: int, y: int, v: int): (r: Matrix)
    requires 0 <= x < |g| && 0 <= y < |g[x]|
  {
    g[x := g[x][y := v]]
  }

  /** Set keeps the shape and changes cell (x,y) only. */
  lemma SetAt(g: Matrix, x: int, y: int, v: int)
    requires 0 <= x < |g| && 0 <= y < |g[x]|
    ensures |Set(g, x, y, v)| == |g| && forall a | 0 <= a < |g| :: |Set(g, x, y, v)[a]| == |g[a]|
    ensures forall a, b | 0 <= a < |g| && 0 <= b < |g[a]| ::
      Set(g, x, y, v)[a][b] == if a == x && b == y then v else g[a][b]
  {
  }

  /** Disconnect x and y in both directions. */
  function ZeroPair(g: Matrix, x: int, y: int): (r: Matrix)
    requires Square(g) && 0 <= x < |g| && 0 <= y < |g|
  {
    Set(Set(g, x, y, 0), y, x, 0)
  }

  /** Connect x and c in both directions. */
  function LinkPair(g: Matrix, x: int, c: int): (r: Matrix)
    requires Square(g) && 0 <= x < |g| && 0 <= c < |g|
  {
    Set(Set(g, x, c, 1), c, x, 1)
  }

  lemma {:induction false} RowOnesConcat(a: seq<int>, b: seq<int>)
    ensures RowOnes(a + b) == RowOnes(a) + RowOnes(b)
  {
    if |a| > 0 {
      assert (a + b)[0] == a[0];
      assert (a + b)[1..] == a[1..] + b;
      RowOnesConcat(a[1..], b);
    } else {
      assert a + b == b;
    }
  }

  lemma {:induction false} RowOnesUpdate(s: seq<int>, j: int, v: int)
    requires 0 <= j < |s|
    ensures RowOnes(s[j := v]) == RowOnes(s) - Bit(s[j]) + Bit(v)
  {
    if j == 0 {
      assert s[j := v][1..] == s[1..];
    } else {
      assert s[j := v][1..] == s[1..][j - 1 := v];
      RowOnesUpdate(s[1..], j - 1, v);
    }
  }

  lemma {:induction false} OnesUpdateRow(g: Matrix, x: int, r: seq<int>)
    requires 0 <= x < |g|
    ensures Ones(g[x := r]) == Ones(g) - RowOnes(g[x]) + RowOnes(r)
  {
    if x == 0 {
      assert g[x := r][1..] == g[1..];
    } else {
      assert g[x := r][1..] == g[1..][x - 1 := r];
      OnesUpdateRow(g[1..], x - 1, r);
    }
  }

  /** Writing v into one cell changes the count of 1-cells by exactly what that cell gains or loses. */
  lemma OnesSet(g: Matrix, x: int, y: int, v: int)
    requires 0 <= x < |g| && 0 <= y < |g[x]|
    ensures Ones(Set(g, x, y, v)) == Ones(g) - Bit(g[x][y]) + Bit(v)
  {
    RowOnesUpdate(g[x], y, v);
    OnesUpdateRow(g, x, g[x][y := v]);
  }

  /** Writing one cell changes row x only. */
  lemma RowOnesSet(g: Matrix, x: int, y: int, v: int)
    requires 0 <= x < |g| && 0 <= y < |g[x]|
    ensures RowOnes(Set(g, x, y, v)[x]) == RowOnes(g[x]) - Bit(g[x][y]) + Bit(v)
  {
    RowOnesUpdate(g[x], y, v);
  }

  /** ZeroPair clears (x,y) and (y,x) and nothing else. */
  lemma ZeroPairAt(g: Matrix, x: int, y: int)
    requires Square(g) && 0 <= x < |g| && 0 <= y < |g|
    ensures Square(ZeroPair(g, x, y)) && |ZeroPair(g, x, y)| == |g|
    ensures forall a, b | 0 <= a < |g| && 0 <= b < |g| ::
      ZeroPair(g, x, y)[a][b] == if (a == x && b == y) || (a == y && b == x) then 0 else g[a][b]
  {
    SetAt(g, x, y, 0);
    SetAt(Set(g, x, y, 0), y, x, 0);
  }

  /** LinkPair sets (x,c) and (c,x) and nothing else. */
  lemma LinkPairAt(g: Matrix, x: int, c: int)
    requires Square(g) && 0 <= x < |g| && 0 <= c < |g|
    ensures Square(LinkPair(g, x, c)) && |LinkPair(g, x, c)| == |g|
    ensures forall a, b | 0 <= a < |g| && 0 <= b < |g| ::
      LinkPair(g, x, c)[a][b] == if (a == x && b == c) || (a == c && b == x) then 1 else g[a][b]
  {
    SetAt(g, x, c, 1);
    SetAt(Set(g, x, c, 1), c, x, 1);
  }

  /**
    Removing an existing undirected edge {x,y} from a simple graph keeps it
    simple and removes exactly two 1-cells, one of them in row x.
  */
  lemma ZeroPairRemovesEdge(g: Matrix, x: int, y: int)
    requires SimpleGraph(g) && 0 <= x < |g| && 0 <= y < |g| && x != y && g[x][y] == 1
    ensures SimpleGraph(ZeroPair(g, x, y))
    ensures Ones(ZeroPair(g, x, y)) == Ones(g) - 2
    ensures RowOnes(ZeroPair(g, x, y)[x]) == RowOnes(g[x]) - 1
  {
    var g1 := Set(g, x, y, 0);
    OnesSet(g, x, y, 0);
    OnesSet(g1, y, x, 0);
    RowOnesSet(g, x, y, 0);
    assert ZeroPair(g, x, y)[x] == g1[x];
    ZeroPairAt(g, x, y);
    ZeroPairKeepsSymmetry(g, x, y);
  }

  /**
    Adding a missing undirected edge {x,c} to a simple graph keeps it simple
    and adds exactly two 1-cells, one of them in row x.
  */
  lemma LinkPairAddsEdge(g: Matrix, x: int, c: int)
    requires SimpleGraph(g) && 0 <= x < |g| && 0 <= c < |g| && x != c && g[x][c] == 0
    ensures SimpleGraph(LinkPair(g, x, c))
    ensures Ones(LinkPair(g, x, c)) == Ones(g) + 2
    ensures RowOnes(LinkPair(g, x, c)[x]) == RowOnes(g[x]) + 1
  {
    var g1 := Set(g, x, c, 1);
    OnesSet(g, x, c, 1);
    OnesSet(g1, c, x, 1);
    RowOnesSet(g, x, c, 1);
    assert LinkPair(g, x, c)[x] == g1[x];
    LinkPairAt(g, x, c);
    LinkPairKeepsSymmetry(g, x, c);
  }

  /** Clearing a symmetric pair keeps any symmetric matrix symmetric and never touches the diagonal. */
  lemma ZeroPairKeepsSymmetry(g: Matrix, x: int, y: int)
    requires Square(g) && 0 <= x < |g| && 0 <= y < |g| && x != y
    ensures Symmetric(g) ==> Symmetric(ZeroPair(g, x, y))
    ensures forall i | 0 <= i < |g| :: ZeroPair(g, x, y)[i][i] == g[i][i]
  {
    ZeroPairAt(g, x, y);
  }

  /** Setting a symmetric pair keeps any symmetric matrix symmetric and never touches the diagonal. */
  lemma LinkPairKeepsSymmetry(g: Matrix, x: int, c: int)
    requires Square(g) && 0 <= x < |g| && 0 <= c < |g| && x != c
    ensures Symmetric(g) ==> Symmetric(LinkPair(g, x, c))
    ensures forall i | 0 <= i < |g| :: LinkPair(g, x, c)[i][i] == g[i][i]
  {
    LinkPairAt(g, x, c);
  }

  /** Ones of a matrix whose rows all have degree d is |g| * d. */
  lemma {:induction false} OnesUniform(g: Matrix, d: nat)
    requires forall x | 0 <= x < |g| :: RowOnes(g[x]) == d
    ensures Ones(g) == |g| * d
  {
    if |g| > 0 {
      OnesUniform(g[1..], d);
    }
  }

  /** Setting (x,y) and then (y,x) to 0 in place. */
  method ClearPair(m: array2<int>, x: int, y: int)
    requires m.Length0 == m.Length1 && 0 <= x < m.Length0 && 0 <= y < m.Length0
    modifies m
    ensures Square(old(Grid(m))) && Square(Grid(m))
    ensures Grid(m) == ZeroPair(old(Grid(m)), x, y)
  {
    ghost var g := Grid(m);
    m[x, y] := 0;
    m[y, x] := 0;
    ZeroPairAt(g, x, y);
    MatrixExt(Grid(m), ZeroPair(g, x, y));
  }

  /** Setting (x,c) and then (c,x) to 1 in place. */
  method SetPair(m: array2<int>, x: int, c: int)
    requires m.Length0 == m.Length1 && 0 <= x < m.Length0 && 0 <= c < m.Length0
    modifies m
    ensures Square(old(Grid(m))) && Square(Grid(m))
    ensures Grid(m) == LinkPair(old(Grid(m)), x, c)
  {
    ghost var g := Grid(m);
    m[x, c] := 1;
    m[c, x] := 1;
    LinkPairAt(g, x, c);
    MatrixExt(Grid(m), LinkPair(g, x, c));
  }
}
