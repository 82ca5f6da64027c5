/**
  `mutateMatrix` of the NetworkX study script: it disconnects random vertex
  pairs until a target number of pairs has been disconnected. A draw
  (randx, randy) counts only when the cell is not already 0 and is off the
  diagonal; both (randx, randy) and (randy, randx) are then set to 0.

  The random draws are a parameter, a finite sequence of (randx, randy)
  pairs. When it runs out before the target is reached the model stops
  with `reached` false; the source would keep drawing.
*/
module Mutate {
  import opened MatrixModel

  /** mutantPercent clamped: 0.99 at most, and 0.01 when it is not positive. */
  function ClampMutantPercent(pct: real): (r: real)
    ensures 0.0 < r <= 0.99
    ensures pct >= 0.99 ==> r == 0.99
    ensures pct <= 0.0 ==> r == 0.01
    ensures 0.0 < pct < 0.99 ==> r == pct
  {
    var a := if pct >= 0.99 then 0.99 else pct;
    if a <= 0.0 then 0.01 else a
  }

  /**
    The number of pairs to disconnect: the given fraction of the
    off-diagonal cells, halved because every pair is two cells.
  */
  function MutantPairTarget(width: nat, height: nat, pct: real): (t: real)
  {
    ((width * height - width) as real * pct) / 2.0
  }

  /**
    On an n x n matrix with a percentage in [0, 1] the target lies between
    0 and n(n-1)/2, the number of vertex pairs.
  */
  lemma MutantPairTargetRange(n: nat, pct: real)
    requires 0.0 <= pct <= 1.0
    ensures 0.0 <= MutantPairTarget(n, n, pct) <= (n * (n - 1)) as real / 2.0
  {
    var c := n * n - n;
    assert c == n * (n - 1);
    assert c >= 0 by {
      if n > 0 {
        assert n * (n - 1) >= 0;
      }
    }
    var cr := c as real;
    assert cr * pct <= cr by {
      assert cr * (1.0 - pct) >= 0.0;
    }
    assert cr * pct >= 0.0;
  }

  /** Every draw lies in [0, width) x [0, height), as randint promises. */
  predicate DrawsInRange(draws: seq<(int, int)>, width: int, height: int)
  {
    forall i | 0 <= i < |draws| :: 0 <= draws[i].0 < width && 0 <= draws[i].1 < height
  }

  datatype Mutation = Mutation(g: Matrix, pairs: nat, reached: bool)

  /**
    The loop from a matrix and a count of pairs already disconnected: stop
    once the count reaches the target, otherwise take the next draw.
  */
  function Mutate(g: Matrix, target: real, pairs: nat, draws: seq<(int, int)>): (r: Mutation)
    requires Square(g) && DrawsInRange(draws, |g|, |g|)
    ensures Square(r.g) && |r.g| == |g|
    ensures r.pairs >= pairs
    decreases |draws|
  {
    if pairs as real >= target then Mutation(g, pairs, true)
    else if |draws| == 0 then Mutation(g, pairs, false)
    else
      var (x, y) := draws[0];
      if g[x][y] != 0 && x != y then
        ZeroPairAt(g, x, y);
        Mutate(ZeroPair(g, x, y), target, pairs + 1, draws[1..])
      else
        Mutate(g, target, pairs, draws[1..])
  }

  /** The loop ends with the target reached exactly when the count is at least the target. */
  lemma {:induction false} MutateReached(g: Matrix, target: real, pairs: nat, draws: seq<(int, int)>)
    requires Square(g) && DrawsInRange(draws, |g|, |g|)
    ensures Mutate(g, target, pairs, draws).reached <==> Mutate(g, target, pairs, draws).pairs as real >= target
    decreases |draws|
  {
    if pairs as real < target && |draws| > 0 {
      var (x, y) := draws[0];
      if g[x][y] != 0 && x != y {
        ZeroPairAt(g, x, y);
        MutateReached(ZeroPair(g, x, y), target, pairs + 1, draws[1..]);
      } else {
        MutateReached(g, target, pairs, draws[1..]);
      }
    }
  }

  /**
    Only 0 is ever written and never on the diagonal: every cell ends
    unchanged or 0, the diagonal is untouched, and a symmetric matrix stays
    symmetric.
  */
  lemma {:induction false} MutateOnlyClears(g: Matrix, target: real, pairs: nat, draws: seq<(int, int)>)
    requires Square(g) && DrawsInRange(draws, |g|, |g|)
    ensures var r := Mutate(g, target, pairs, draws).g;
      (forall a, b | 0 <= a < |g| && 0 <= b < |g| :: r[a][b] == g[a][b] || r[a][b] == 0) &&
      (forall i | 0 <= i < |g| :: r[i][i] == g[i][i]) &&
      (Symmetric(g) ==> Symmetric(r))
    decreases |draws|
  {
    if pairs as real < target && |draws| > 0 {
      var (x, y) := draws[0];
      if g[x][y] != 0 && x != y {
        ZeroPairAt(g, x, y);
        ZeroPairKeepsSymmetry(g, x, y);
        MutateOnlyClears(ZeroPair(g, x, y), target, pairs + 1, draws[1..]);
      } else {
        MutateOnlyClears(g, target, pairs, draws[1..]);
      }
    }
  }

  /**
    On a simple graph every counted pair is one edge removed: the result is
    still a simple graph with two 1-cells fewer per counted pair.
  */
  lemma {:induction false} MutateRemovesEdges(g: Matrix, target: real, pairs: nat, draws: seq<(int, int)>)
    requires SimpleGraph(g) && DrawsInRange(draws, |g|, |g|)
    ensures SimpleGraph(Mutate(g, target, pairs, draws).g)
    ensures Ones(Mutate(g, target, pairs, draws).g) == Ones(g) - 2 * (Mutate(g, target, pairs, draws).pairs - pairs)
    decreases |draws|
  {
    if pairs as real < target && |draws| > 0 {
      var (x, y) := draws[0];
      if g[x][y] != 0 && x != y {
        ZeroPairRemovesEdge(g, x, y);
        MutateRemovesEdges(ZeroPair(g, x, y), target, pairs + 1, draws[1..]);
      } else {
        MutateRemovesEdges(g, target, pairs, draws[1..]);
      }
    }
  }

  /**
    If the graph has fewer edges left than the pairs still to disconnect,
    the target is never reached, whatever is drawn: the source loops forever.
  */
  lemma TargetOutOfReach(g: Matrix, target: real, pairs: nat, draws: seq<(int, int)>)
    requires SimpleGraph(g) && DrawsInRange(draws, |g|, |g|)
    requires (pairs + Ones(g) / 2) as real < target
    ensures !Mutate(g, target, pairs, draws).reached
  {
    MutateRemovesEdges(g, target, pairs, draws);
    MutateReached(g, target, pairs, draws);
    var counted := Mutate(g, target, pairs, draws).pairs;
    assert 2 * (counted - pairs) <= Ones(g);
    assert counted <= pairs + Ones(g) / 2;
  }

  /** One more iteration of the loop: the next draw either clears a pair and counts it, or is skipped. */
  lemma MutateNext(g: Matrix, target: real, pairs: nat, draws: seq<(int, int)>)
    requires Square(g) && DrawsInRange(draws, |g|, |g|)
    requires pairs as real < target && |draws| > 0
    ensures var (x, y) := draws[0];
      DrawsInRange(draws[1..], |g|, |g|) &&
      Mutate(g, target, pairs, draws) ==
        if g[x][y] != 0 && x != y then Mutate(ZeroPair(g, x, y), target, pairs + 1, draws[1..])
        else Mutate(g, target, pairs, draws[1..])
  {
  }

  /** mutateMatrix, proved against Mutate. */
  method MutateMatrix(mutantPercent: real, width: nat, height: nat, m: array2<int>, draws: seq<(int, int)>)
    returns (pairs: nat, reached: bool)
    requires m.Length0 == m.Length1 && width <= m.Length0 && height <= m.Length0
    requires DrawsInRange(draws, width, height)
    modifies m
    ensures Square(old(Grid(m))) && DrawsInRange(draws, m.Length0, m.Length0)
    ensures Mutation(Grid(m), pairs, reached) ==
      Mutate(old(Grid(m)), MutantPairTarget(width, height, ClampMutantPercent(mutantPercent)), 0, draws)
  {
    ghost var g0 := Grid(m);
    var pct := mutantPercent;
    if pct >= 0.99 {
      pct := 0.99;
    }
    if pct <= 0.0 {
      pct := 0.01;
    }
    var numCells := width * height;
    var numCellsNoDiagonal := numCells - width;
    var mutantCellCount := numCellsNoDiagonal as real * pct;
    var mutantPairCount := mutantCellCount / 2.0;
    assert mutantPairCount == MutantPairTarget(width, height, ClampMutantPercent(mutantPercent));

    pairs := 0;
    var i := 0;
    while pairs as real < mutantPairCount && i < |draws|
      invariant 0 <= i <= |draws|
      invariant Square(Grid(m))
      invariant Mutate(g0, mutantPairCount, 0, draws) == Mutate(Grid(m), mutantPairCount, pairs, draws[i..])
      decreases |draws| - i
    {
      MutateNext(Grid(m), mutantPairCount, pairs, draws[i..]);
      assert draws[i..][1..] == draws[i + 1..];
      var (randx, randy) := draws[i];
      if m[randx, randy] != 0 && randx != randy {
        ClearPair(m, randx, randy);
        pairs := pairs + 1;
      }
      i := i + 1;
    }
    reached := pairs as real >= mutantPairCount;
  }
}
