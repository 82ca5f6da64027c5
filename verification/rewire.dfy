/**
  The Watts-Strogatz style rewiring of `createSmallWorldMatrix`: every
  off-diagonal cell (x,y), visited row y by row y and x ascending, is
  rewired when its random draw is at most prob and the cell is set. The
  edge {x,y} is removed in both directions and a new endpoint newY is drawn
  until one is found that is neither x nor y and not yet adjacent to x; the
  edge {x,newY} is then added in both directions.

  The random numbers are parameters: `coin(x, y)` is the draw compared
  with prob at cell (x,y) and `picks(x, y)` the endpoints drawn there, in
  order. When none of them is accepted the source keeps drawing forever;
  the model stops there with the outcome `OutOfDraws(x, y)`.
*/
module Rewire {
  import opened MatrixModel
  import opened Options

  /** prob clamped into [0, 1]. */
  function ClampProb(prob: real): (p: real)
    ensures 0.0 <= p <= 1.0
    ensures 0.0 <= prob <= 1.0 ==> p == prob
    ensures prob < 0.0 ==> p == 0.0
    ensures prob > 1.0 ==> p == 1.0
  {
    if prob < 0.0 then 0.0 else if prob > 1.0 then 1.0 else prob
  }

  /** The acceptance test of the rejection loop for a drawn endpoint c. */
  predicate Accepts(g: Matrix, x: int, y: int, c: int)
    requires Square(g) && 0 <= x < |g| && 0 <= c < |g|
  {
    y != c && x != c && g[x][c] != 1 && g[c][x] != 1
  }

  predicate InRange(draws: seq<int>, n: int)
  {
    forall i | 0 <= i < |draws| :: 0 <= draws[i] < n
  }

  /** The first accepted endpoint among the draws, if any. */
  function FirstAccepted(g: Matrix, x: int, y: int, draws: seq<int>): (r: Option<int>)
    requires Square(g) && 0 <= x < |g| && InRange(draws, |g|)
    ensures r.Some? ==> 0 <= r.value < |g| && Accepts(g, x, y, r.value)
  {
    if |draws| == 0 then None
    else if Accepts(g, x, y, draws[0]) then Some(draws[0])
    else FirstAccepted(g, x, y, draws[1..])
  }

  /**
    The rejection loop exits only with an accepted endpoint, the first one
    drawn; it fails to exit exactly when no draw is accepted.
  */
  lemma {:induction false} FirstAcceptedSpec(g: Matrix, x: int, y: int, draws: seq<int>)
    requires Square(g) && 0 <= x < |g| && InRange(draws, |g|)
    ensures FirstAccepted(g, x, y, draws).Some? ==>
      exists i | 0 <= i < |draws| :: draws[i] == FirstAccepted(g, x, y, draws).value &&
        Accepts(g, x, y, draws[i]) && forall j | 0 <= j < i :: !Accepts(g, x, y, draws[j])
    ensures FirstAccepted(g, x, y, draws).None? <==>
      forall i | 0 <= i < |draws| :: !Accepts(g, x, y, draws[i])
  {
    if |draws| > 0 && !Accepts(g, x, y, draws[0]) {
      var rest := draws[1..];
      FirstAcceptedSpec(g, x, y, rest);
      if FirstAccepted(g, x, y, rest).Some? {
        var i :| 0 <= i < |rest| && rest[i] == FirstAccepted(g, x, y, rest).value &&
          Accepts(g, x, y, rest[i]) && forall j | 0 <= j < i :: !Accepts(g, x, y, rest[j]);
        assert draws[i + 1] == rest[i];
        forall j | 0 <= j < i + 1
          ensures !Accepts(g, x, y, draws[j])
        {
          if j > 0 {
            assert draws[j] == rest[j - 1];
          }
        }
      } else {
        forall i | 0 <= i < |draws|
          ensures !Accepts(g, x, y, draws[i])
        {
          if i > 0 {
            assert draws[i] == rest[i - 1];
          }
        }
      }
    }
  }

  /**
    If every column other than x and y is already adjacent to x, no draw is
    ever accepted: the source's rejection loop cannot terminate.
  */
  lemma NoCandidateNeverExits(g: Matrix, x: int, y: int, draws: seq<int>)
    requires Square(g) && 0 <= x < |g| && InRange(draws, |g|)
    requires forall c | 0 <= c < |g| && c != x && c != y :: g[x][c] == 1
    ensures FirstAccepted(g, x, y, draws) == None
  {
    FirstAcceptedSpec(g, x, y, draws);
  }

  /** The rejection loop, reading the matrix without changing it. */
  method FindNewEndpoint(m: array2<int>, x: int, y: int, draws: seq<int>) returns (newY: Option<int>)
    requires m.Length0 == m.Length1 && 0 <= x < m.Length0 && InRange(draws, m.Length0)
    ensures Square(Grid(m))
    ensures newY == FirstAccepted(Grid(m), x, y, draws)
  {
    ghost var g := Grid(m);
    var done := false;
    var i := 0;
    newY := None;
    while !done && i < |draws|
      invariant 0 <= i <= |draws|
      invariant !done ==> newY == None && FirstAccepted(g, x, y, draws) == FirstAccepted(g, x, y, draws[i..])
      invariant done ==> newY == FirstAccepted(g, x, y, draws)
      decreases |draws| - i, !done
    {
      assert draws[i..][1..] == draws[i + 1..];
      var c := draws[i];
      if y != c && x != c && m[x, c] != 1 && m[c, x] != 1 {
        newY := Some(c);
        done := true;
      } else {
        i := i + 1;
      }
    }
  }

  /**
    One rewire step on a simple graph with edge {x,y}: after removing it and
    adding {x,c} for an accepted c, the graph is still simple, keeps its
    number of 1-cells and the degree of x, and only the four cells
    (x,y), (y,x), (x,c), (c,x) differ.
  */
  lemma RewireStep(g: Matrix, x: int, y: int, c: int)
    requires SimpleGraph(g) && 0 <= x < |g| && 0 <= y < |g| && 0 <= c < |g| && x != y && g[x][y] == 1
    requires Accepts(ZeroPair(g, x, y), x, y, c)
    ensures SimpleGraph(LinkPair(ZeroPair(g, x, y), x, c))
    ensures Ones(LinkPair(ZeroPair(g, x, y), x, c)) == Ones(g)
    ensures RowOnes(LinkPair(ZeroPair(g, x, y), x, c)[x]) == RowOnes(g[x])
    ensures forall a, b | 0 <= a < |g| && 0 <= b < |g| ::
      LinkPair(ZeroPair(g, x, y), x, c)[a][b] ==
        if (a == x && b == y) || (a == y && b == x) then 0
        else if (a == x && b == c) || (a == c && b == x) then 1
        else g[a][b]
  {
    var g1 := ZeroPair(g, x, y);
    ZeroPairRemovesEdge(g, x, y);
    ZeroPairAt(g, x, y);
    LinkPairAddsEdge(g1, x, c);
    LinkPairAt(g1, x, c);
  }

  /**
    How a scan ended: it finished, or the finite list of endpoint draws for
    cell (x,y) ran out before one was accepted, where the source would go on
    drawing.
  */
  datatype Outcome = Done | OutOfDraws(x: int, y: int)

  /** A matrix and how the scan that produced it ended. */
  datatype Pass = Pass(g: Matrix, outcome: Outcome)

  /** Endpoint draws for every cell lie in [0, height), as randint(0, maxHeight - 1) promises. */
  ghost predicate PicksInRange(picks: (int, int) -> seq<int>, height: int)
  {
    forall x, y :: InRange(picks(x, y), height)
  }

  /** The visit of one cell (x,y) with threshold p. */
  function VisitCell(g: Matrix, p: real, x: int, y: int, coin: (int, int) -> real, picks: (int, int) -> seq<int>): (r: Pass)
    requires Square(g) && 0 <= x < |g| && 0 <= y < |g| && PicksInRange(picks, |g|)
    ensures Square(r.g) && |r.g| == |g|
  {
    if x != y && coin(x, y) <= p && g[x][y] != 0 then
      var g1 := ZeroPair(g, x, y);
      ZeroPairAt(g, x, y);
      match FirstAccepted(g1, x, y, picks(x, y))
      case None => Pass(g1, OutOfDraws(x, y))
      case Some(c) => LinkPairAt(g1, x, c); Pass(LinkPair(g1, x, c), Done)
    else
      Pass(g, Done)
  }

  /** The visits of cells (0,y) .. (n-1,y), stopping once the draws run out. */
  function ScanRow(g: Matrix, p: real, y: int, n: nat, coin: (int, int) -> real, picks: (int, int) -> seq<int>): (r: Pass)
    requires Square(g) && n <= |g| && 0 <= y < |g| && PicksInRange(picks, |g|)
    ensures Square(r.g) && |r.g| == |g|
  {
    if n == 0 then Pass(g, Done)
    else
      var r := ScanRow(g, p, y, n - 1, coin, picks);
      if r.outcome.OutOfDraws? then r else VisitCell(r.g, p, n - 1, y, coin, picks)
  }

  /** The visits of rows 0 .. h-1, each over the first `width` columns, stopping once the draws run out. */
  function Scan(g: Matrix, p: real, width: nat, h: nat, coin: (int, int) -> real, picks: (int, int) -> seq<int>): (r: Pass)
    requires Square(g) && width <= |g| && h <= |g| && PicksInRange(picks, |g|)
    ensures Square(r.g) && |r.g| == |g|
  {
    if h == 0 then Pass(g, Done)
    else
      var r := Scan(g, p, width, h - 1, coin, picks);
      if r.outcome.OutOfDraws? then r else ScanRow(r.g, p, h - 1, width, coin, picks)
  }

  /** What one pass keeps: the diagonal, symmetry, and for a simple graph its simplicity and 1-cell count. */
  predicate Keeps(g: Matrix, r: Pass)
  {
    Square(g) && Square(r.g) && |r.g| == |g| &&
    (forall i | 0 <= i < |g| :: r.g[i][i] == g[i][i]) &&
    (Symmetric(g) ==> Symmetric(r.g)) &&
    (SimpleGraph(g) ==> SimpleGraph(r.g) && Ones(r.g) == Ones(g) - (if r.outcome.OutOfDraws? then 2 else 0))
  }

  /**
    A visited cell keeps the diagonal and symmetry; on a simple graph it
    keeps the graph simple, keeps the degree of x when it completes, and
    keeps the number of 1-cells except for the two of the edge left removed
    when the draws run out.
  */
  lemma VisitCellKeeps(g: Matrix, p: real, x: int, y: int, coin: (int, int) -> real, picks: (int, int) -> seq<int>)
    requires Square(g) && 0 <= x < |g| && 0 <= y < |g| && PicksInRange(picks, |g|)
    ensures Keeps(g, VisitCell(g, p, x, y, coin, picks))
    ensures SimpleGraph(g) && VisitCell(g, p, x, y, coin, picks).outcome.Done? ==>
      RowOnes(VisitCell(g, p, x, y, coin, picks).g[x]) == RowOnes(g[x])
  {
    if x != y && coin(x, y) <= p && g[x][y] != 0 {
      var g1 := ZeroPair(g, x, y);
      ZeroPairKeepsSymmetry(g, x, y);
      ZeroPairAt(g, x, y);
      if SimpleGraph(g) {
        ZeroPairRemovesEdge(g, x, y);
      }
      match FirstAccepted(g1, x, y, picks(x, y))
      case None =>
      case Some(c) =>
        FirstAcceptedSpec(g1, x, y, picks(x, y));
        LinkPairKeepsSymmetry(g1, x, c);
        if SimpleGraph(g) {
          RewireStep(g, x, y, c);
        }
    }
  }

  lemma KeepsTrans(g: Matrix, r1: Pass, r2: Pass)
    requires Keeps(g, r1) && Keeps(r1.g, r2) && (r1.outcome.Done? || r2 == r1)
    ensures Keeps(g, r2)
  {
  }

  lemma {:induction false} ScanRowKeeps(g: Matrix, p: real, y: int, n: nat, coin: (int, int) -> real, picks: (int, int) -> seq<int>)
    requires Square(g) && n <= |g| && 0 <= y < |g| && PicksInRange(picks, |g|)
    ensures Keeps(g, ScanRow(g, p, y, n, coin, picks))
  {
    if n > 0 {
      var r := ScanRow(g, p, y, n - 1, coin, picks);
      ScanRowKeeps(g, p, y, n - 1, coin, picks);
      if r.outcome.Done? {
        VisitCellKeeps(r.g, p, n - 1, y, coin, picks);
        KeepsTrans(g, r, VisitCell(r.g, p, n - 1, y, coin, picks));
      }
    }
  }

  /**
    The whole rewiring pass never changes the diagonal and keeps a
    symmetric matrix symmetric; on a simple graph it keeps the graph simple
    and the number of 1-cells (the edge count), except for the one edge left
    removed when the draws run out.
  */
  lemma {:induction false} ScanKeeps(g: Matrix, p: real, width: nat, h: nat, coin: (int, int) -> real, picks: (int, int) -> seq<int>)
    requires Square(g) && width <= |g| && h <= |g| && PicksInRange(picks, |g|)
    ensures Keeps(g, Scan(g, p, width, h, coin, picks))
  {
    if h > 0 {
      var r := Scan(g, p, width, h - 1, coin, picks);
      ScanKeeps(g, p, width, h - 1, coin, picks);
      if r.outcome.Done? {
        ScanRowKeeps(r.g, p, h - 1, width, coin, picks);
        KeepsTrans(g, r, ScanRow(r.g, p, h - 1, width, coin, picks));
      }
    }
  }

  /** When every draw is above the threshold, nothing is rewired. */
  lemma {:induction false} ScanAboveThreshold(g: Matrix, p: real, width: nat, h: nat, coin: (int, int) -> real, picks: (int, int) -> seq<int>)
    requires Square(g) && width <= |g| && h <= |g| && PicksInRange(picks, |g|)
    requires forall x, y :: coin(x, y) > p
    ensures Scan(g, p, width, h, coin, picks) == Pass(g, Done)
  {
    if h > 0 {
      ScanAboveThreshold(g, p, width, h - 1, coin, picks);
      ScanRowAboveThreshold(g, p, h - 1, width, coin, picks);
    }
  }

  lemma {:induction false} ScanRowAboveThreshold(g: Matrix, p: real, y: int, n: nat, coin: (int, int) -> real, picks: (int, int) -> seq<int>)
    requires Square(g) && n <= |g| && 0 <= y < |g| && PicksInRange(picks, |g|)
    requires forall x, y :: coin(x, y) > p
    ensures ScanRow(g, p, y, n, coin, picks) == Pass(g, Done)
  {
    if n > 0 {
      ScanRowAboveThreshold(g, p, y, n - 1, coin, picks);
    }
  }

  /** Zero-set cells are never rewired: a cell of value 0 is left as it is. */
  lemma VisitZeroCell(g: Matrix, p: real, x: int, y: int, coin: (int, int) -> real, picks: (int, int) -> seq<int>)
    requires Square(g) && 0 <= x < |g| && 0 <= y < |g| && PicksInRange(picks, |g|)
    requires g[x][y] == 0 || x == y
    ensures VisitCell(g, p, x, y, coin, picks) == Pass(g, Done)
  {
  }

  /**
    One rewire in place: remove {x,y} in both directions, draw the new
    endpoint and, if one is accepted, add {x,newY} in both directions.
  */
  method RewireCell(m: array2<int>, x: int, y: int, draws: seq<int>) returns (newY: Option<int>)
    requires m.Length0 == m.Length1 && 0 <= x < m.Length0 && 0 <= y < m.Length0
    requires InRange(draws, m.Length0)
    modifies m
    ensures Square(old(Grid(m)))
    ensures newY == FirstAccepted(ZeroPair(old(Grid(m)), x, y), x, y, draws)
    ensures newY.None? ==> Grid(m) == ZeroPair(old(Grid(m)), x, y)
    ensures newY.Some? ==> Grid(m) == LinkPair(ZeroPair(old(Grid(m)), x, y), x, newY.value)
  {
    ClearPair(m, x, y);
    newY := FindNewEndpoint(m, x, y, draws);
    if newY.Some? {
      SetPair(m, x, newY.value);
    }
  }

  /** The body of the scan for one cell (x,y), proved against VisitCell. */
  method VisitCellInPlace(m: array2<int>, p: real, x: int, y: int,
                          coin: (int, int) -> real, picks: (int, int) -> seq<int>)
    returns (outcome: Outcome)
    requires m.Length0 == m.Length1 && 0 <= x < m.Length0 && 0 <= y < m.Length0
    requires PicksInRange(picks, m.Length0)
    modifies m
    ensures Square(old(Grid(m)))
    ensures Pass(Grid(m), outcome) == VisitCell(old(Grid(m)), p, x, y, coin, picks)
  {
    outcome := Done;
    if x != y {
      var rand := coin(x, y);
      if rand <= p && m[x, y] != 0 {
        assert InRange(picks(x, y), m.Length0);
        var newY := RewireCell(m, x, y, picks(x, y));
        if newY.None? {
          outcome := OutOfDraws(x, y);
        }
      }
    }
  }

  /** One iteration of the inner loop: the visit of cell (x, y) continues the row scan. */
  method ScanRowStep(m: array2<int>, p: real, x: int, y: int,
                     coin: (int, int) -> real, picks: (int, int) -> seq<int>, ghost g0: Matrix)
    returns (outcome: Outcome)
    requires m.Length0 == m.Length1 && |g0| == m.Length0 && 0 <= x < m.Length0 && 0 <= y < m.Length0
    requires Square(g0) && PicksInRange(picks, m.Length0)
    requires ScanRow(g0, p, y, x, coin, picks) == Pass(Grid(m), Done)
    modifies m
    ensures Pass(Grid(m), outcome) == ScanRow(g0, p, y, x + 1, coin, picks)
  {
    ScanRowNext(g0, p, y, x, coin, picks, Grid(m));
    outcome := VisitCellInPlace(m, p, x, y, coin, picks);
  }

  /** The inner loop of the scan: cells (0,y) .. (width-1,y), proved against ScanRow. */
  method ScanRowInPlace(m: array2<int>, p: real, y: int, width: nat,
                        coin: (int, int) -> real, picks: (int, int) -> seq<int>)
    returns (outcome: Outcome)
    requires m.Length0 == m.Length1 && width <= m.Length0 && 0 <= y < m.Length0
    requires PicksInRange(picks, m.Length0)
    modifies m
    ensures Square(old(Grid(m)))
    ensures Pass(Grid(m), outcome) == ScanRow(old(Grid(m)), p, y, width, coin, picks)
  {
    ghost var g0 := Grid(m);
    outcome := Done;
    var x := 0;
    while x < width && outcome.Done?
      invariant 0 <= x <= width
      invariant Pass(Grid(m), outcome) == ScanRow(g0, p, y, x, coin, picks)
    {
      outcome := ScanRowStep(m, p, x, y, coin, picks, g0);
      x := x + 1;
    }
    if outcome.OutOfDraws? {
      ScanRowStops(g0, p, y, x, width, coin, picks);
    }
  }

  /** createSmallWorldMatrix, proved against Scan. */
  method CreateSmallWorldMatrix(prob: real, width: nat, height: nat, m: array2<int>,
                                coin: (int, int) -> real, picks: (int, int) -> seq<int>)
    returns (outcome: Outcome)
    requires m.Length0 == m.Length1 && width <= m.Length0 && height <= m.Length0
    requires PicksInRange(picks, height)
    modifies m
    ensures Square(old(Grid(m))) && PicksInRange(picks, m.Length0)
    ensures Pass(Grid(m), outcome) == Scan(old(Grid(m)), ClampProb(prob), width, height, coin, picks)
  {
    ghost var g0 := Grid(m);
    var p := prob;
    if p < 0.0 {
      p := 0.0;
    }
    if p > 1.0 {
      p := 1.0;
    }
    assert p == ClampProb(prob);
    PicksWiden(picks, height, m.Length0);
    for y := 0 to height
      invariant Pass(Grid(m), Done) == Scan(g0, p, width, y, coin, picks)
    {
      ScanNext(g0, p, width, y, coin, picks, Grid(m));
      var visited := ScanRowInPlace(m, p, y, width, coin, picks);
      if visited.OutOfDraws? {
        ScanStops(g0, p, width, y + 1, height, coin, picks);
        return visited;
      }
    }
    outcome := Done;
  }

  lemma PicksWiden(picks: (int, int) -> seq<int>, h: int, n: int)
    requires PicksInRange(picks, h) && h <= n
    ensures PicksInRange(picks, n)
  {
    forall x, y
      ensures InRange(picks(x, y), n)
    {
      assert InRange(picks(x, y), h);
    }
  }

  /** A row scan that has completed up to cell n continues with the visit of cell (n, y). */
  lemma ScanRowNext(g: Matrix, p: real, y: int, n: nat, coin: (int, int) -> real, picks: (int, int) -> seq<int>, h: Matrix)
    requires Square(g) && n < |g| && 0 <= y < |g| && PicksInRange(picks, |g|)
    requires ScanRow(g, p, y, n, coin, picks) == Pass(h, Done)
    ensures Square(h) && |h| == |g|
    ensures ScanRow(g, p, y, n + 1, coin, picks) == VisitCell(h, p, n, y, coin, picks)
  {
  }

  /** A scan that has completed up to row h continues with the scan of row h. */
  lemma ScanNext(g: Matrix, p: real, width: nat, h: nat, coin: (int, int) -> real, picks: (int, int) -> seq<int>, r: Matrix)
    requires Square(g) && width <= |g| && h < |g| && PicksInRange(picks, |g|)
    requires Scan(g, p, width, h, coin, picks) == Pass(r, Done)
    ensures Square(r) && |r| == |g|
    ensures Scan(g, p, width, h + 1, coin, picks) == ScanRow(r, p, h, width, coin, picks)
  {
  }

  /** Once a row scan runs out of draws, scanning further cells of the row changes nothing. */
  lemma {:induction false} ScanRowStops(g: Matrix, p: real, y: int, n: nat, n': nat, coin: (int, int) -> real, picks: (int, int) -> seq<int>)
    requires Square(g) && n <= n' <= |g| && 0 <= y < |g| && PicksInRange(picks, |g|)
    requires ScanRow(g, p, y, n, coin, picks).outcome.OutOfDraws?
    ensures ScanRow(g, p, y, n', coin, picks) == ScanRow(g, p, y, n, coin, picks)
    decreases n' - n
  {
    if n' > n {
      ScanRowStops(g, p, y, n, n' - 1, coin, picks);
    }
  }

  /** Once the scan runs out of draws in a row, scanning further rows changes nothing. */
  lemma {:induction false} ScanStops(g: Matrix, p: real, width: nat, h: nat, h': nat, coin: (int, int) -> real, picks: (int, int) -> seq<int>)
    requires Square(g) && width <= |g| && h <= h' <= |g| && PicksInRange(picks, |g|)
    requires Scan(g, p, width, h, coin, picks).outcome.OutOfDraws?
    ensures Scan(g, p, width, h', coin, picks) == Scan(g, p, width, h, coin, picks)
    decreases h' - h
  {
    if h' > h {
      ScanStops(g, p, width, h, h' - 1, coin, picks);
    }
  }
}
