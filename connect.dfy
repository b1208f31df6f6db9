/** Connectivity on the board: chains of same-colour tokens, the win
    condition that end_game decides, the connected token groups that the
    evaluators score, and the spans the critical counts are built from. */
module Connect {
  import opened Hex

  /** One move of the depth-first crawl: b is an in-bounds neighbour of a
      that holds a token of p (b is in find_neighbours(a, p)). */
  predicate Step(n: int, occ: Occupancy, p: Colour, a: Coord, b: Coord) {
    Adjacent(a, b) && InBounds(n, b) && b in occ && occ[b] == p
  }

  lemma StepIsNeighbour(n: int, occ: Occupancy, p: Colour, a: Coord, b: Coord)
    ensures Step(n, occ, p, a, b) <==> b in FindNeighbours(n, occ, a, Some(p))
  {
  }

  /** A sequence of cells each of which is a p-neighbour of the one before. */
  ghost predicate IsChain(n: int, occ: Occupancy, p: Colour, path: seq<Coord>) {
    |path| > 0 && forall i :: 0 <= i < |path| - 1 ==> Step(n, occ, p, path[i], path[i + 1])
  }

  /** t can be reached from s by crawling over p's tokens. */
  ghost predicate Reaches(n: int, occ: Occupancy, p: Colour, s: Coord, t: Coord) {
    exists path :: IsChain(n, occ, p, path) && path[0] == s && path[|path| - 1] == t
  }

  lemma ReachesRefl(n: int, occ: Occupancy, p: Colour, s: Coord)
    ensures Reaches(n, occ, p, s, s)
  {
    assert IsChain(n, occ, p, [s]);
  }

  lemma ReachesPrepend(n: int, occ: Occupancy, p: Colour, s: Coord, a: Coord, t: Coord)
    requires Step(n, occ, p, s, a) && Reaches(n, occ, p, a, t)
    ensures Reaches(n, occ, p, s, t)
  {
    var path :| IsChain(n, occ, p, path) && path[0] == a && path[|path| - 1] == t;
    var longer := [s] + path;
    assert longer[1] == a;
    forall i | 1 <= i < |longer| - 1 ensures Step(n, occ, p, longer[i], longer[i + 1]) {
      assert longer[i] == path[i - 1] && longer[i + 1] == path[i];
      assert Step(n, occ, p, path[i - 1], path[i]);
    }
    assert IsChain(n, occ, p, longer);
    assert longer[|longer| - 1] == t;
  }

  lemma ReachesAppend(n: int, occ: Occupancy, p: Colour, s: Coord, t: Coord, u: Coord)
    requires Reaches(n, occ, p, s, t) && Step(n, occ, p, t, u)
    ensures Reaches(n, occ, p, s, u)
  {
    var path :| IsChain(n, occ, p, path) && path[0] == s && path[|path| - 1] == t;
    var longer := path + [u];
    assert IsChain(n, occ, p, longer);
  }

  /** Reachability between p's tokens is symmetric: a chain read backwards
      is a chain, because hex adjacency is symmetric. */
  lemma {:induction false} ReachesSymmetric(n: int, occ: Occupancy, p: Colour, s: Coord, t: Coord)
    requires s in occ && occ[s] == p && InBounds(n, s)
    requires Reaches(n, occ, p, s, t)
    ensures Reaches(n, occ, p, t, s)
  {
    var path :| IsChain(n, occ, p, path) && path[0] == s && path[|path| - 1] == t;
    ChainReversed(n, occ, p, path);
  }

  lemma {:induction false} ChainReversed(n: int, occ: Occupancy, p: Colour, path: seq<Coord>)
    requires IsChain(n, occ, p, path)
    requires path[0] in occ && occ[path[0]] == p && InBounds(n, path[0])
    ensures Reaches(n, occ, p, path[|path| - 1], path[0])
  {
    if |path| == 1 {
      ReachesRefl(n, occ, p, path[0]);
    } else {
      var tail := path[1..];
      assert IsChain(n, occ, p, tail) by {
        forall i | 0 <= i < |tail| - 1 ensures Step(n, occ, p, tail[i], tail[i + 1]) {
          assert Step(n, occ, p, path[i + 1], path[i + 2]);
        }
      }
      assert Step(n, occ, p, path[0], path[1]);
      ChainReversed(n, occ, p, tail);
      AdjacentSymmetric(path[0], path[1]);
      assert Step(n, occ, p, path[1], path[0]);
      ReachesAppend(n, occ, p, path[|path| - 1], path[1], path[0]);
    }
  }

  lemma ReachesTrans(n: int, occ: Occupancy, p: Colour, s: Coord, t: Coord, u: Coord)
    requires Reaches(n, occ, p, s, t) && Reaches(n, occ, p, t, u)
    ensures Reaches(n, occ, p, s, u)
  {
    var path :| IsChain(n, occ, p, path) && path[0] == t && path[|path| - 1] == u;
    ChainFrom(n, occ, p, s, path);
  }

  lemma {:induction false} ChainFrom(n: int, occ: Occupancy, p: Colour, s: Coord, path: seq<Coord>)
    requires IsChain(n, occ, p, path) && Reaches(n, occ, p, s, path[0])
    ensures Reaches(n, occ, p, s, path[|path| - 1])
  {
    if |path| > 1 {
      assert Step(n, occ, p, path[0], path[1]);
      ReachesAppend(n, occ, p, s, path[0], path[1]);
      var tail := path[1..];
      assert IsChain(n, occ, p, tail) by {
        forall i | 0 <= i < |tail| - 1 ensures Step(n, occ, p, tail[i], tail[i + 1]) {
          assert Step(n, occ, p, path[i + 1], path[i + 2]);
        }
      }
      ChainFrom(n, occ, p, s, tail);
    }
  }

  /** Every p-neighbour of x is in E. */
  ghost predicate ClosedIn(n: int, occ: Occupancy, p: Colour, x: Coord, E: seq<Coord>) {
    forall y :: Step(n, occ, p, x, y) ==> y in E
  }

  lemma ClosedInGrow(n: int, occ: Occupancy, p: Colour, x: Coord, E: seq<Coord>, E': seq<Coord>)
    requires ClosedIn(n, occ, p, x, E)
    requires forall y :: y in E ==> y in E'
    ensures ClosedIn(n, occ, p, x, E')
  {
  }

  /** A set of cells closed under p-neighbours holds everything its members
      reach: the fact that makes a finished depth-first search complete. */
  lemma ClosedHoldsReach(n: int, occ: Occupancy, p: Colour, E: seq<Coord>, s: Coord, t: Coord)
    requires s in E
    requires forall x :: x in E ==> ClosedIn(n, occ, p, x, E)
    requires Reaches(n, occ, p, s, t)
    ensures t in E
  {
    var path :| IsChain(n, occ, p, path) && path[0] == s && path[|path| - 1] == t;
    ClosedHoldsChain(n, occ, p, E, path);
  }

  lemma {:induction false} ClosedHoldsChain(n: int, occ: Occupancy, p: Colour, E: seq<Coord>, path: seq<Coord>)
    requires IsChain(n, occ, p, path) && path[0] in E
    requires forall x :: x in E ==> ClosedIn(n, occ, p, x, E)
    ensures forall i :: 0 <= i < |path| ==> path[i] in E
  {
    if |path| > 1 {
      var front := path[..|path| - 1];
      assert IsChain(n, occ, p, front) by {
        forall i | 0 <= i < |front| - 1 ensures Step(n, occ, p, front[i], front[i + 1]) {
          assert Step(n, occ, p, path[i], path[i + 1]);
        }
      }
      ClosedHoldsChain(n, occ, p, E, front);
      assert path[|path| - 2] == front[|front| - 1];
      assert Step(n, occ, p, path[|path| - 2], path[|path| - 1]);
      assert forall i :: 0 <= i < |path| - 1 ==> path[i] == front[i];
    }
  }

  /** The edge a dfs_search must reach: the last row (Red) or the last
      column (Blue). */
  datatype Goal = LastRow | LastColumn

  predicate AtGoal(n: int, g: Goal, t: Coord) {
    if g == LastRow then t.0 == n - 1 else t.1 == n - 1
  }

  /** What dfs_search(s, goal, p) looks for: a token other than s, on the
      goal edge, reachable from s.  The start cell itself is never tested. */
  ghost predicate CrawlFinds(n: int, occ: Occupancy, p: Colour, g: Goal, s: Coord) {
    exists t :: t != s && AtGoal(n, g, t) && Reaches(n, occ, p, s, t)
  }

  /** Red has a chain from a row-0 token to another token in row n-1. */
  ghost predicate RedWins(n: int, occ: Occupancy) {
    exists s :: s in occ && occ[s] == Red && s.0 == 0 && CrawlFinds(n, occ, Red, LastRow, s)
  }

  /** Blue has a chain from a column-0 token to another token in column n-1. */
  ghost predicate BlueWins(n: int, occ: Occupancy) {
    exists s :: s in occ && occ[s] == Blue && s.1 == 0 && CrawlFinds(n, occ, Blue, LastColumn, s)
  }

  /** The result of end_game: Red is tested first. */
  ghost function Winner(n: int, occ: Occupancy): Option<Colour> {
    if RedWins(n, occ) then Some(Red)
    else if BlueWins(n, occ) then Some(Blue)
    else None
  }

  /** A chain's tokens never leave their colour, so every cell a chain
      reaches from an in-bounds start is in bounds. */
  lemma ReachedInBounds(n: int, occ: Occupancy, p: Colour, s: Coord, t: Coord)
    requires InBounds(n, s) && Reaches(n, occ, p, s, t)
    ensures InBounds(n, t)
  {
    var path :| IsChain(n, occ, p, path) && path[0] == s && path[|path| - 1] == t;
    if |path| > 1 {
      assert Step(n, occ, p, path[|path| - 2], path[|path| - 1]);
    }
  }

  /** On a 1 x 1 board nobody ever wins: the only cell is the start of
      every search and is never tested against the goal. */
  lemma NoWinnerOnOneCell(occ: Occupancy)
    requires WellFormed(1, occ)
    ensures Winner(1, occ) == None
  {
    forall p, g, s | s in occ ensures !CrawlFinds(1, occ, p, g, s) {
      forall t | Reaches(1, occ, p, s, t) ensures t == s {
        ReachedInBounds(1, occ, p, s, t);
      }
    }
  }

  /** A chain survives any change that keeps all its tokens. */
  lemma {:induction false} ChainKept(n: int, occ: Occupancy, occ': Occupancy, p: Colour, path: seq<Coord>)
    requires IsChain(n, occ, p, path)
    requires forall c :: c in occ && occ[c] == p ==> c in occ' && occ'[c] == p
    ensures IsChain(n, occ', p, path)
  {
    forall i | 0 <= i < |path| - 1 ensures Step(n, occ', p, path[i], path[i + 1]) {
      assert Step(n, occ, p, path[i], path[i + 1]);
    }
  }

  /** Win monotonicity: removing opponent tokens or adding own tokens
      never undoes a win, and since Red is tested first a Red win stays the
      reported result. */
  lemma RedWinMonotone(n: int, occ: Occupancy, occ': Occupancy)
    requires RedWins(n, occ)
    requires forall c :: c in occ && occ[c] == Red ==> c in occ' && occ'[c] == Red
    ensures RedWins(n, occ') && Winner(n, occ') == Some(Red)
  {
    var s :| s in occ && occ[s] == Red && s.0 == 0 && CrawlFinds(n, occ, Red, LastRow, s);
    var t :| t != s && AtGoal(n, LastRow, t) && Reaches(n, occ, Red, s, t);
    var path :| IsChain(n, occ, Red, path) && path[0] == s && path[|path| - 1] == t;
    ChainKept(n, occ, occ', Red, path);
    assert Reaches(n, occ', Red, s, t);
  }

  lemma BlueWinMonotone(n: int, occ: Occupancy, occ': Occupancy)
    requires BlueWins(n, occ)
    requires forall c :: c in occ && occ[c] == Blue ==> c in occ' && occ'[c] == Blue
    ensures BlueWins(n, occ')
  {
    var s :| s in occ && occ[s] == Blue && s.1 == 0 && CrawlFinds(n, occ, Blue, LastColumn, s);
    var t :| t != s && AtGoal(n, LastColumn, t) && Reaches(n, occ, Blue, s, t);
    var path :| IsChain(n, occ, Blue, path) && path[0] == s && path[|path| - 1] == t;
    ChainKept(n, occ, occ', Blue, path);
    assert Reaches(n, occ', Blue, s, t);
  }

  /** The cells of a sequence, as a set. */
  ghost function Elems(s: seq<Coord>): set<Coord> {
    set x | x in s
  }

  /** p's tokens. */
  ghost function Tokens(occ: Occupancy, p: Colour): set<Coord> {
    set c | c in occ && occ[c] == p
  }

  /** The connected group of p's tokens that contains s. */
  ghost function Component(n: int, occ: Occupancy, p: Colour, s: Coord): set<Coord> {
    set t | t in occ && occ[t] == p && Reaches(n, occ, p, s, t)
  }

  /** All connected groups of p's tokens. */
  ghost function Components(n: int, occ: Occupancy, p: Colour): set<set<Coord>> {
    set s | s in Tokens(occ, p) :: Component(n, occ, p, s)
  }

  /** The progress axis of a player: rows for Red, columns for Blue. */
  function Axis(p: Colour, c: Coord): int {
    if p == Red then c.0 else c.1
  }

  /** How many distinct rows (Red) or columns (Blue) a group covers. */
  ghost function Span(g: set<Coord>, p: Colour): nat {
    |set c | c in g :: Axis(p, c)|
  }

  /** The largest element of a non-empty finite set of integers. */
  ghost function SetMax(s: set<nat>): (m: nat)
    requires s != {}
    ensures m in s && forall y :: y in s ==> y <= m
  {
    var x :| x in s;
    if s == {x} then x
    else
      var rest := SetMax(s - {x});
      assert forall y :: y in s ==> y == x || y in s - {x};
      if x > rest then x else rest
  }

  /** The critical length: the largest span of any group, 0 without groups. */
  ghost function MaxSpan(C: set<set<Coord>>, p: Colour): nat {
    SetMax({0} + set g | g in C :: Span(g, p))
  }

  /** A set of integers inside [0, n) has at most n elements. */
  lemma {:induction false} BoundedSetCard(s: set<int>, n: nat)
    requires forall x :: x in s ==> 0 <= x < n
    ensures |s| <= n
  {
    if n > 0 {
      BoundedSetCard(s - {n - 1}, n - 1);
      assert |s| <= |s - {n - 1}| + 1;
    } else {
      assert s == {} by {
        forall x | x in s ensures false {
        }
      }
    }
  }

  /** Spans are bounded by the board: 0 <= Span <= n. */
  lemma SpanBounded(n: int, g: set<Coord>, p: Colour)
    requires n >= 0 && forall c :: c in g ==> InBounds(n, c)
    ensures Span(g, p) <= n
    ensures g != {} ==> Span(g, p) >= 1
  {
    var axes := set c | c in g :: Axis(p, c);
    BoundedSetCard(axes, n);
    if g != {} {
      var c :| c in g;
      assert Axis(p, c) in axes;
    }
  }
}
