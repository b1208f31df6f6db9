/** The read-only Board methods, which behave the same in both variants:
    they only look at the occupancy map, so they are modelled on its value
    and each Board and strategy passes `board.occupied`. */
module Queries {
  import opened Hex
  import opened Connect

  /** One diamond test of valid_capture: add both flank cells when the
      diamond fires. */
  method AddFlanks(n: int, occ: Occupancy, p: Colour, d: Diamond, caps: set<Coord>)
    returns (caps': set<Coord>)
    ensures caps' == caps + Flanks(n, occ, p, d)
  {
    caps' := caps;
    if ValidCaptureDiamond(n, occ, p, d.diag, d.left, d.right) {
      caps' := caps' + {d.left};
      caps' := caps' + {d.right};
    }
  }

  /** valid_capture(p, r, q): the twelve diamond tests made one after the
      other, in the order Diamonds lists them, each adding both flank cells
      of a diamond that fires. */
  method ValidCapture(n: int, occ: Occupancy, p: Colour, r: int, q: int) returns (caps: set<Coord>)
    ensures caps == CaptureSet(n, occ, p, (r, q))
  {
    var ds := Diamonds((r, q));
    caps := {};
    caps := AddFlanks(n, occ, p, ds[0], caps);
    assert caps == FlanksUpTo(n, occ, p, ds, 1);
    caps := AddFlanks(n, occ, p, ds[1], caps);
    assert caps == FlanksUpTo(n, occ, p, ds, 2);
    caps := AddFlanks(n, occ, p, ds[2], caps);
    assert caps == FlanksUpTo(n, occ, p, ds, 3);
    caps := AddFlanks(n, occ, p, ds[3], caps);
    assert caps == FlanksUpTo(n, occ, p, ds, 4);
    caps := AddFlanks(n, occ, p, ds[4], caps);
    assert caps == FlanksUpTo(n, occ, p, ds, 5);
    caps := AddFlanks(n, occ, p, ds[5], caps);
    assert caps == FlanksUpTo(n, occ, p, ds, 6);
    caps := AddFlanks(n, occ, p, ds[6], caps);
    assert caps == FlanksUpTo(n, occ, p, ds, 7);
    caps := AddFlanks(n, occ, p, ds[7], caps);
    assert caps == FlanksUpTo(n, occ, p, ds, 8);
    caps := AddFlanks(n, occ, p, ds[8], caps);
    assert caps == FlanksUpTo(n, occ, p, ds, 9);
    caps := AddFlanks(n, occ, p, ds[9], caps);
    assert caps == FlanksUpTo(n, occ, p, ds, 10);
    caps := AddFlanks(n, occ, p, ds[10], caps);
    assert caps == FlanksUpTo(n, occ, p, ds, 11);
    caps := AddFlanks(n, occ, p, ds[11], caps);
    assert caps == FlanksUpTo(n, occ, p, ds, 12);
  }

  /** Every cell of E is still in E'. */
  ghost predicate Grows(E: seq<Coord>, E': seq<Coord>) {
    forall x :: x in E ==> x in E'
  }

  lemma GrowsTrans(a: seq<Coord>, b: seq<Coord>, c: seq<Coord>)
    requires Grows(a, b) && Grows(b, c)
    ensures Grows(a, c)
  {
  }

  /** One more neighbour handled: the prefix of nbs up to and including
      index i is explored. */
  lemma GrowsSnoc(nbs: seq<Coord>, i: int, E: seq<Coord>)
    requires 0 <= i < |nbs| && Grows(nbs[..i], E) && nbs[i] in E
    ensures Grows(nbs[..i + 1], E)
  {
    assert forall x :: x in nbs[..i + 1] ==> x in nbs[..i] || x == nbs[i];
  }

  /** The crawl's measure: p's tokens not yet explored. */
  ghost function Unexplored(occ: Occupancy, p: Colour, E: seq<Coord>): nat {
    |Tokens(occ, p) - Elems(E)|
  }

  lemma UnexploredShrinks(occ: Occupancy, p: Colour, E: seq<Coord>, E': seq<Coord>, v: Coord)
    requires v in occ && occ[v] == p && v !in E && v in E' && Grows(E, E')
    ensures Unexplored(occ, p, E') < Unexplored(occ, p, E)
  {
    var before := Tokens(occ, p) - Elems(E);
    var after := Tokens(occ, p) - Elems(E');
    assert v in before;
    assert after <= before - {v};
    assert |before - {v}| == |before| - 1;
    SubsetCard(after, before - {v});
  }

  lemma {:induction false} SubsetCard<T>(a: set<T>, b: set<T>)
    requires a <= b
    ensures |a| <= |b|
  {
    if a != {} {
      var x :| x in a;
      SubsetCard(a - {x}, b - {x});
    }
  }

  /** The new cells of a finished crawl: off the goal edge and closed. */
  ghost predicate CrawledClean(n: int, occ: Occupancy, p: Colour, g: Goal, E: seq<Coord>, E': seq<Coord>) {
    forall x :: x in E' && x !in E ==> !AtGoal(n, g, x) && ClosedIn(n, occ, p, x, E')
  }

  /** What a loop of the crawl keeps over the cells it explored beyond E,
      apart from the cell v it started from: off the goal edge and closed. */
  ghost predicate CleanBeyond(n: int, occ: Occupancy, p: Colour, g: Goal, E: seq<Coord>, E': seq<Coord>, v: Coord) {
    forall x :: x in E' && x !in E && x != v ==> !AtGoal(n, g, x) && ClosedIn(n, occ, p, x, E')
  }

  /** A finished crawl from `before` to `after` keeps the loop's cells
      clean. */
  lemma CrawlMerge(n: int, occ: Occupancy, p: Colour, g: Goal, E: seq<Coord>, before: seq<Coord>, after: seq<Coord>, v: Coord)
    requires v in before && Grows(E, before) && Grows(before, after)
    requires CleanBeyond(n, occ, p, g, E, before, v)
    requires CrawledClean(n, occ, p, g, before, after)
    ensures Grows(E, after) && CleanBeyond(n, occ, p, g, E, after, v)
  {
    forall x | x in after && x !in E && x != v
      ensures !AtGoal(n, g, x) && ClosedIn(n, occ, p, x, after)
    {
      if x in before {
        ClosedInGrow(n, occ, p, x, before, after);
      }
    }
  }

  /** token_crawler(explored, v, goal, p): v is a p-token not yet explored.
      On success some cell on the goal edge that was unexplored at the call
      is reachable from v; on failure v and every newly explored cell are
      off the goal edge and all their p-neighbours are explored. */
  method TokenCrawler(n: int, occ: Occupancy, explored: seq<Coord>, v: Coord, g: Goal, p: Colour)
    returns (found: bool, explored': seq<Coord>)
    requires v in occ && occ[v] == p && InBounds(n, v) && v !in explored
    ensures Grows(explored, explored')
    ensures found ==> exists t :: t !in explored && AtGoal(n, g, t) && Reaches(n, occ, p, v, t)
    ensures !found ==> v in explored' && CrawledClean(n, occ, p, g, explored, explored')
    decreases Unexplored(occ, p, explored)
  {
    if AtGoal(n, g, v) {
      ReachesRefl(n, occ, p, v);
      return true, explored;
    }
    explored' := explored + [v];
    var nbs := FindNeighbours(n, occ, v, Some(p));
    var i := 0;
    while i < |nbs|
      invariant 0 <= i <= |nbs|
      invariant Grows(explored, explored') && v in explored'
      invariant Grows(nbs[..i], explored')
      invariant CleanBeyond(n, occ, p, g, explored, explored', v)
    {
      var nb := nbs[i];
      if nb !in explored' {
        var before := explored';
        UnexploredShrinks(occ, p, explored, before, v);
        var end;
        end, explored' := TokenCrawler(n, occ, before, nb, g, p);
        if end {
          ghost var t :| t !in before && AtGoal(n, g, t) && Reaches(n, occ, p, nb, t);
          ReachesPrepend(n, occ, p, v, nb, t);
          return true, explored';
        }
        CrawlMerge(n, occ, p, g, explored, before, explored', v);
        GrowsTrans(nbs[..i], before, explored');
      }
      GrowsSnoc(nbs, i, explored');
      i := i + 1;
    }
    assert nbs[..i] == nbs;
    forall y | Step(n, occ, p, v, y) ensures y in explored' {
      StepIsNeighbour(n, occ, p, v, y);
    }
    return false, explored';
  }

  /** dfs_search(start, goal, p): true exactly when some token other than
      start, on the goal edge, is reachable from start over p's tokens. */
  method DfsSearch(n: int, occ: Occupancy, start: Coord, g: Goal, p: Colour) returns (found: bool)
    ensures found <==> CrawlFinds(n, occ, p, g, start)
  {
    var explored: seq<Coord> := [];
    var nbs := FindNeighbours(n, occ, start, Some(p));
    explored := explored + [start];
    var i := 0;
    while i < |nbs|
      invariant 0 <= i <= |nbs|
      invariant start in explored
      invariant Grows(nbs[..i], explored)
      invariant CleanBeyond(n, occ, p, g, [], explored, start)
    {
      var nb := nbs[i];
      if nb !in explored {
        var before := explored;
        var end;
        end, explored := TokenCrawler(n, occ, before, nb, g, p);
        if end {
          ghost var t :| t !in before && AtGoal(n, g, t) && Reaches(n, occ, p, nb, t);
          ReachesPrepend(n, occ, p, start, nb, t);
          return true;
        }
        CrawlMerge(n, occ, p, g, [], before, explored, start);
        GrowsTrans(nbs[..i], before, explored);
      }
      GrowsSnoc(nbs, i, explored);
      i := i + 1;
    }
    assert nbs[..i] == nbs;
    SearchExhausted(n, occ, p, g, start, explored);
    return false;
  }

  /** Once start and every neighbour of it are explored, with the explored
      tokens closed and off the goal, no goal token is reachable from start. */
  lemma SearchExhausted(n: int, occ: Occupancy, p: Colour, g: Goal, start: Coord, explored: seq<Coord>)
    requires start in explored && Grows(FindNeighbours(n, occ, start, Some(p)), explored)
    requires CleanBeyond(n, occ, p, g, [], explored, start)
    ensures !CrawlFinds(n, occ, p, g, start)
  {
    forall y | Step(n, occ, p, start, y) ensures y in explored {
      StepIsNeighbour(n, occ, p, start, y);
    }
    forall t | t != start && AtGoal(n, g, t) ensures !Reaches(n, occ, p, start, t) {
      if Reaches(n, occ, p, start, t) {
        ClosedHoldsReach(n, occ, p, explored, start, t);
      }
    }
  }

  /** end_game: Red's row-0 tokens are searched first, then Blue's
      column-0 tokens; the order the keys are visited in does not matter. */
  method EndGame(n: int, occ: Occupancy) returns (w: Option<Colour>)
    ensures w == Winner(n, occ)
  {
    var remaining := occ.Keys;
    while remaining != {}
      invariant remaining <= occ.Keys
      invariant forall s :: s in occ && s !in remaining && occ[s] == Red && s.0 == 0 ==>
        !CrawlFinds(n, occ, Red, LastRow, s)
      decreases remaining
    {
      var c :| c in remaining;
      if c.0 == 0 && occ[c] == Red {
        var found := DfsSearch(n, occ, c, LastRow, Red);
        if found {
          return Some(Red);
        }
      }
      remaining := remaining - {c};
    }
    remaining := occ.Keys;
    while remaining != {}
      invariant remaining <= occ.Keys
      invariant forall s :: s in occ && s !in remaining && occ[s] == Blue && s.1 == 0 ==>
        !CrawlFinds(n, occ, Blue, LastColumn, s)
      decreases remaining
    {
      var c :| c in remaining;
      if c.1 == 0 && occ[c] == Blue {
        var found := DfsSearch(n, occ, c, LastColumn, Blue);
        if found {
          return Some(Blue);
        }
      }
      remaining := remaining - {c};
    }
    return None;
  }

  /** Placing opp at e would capture something. */
  ghost predicate Capturable(n: int, occ: Occupancy, opp: Colour, e: Coord) {
    CaptureSet(n, occ, opp, e) != {}
  }

  /** One empty neighbour tried: does opp capture by playing there? */
  method Probe(n: int, occ: Occupancy, opp: Colour, e: Coord) returns (threat: bool)
    ensures threat <==> Capturable(n, occ, opp, e)
  {
    var caps := ValidCapture(n, occ, opp, e.0, e.1);
    threat := caps != {};
  }

  /** Placing opp at some empty neighbour of c would capture. */
  ghost predicate InDanger(n: int, occ: Occupancy, opp: Colour, c: Coord) {
    exists e :: e in FindEmptyNeighbours(n, occ, c) && Capturable(n, occ, opp, e)
  }

  /** No empty neighbour of c, taken by index, lets opp capture. */
  lemma NoDanger(n: int, occ: Occupancy, opp: Colour, c: Coord)
    requires forall j :: 0 <= j < |FindEmptyNeighbours(n, occ, c)| ==>
      !Capturable(n, occ, opp, FindEmptyNeighbours(n, occ, c)[j])
    ensures !InDanger(n, occ, opp, c)
  {
    var empty := FindEmptyNeighbours(n, occ, c);
    assert forall e :: e in empty ==> exists j :: 0 <= j < |empty| && empty[j] == e;
  }

  /** capture_danger(opp, r, q): the empty neighbours are tried in order
      until one lets opp capture. */
  method CaptureDanger(n: int, occ: Occupancy, opp: Colour, r: int, q: int) returns (danger: bool)
    ensures danger <==> InDanger(n, occ, opp, (r, q))
  {
    var empty := FindEmptyNeighbours(n, occ, (r, q));
    var i := 0;
    while i < |empty|
      invariant 0 <= i <= |empty|
      invariant forall j :: 0 <= j < i ==> !Capturable(n, occ, opp, empty[j])
    {
      var e := empty[i];
      var threat := Probe(n, occ, opp, e);
      if threat {
        assert e in empty;
        return true;
      }
      i := i + 1;
    }
    NoDanger(n, occ, opp, (r, q));
    return false;
  }

  /** The cells of `keys` that hold a token of p, in the order of `keys`. */
  function Owned(occ: Occupancy, p: Colour, keys: seq<Coord>): (r: seq<Coord>)
    ensures forall x :: x in r <==> x in keys && x in occ && occ[x] == p
    ensures Distinct(keys) ==> Distinct(r)
  {
    if keys == [] then []
    else
      var last := keys[|keys| - 1];
      var front := keys[..|keys| - 1];
      assert forall x :: x in keys <==> x in front || x == last;
      Owned(occ, p, front) + (if last in occ && occ[last] == p then [last] else [])
  }

  /** One more key of the dictionary order. */
  lemma OwnedStep(occ: Occupancy, p: Colour, keys: seq<Coord>, i: int)
    requires 0 <= i < |keys|
    ensures Owned(occ, p, keys[..i + 1]) ==
      Owned(occ, p, keys[..i]) + (if keys[i] in occ && occ[keys[i]] == p then [keys[i]] else [])
  {
    assert keys[..i + 1][..i] == keys[..i];
  }

  /** The dictionary order in which occupied.items() yields its keys. */
  ghost predicate KeyOrder(occ: Occupancy, keys: seq<Coord>) {
    Distinct(keys) && forall c :: c in keys <==> c in occ
  }

  /** find_same_tokens(p): p's tokens, each once, in dictionary order. */
  method FindSameTokens(occ: Occupancy, p: Colour, keys: seq<Coord>) returns (tokens: seq<Coord>)
    requires KeyOrder(occ, keys)
    ensures tokens == Owned(occ, p, keys)
    ensures Distinct(tokens) && forall c :: c in tokens <==> c in occ && occ[c] == p
  {
    tokens := [];
    var i := 0;
    while i < |keys|
      invariant 0 <= i <= |keys|
      invariant tokens == Owned(occ, p, keys[..i])
    {
      assert keys[i] in occ;
      OwnedStep(occ, p, keys, i);
      if occ[keys[i]] == p {
        tokens := tokens + [keys[i]];
      }
      i := i + 1;
    }
    assert keys[..|keys|] == keys;
  }
}
