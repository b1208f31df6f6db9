/** The moves the agent picks at the root: greedy_proceed, minimax (the
    root of the search plus the game-point override) and the dispatch of
    make_action in pygame/strategy.py.  Every pick is max(actions,
    key=actions.get) over a dictionary filled in visiting order. */
module Choice {
  import opened Hex
  import opened Extended
  import opened Scores
  import opened Search
  import opened Lookahead
  import opened CaptureScan

  // ---- greedy_proceed, pygame/strategy.py ----------------------------------

  /** The score greedy_proceed gives each empty cell: the critical count
      after placing me there.  greedy_eval compares the Player object with
      RED, which never holds, so the count is always Blue's. */
  ghost function GreedyScores(n: int, occ: Occupancy, me: Colour, cells: seq<Coord>): (m: map<Coord, Ext>)
    ensures forall c :: c in m <==> c in cells && c !in occ
  {
    map c | c in cells && c !in occ :: Fin(Criticals(Pygame, n, occ[c := me], Blue))
  }

  /** The scores of one more cell of the visiting order. */
  lemma GreedyScoresStep(n: int, occ: Occupancy, me: Colour, cells: seq<Coord>, i: int)
    requires 0 <= i < |cells|
    ensures GreedyScores(n, occ, me, cells[..i + 1]) ==
      if cells[i] in occ then GreedyScores(n, occ, me, cells[..i])
      else GreedyScores(n, occ, me, cells[..i])[cells[i] := Fin(Criticals(Pygame, n, occ[cells[i] := me], Blue))]
  {
    assert forall x :: x in cells[..i + 1] <==> x in cells[..i] || x == cells[i];
  }

  /** greedy_proceed(board, player): the first empty cell, in visiting
      order, of largest score. */
  ghost function Greedy(n: int, occ: Occupancy, me: Colour, cells: seq<Coord>): Coord
    requires EmptyOrder(occ, cells) != []
  {
    FirstMax(EmptyOrder(occ, cells), GreedyScores(n, occ, me, cells))
  }

  /** greedy_proceed picks an empty cell of the board whose placement gives
      the largest critical count for Blue. */
  lemma GreedyBest(n: int, occ: Occupancy, me: Colour, cells: seq<Coord>)
    requires Enumerates(n, cells) && EmptyOrder(occ, cells) != []
    ensures InBounds(n, Greedy(n, occ, me, cells)) && Greedy(n, occ, me, cells) !in occ
    ensures forall c :: InBounds(n, c) && c !in occ ==>
      Criticals(Pygame, n, occ[c := me], Blue) <= Criticals(Pygame, n, occ[Greedy(n, occ, me, cells) := me], Blue)
  {
    var r := Greedy(n, occ, me, cells);
    var m := GreedyScores(n, occ, me, cells);
    forall c | InBounds(n, c) && c !in occ
      ensures Criticals(Pygame, n, occ[c := me], Blue) <= Criticals(Pygame, n, occ[r := me], Blue)
    {
      assert c in EmptyOrder(occ, cells);
      assert Le(m[c], m[r]);
    }
  }

  // ---- minimax, both strategy files ----------------------------------------

  /** The value minimax records for each empty cell: the opponent to move
      after me plays there and captures. */
  ghost function RootValues(g: Game, fuel: nat, occ: Occupancy, cells: seq<Coord>): (m: map<Coord, Ext>)
    ensures forall c :: c in m <==> c in cells && c !in occ
  {
    map c | c in cells && c !in occ :: MinValue(g, fuel, g.move(occ, g.me, c), cells)
  }

  /** The values minimax has recorded once the first k cells of the
      visiting order have been tried. */
  ghost function RootValuesUpTo(g: Game, fuel: nat, occ: Occupancy, cells: seq<Coord>, k: nat): (m: map<Coord, Ext>)
    requires k <= |cells|
    ensures forall c :: c in m <==> c in cells[..k] && c !in occ
  {
    map c | c in cells[..k] && c !in occ :: MinValue(g, fuel, g.move(occ, g.me, c), cells)
  }

  /** The values after one more cell of the visiting order; after all of
      them, RootValues. */
  lemma RootValuesStep(g: Game, fuel: nat, occ: Occupancy, cells: seq<Coord>, i: int)
    requires 0 <= i < |cells|
    ensures RootValuesUpTo(g, fuel, occ, cells, i + 1) ==
      if cells[i] in occ then RootValuesUpTo(g, fuel, occ, cells, i)
      else RootValuesUpTo(g, fuel, occ, cells, i)[cells[i] := MinValue(g, fuel, g.move(occ, g.me, cells[i]), cells)]
    ensures i + 1 == |cells| ==> RootValuesUpTo(g, fuel, occ, cells, i + 1) == RootValues(g, fuel, occ, cells)
  {
    assert forall x :: x in cells[..i + 1] <==> x in cells[..i] || x == cells[i];
    assert cells[..|cells|] == cells;
  }

  /** The actions dictionary once check_game_point has had its say: a
      game-point cell is worth +inf. */
  ghost function RootActions(v: Variant, fuel: nat, n: int, occ: Occupancy, me: Colour, depth: int, cells: seq<Coord>): map<Coord, Ext>
    requires depth != 0
  {
    var acts := RootValues(Rules(v, n, me, depth), fuel, occ, cells);
    var gp := GamePoint(v, Judge(n), n, occ, me);
    if gp.Some? then acts[gp.value := PosInf] else acts
  }

  /** The insertion order of the actions dictionary. */
  ghost function RootOrder(v: Variant, fuel: nat, n: int, occ: Occupancy, me: Colour, depth: int, cells: seq<Coord>): seq<Coord>
    requires depth != 0
  {
    var gp := GamePoint(v, Judge(n), n, occ, me);
    if gp.Some? && gp.value !in RootValues(Rules(v, n, me, depth), fuel, occ, cells)
    then EmptyOrder(occ, cells) + [gp.value] else EmptyOrder(occ, cells)
  }

  /** minimax(board, player, depth): the first cell of largest value. */
  ghost function Minimax(v: Variant, fuel: nat, n: int, occ: Occupancy, me: Colour, depth: int, cells: seq<Coord>): Coord
    requires depth != 0 && RootOrder(v, fuel, n, occ, me, depth, cells) != []
  {
    var order := RootOrder(v, fuel, n, occ, me, depth, cells);
    assert forall c :: c in order ==> c in RootActions(v, fuel, n, occ, me, depth, cells);
    FirstMax(order, RootActions(v, fuel, n, occ, me, depth, cells))
  }

  /** minimax picks an empty cell of the board of largest value; a game
      point, when there is one, is worth +inf, so the pick is then worth
      +inf too. */
  lemma MinimaxBest(v: Variant, fuel: nat, n: int, occ: Occupancy, me: Colour, depth: int, cells: seq<Coord>)
    requires depth != 0 && Enumerates(n, cells)
    requires RootOrder(v, fuel, n, occ, me, depth, cells) != []
    ensures var r := Minimax(v, fuel, n, occ, me, depth, cells);
      InBounds(n, r) && r !in occ
    ensures var r := Minimax(v, fuel, n, occ, me, depth, cells);
      var acts := RootActions(v, fuel, n, occ, me, depth, cells);
      forall c :: InBounds(n, c) && c !in occ ==> c in acts && Le(acts[c], acts[r])
    ensures var r := Minimax(v, fuel, n, occ, me, depth, cells);
      GamePoint(v, Judge(n), n, occ, me).Some? ==> RootActions(v, fuel, n, occ, me, depth, cells)[r] == PosInf
  {
    var r := Minimax(v, fuel, n, occ, me, depth, cells);
    var acts := RootActions(v, fuel, n, occ, me, depth, cells);
    var gp := GamePoint(v, Judge(n), n, occ, me);
    GamePointEmpty(v, Judge(n), n, occ, me);
    assert r in RootOrder(v, fuel, n, occ, me, depth, cells);
    forall c | InBounds(n, c) && c !in occ ensures c in acts && Le(acts[c], acts[r]) {
      assert c in EmptyOrder(occ, cells);
    }
    if gp.Some? {
      assert gp.value in EmptyOrder(occ, cells);
      assert Le(acts[gp.value], acts[r]);
    }
  }

  /** At depth 1 every root value is eval after one own placement and its
      captures, so, with a game point, minimax plays it. */
  lemma MinimaxDepthOne(v: Variant, fuel: nat, n: int, occ: Occupancy, me: Colour, cells: seq<Coord>)
    requires Enumerates(n, cells)
    requires RootOrder(v, fuel, n, occ, me, 1, cells) != []
    ensures forall c :: c in cells && c !in occ ==>
      RootValues(Rules(v, n, me, 1), fuel, occ, cells)[c] == Fin(Eval(v, n, Place(n, occ, me, c), me))
    ensures GamePoint(v, Judge(n), n, occ, me).Some? ==>
      Minimax(v, fuel, n, occ, me, 1, cells) == GamePoint(v, Judge(n), n, occ, me).value
  {
    var g := Rules(v, n, me, 1);
    forall c | c in cells && c !in occ
      ensures RootValues(g, fuel, occ, cells)[c] == Fin(Eval(v, n, Place(n, occ, me, c), me))
    {
      RulesMove(v, n, me, 1, occ, me, c);
      DepthOneIsEval(v, fuel, n, Place(n, occ, me, c), me, cells);
    }
    var gp := GamePoint(v, Judge(n), n, occ, me);
    if gp.Some? {
      MinimaxBest(v, fuel, n, occ, me, 1, cells);
    }
  }

  // ---- make_action, pygame/strategy.py -------------------------------------

  /** make_action(board, player) of pygame/strategy.py: greedy once the
      agent has used more than n * n - 5 seconds; on boards wider than 13,
      greedy while fewer than n tokens are down and a depth-1 search when
      ahead; when behind, a game point and then a capture; else a search of
      depth 3 on boards up to 5 wide and of depth 2 beyond. */
  ghost function PygameAction(totalTime: real, fuel: nat, n: int, occ: Occupancy, me: Colour,
                              cells: seq<Coord>, keys: seq<Coord>): Coord
    requires EmptyOrder(occ, cells) != []
  {
    var value := Eval(Pygame, n, occ, me);
    var oppoValue := Eval(Pygame, n, occ, Other(me));
    var gp := GamePoint(Pygame, Judge(n), n, occ, me);
    var cap := GoCapture(Pygame, Judge(n), n, occ, me, keys);
    if totalTime > (n * n - 5) as real then Greedy(n, occ, me, cells)
    else if n > 13 && |occ| < n then Greedy(n, occ, me, cells)
    else if n > 13 && value > oppoValue then Minimax(Pygame, fuel, n, occ, me, 1, cells)
    else if value < oppoValue && gp.Some? then gp.value
    else if value < oppoValue && cap.Some? then cap.value
    else Minimax(Pygame, fuel, n, occ, me, if n <= 5 then 3 else 2, cells)
  }

  /** Every move make_action picks is an empty cell of the board. */
  lemma PygameActionLegal(totalTime: real, fuel: nat, n: int, occ: Occupancy, me: Colour,
                          cells: seq<Coord>, keys: seq<Coord>)
    requires Enumerates(n, cells) && EmptyOrder(occ, cells) != []
    ensures InBounds(n, PygameAction(totalTime, fuel, n, occ, me, cells, keys))
    ensures PygameAction(totalTime, fuel, n, occ, me, cells, keys) !in occ
  {
    var value := Eval(Pygame, n, occ, me);
    var oppoValue := Eval(Pygame, n, occ, Other(me));
    var gp := GamePoint(Pygame, Judge(n), n, occ, me);
    var cap := GoCapture(Pygame, Judge(n), n, occ, me, keys);
    var r := PygameAction(totalTime, fuel, n, occ, me, cells, keys);
    if totalTime > (n * n - 5) as real || (n > 13 && |occ| < n) {
      GreedyBest(n, occ, me, cells);
    } else if n > 13 && value > oppoValue {
      MinimaxBest(Pygame, fuel, n, occ, me, 1, cells);
    } else if value < oppoValue && gp.Some? {
      GamePointEmpty(Pygame, Judge(n), n, occ, me);
    } else if value < oppoValue && cap.Some? {
      GoCaptureFrontier(Pygame, Judge(n), n, occ, me, keys);
      FrontierEmpty(n, occ, me, cap.value);
    } else {
      MinimaxBest(Pygame, fuel, n, occ, me, if n <= 5 then 3 else 2, cells);
    }
  }

  /** A frontier cell is an empty cell of the board. */
  lemma FrontierEmpty(n: int, occ: Occupancy, me: Colour, c: Coord)
    requires Frontier(n, occ, me, c)
    ensures InBounds(n, c) && c !in occ
  {
    var t :| t in occ && occ[t] == Other(me) && c in FindEmptyNeighbours(n, occ, t);
  }
}
