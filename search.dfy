/** The game tree that get_max_value and get_min_value explore, in both
    strategy files: the agent `me` moves at max nodes, its opponent at min
    nodes, a move places a token and removes what it captures, and a node is
    scored statically by eval from me's point of view once cutoff_test says
    so.  The functions below give the plain minimax value (no pruning); the
    alpha-beta methods are proved to return it, clamped to their window.

    The source visits the empty cells in a random order; the model takes
    the order as a sequence `cells` listing every cell of the board once.
    The search does not terminate on its own (captures can shrink the
    board), so the model bounds the depth of the recursion by `fuel`; a node
    reached with no fuel left is scored statically. */
module Search {
  import opened Hex
  import opened Extended
  import opened Scores

  /** The cells of `cells` that hold no token on occ, in order: the cells a
      search loop tries. */
  function EmptyOrder(occ: Occupancy, cells: seq<Coord>): (r: seq<Coord>)
    ensures forall c :: c in r <==> c in cells && c !in occ
    ensures Distinct(cells) ==> Distinct(r)
  {
    if cells == [] then []
    else
      var rest := EmptyOrder(occ, cells[..|cells| - 1]);
      var c := cells[|cells| - 1];
      assert forall x :: x in cells ==> x in cells[..|cells| - 1] || x == c;
      if c in occ then rest
      else
        assert Distinct(cells) ==> c !in cells[..|cells| - 1];
        rest + [c]
  }

  /** When every cell of the visiting order holds a token, there is no move
      to try. */
  lemma {:induction false} AllTaken(occ: Occupancy, cells: seq<Coord>)
    requires forall j :: 0 <= j < |cells| ==> cells[j] in occ
    ensures EmptyOrder(occ, cells) == []
    decreases |cells|
  {
    if cells != [] {
      AllTaken(occ, cells[..|cells| - 1]);
    }
  }

  /** The rules the search needs: when a position is scored without
      looking further, its score for `me`, and the position after a move. */
  datatype Game = Game(me: Colour, leaf: Occupancy -> bool, score: Occupancy -> int,
                       move: (Occupancy, Colour, Coord) -> Occupancy)

  /** The rules of the given agent variant searching to `depth` for `me`:
      cutoff_test, eval and a placement with its captures. */
  ghost function Rules(v: Variant, n: int, me: Colour, depth: int): (g: Game)
    requires depth != 0
    ensures g.me == me
  {
    Game(me, (occ: Occupancy) => Cutoff(v, n, occ, depth), (occ: Occupancy) => Eval(v, n, occ, me),
         (occ: Occupancy, p: Colour, c: Coord) => Place(n, occ, p, c))
  }

  /** Rules scores a position outright exactly at cutoff_test. */
  lemma RulesLeaf(v: Variant, n: int, me: Colour, depth: int, occ: Occupancy)
    requires depth != 0
    ensures Rules(v, n, me, depth).leaf(occ) == Cutoff(v, n, occ, depth)
  {
  }

  /** Rules scores a position by eval for me. */
  lemma RulesScore(v: Variant, n: int, me: Colour, depth: int, occ: Occupancy)
    requires depth != 0
    ensures Rules(v, n, me, depth).score(occ) == Eval(v, n, occ, me)
  {
  }

  /** A move of Rules is a placement with its captures. */
  lemma RulesMove(v: Variant, n: int, me: Colour, depth: int, occ: Occupancy, p: Colour, c: Coord)
    requires depth != 0
    ensures Rules(v, n, me, depth).move(occ, p, c) == Place(n, occ, p, c)
  {
  }

  /** g plays by the rules of variant v searching to `depth` for me,
      stated cell by cell so that a proof can use them without unfolding
      Rules. */
  ghost predicate Plays(g: Game, v: Variant, n: int, me: Colour, depth: int)
    requires depth != 0
  {
    g.me == me &&
    (forall occ {:trigger Cutoff(v, n, occ, depth)} :: g.leaf(occ) == Cutoff(v, n, occ, depth)) &&
    (forall occ {:trigger Eval(v, n, occ, me)} :: g.score(occ) == Eval(v, n, occ, me)) &&
    (forall occ, p, c {:trigger Place(n, occ, p, c)} :: g.move(occ, p, c) == Place(n, occ, p, c))
  }

  lemma RulesPlays(v: Variant, n: int, me: Colour, depth: int)
    requires depth != 0
    ensures Plays(Rules(v, n, me, depth), v, n, me, depth)
  {
    var g := Rules(v, n, me, depth);
    forall occ ensures g.leaf(occ) == Cutoff(v, n, occ, depth) {
      RulesLeaf(v, n, me, depth, occ);
    }
    forall occ ensures g.score(occ) == Eval(v, n, occ, me) {
      RulesScore(v, n, me, depth, occ);
    }
    forall occ, p, c ensures g.move(occ, p, c) == Place(n, occ, p, c) {
      RulesMove(v, n, me, depth, occ, p, c);
    }
  }

  /** A node scored without looking further: at a cutoff, or out of fuel. */
  ghost predicate Leaf(g: Game, fuel: nat, occ: Occupancy) {
    g.leaf(occ) || fuel == 0
  }

  /** The minimax value of a position where g.me is to move. */
  ghost function MaxValue(g: Game, fuel: nat, occ: Occupancy, cells: seq<Coord>): Ext
    decreases fuel, 2
  {
    if Leaf(g, fuel, occ) then Fin(g.score(occ))
    else MaxFold(g, fuel, occ, cells, 0)
  }

  /** The minimax value of a position where g.me's opponent is to move. */
  ghost function MinValue(g: Game, fuel: nat, occ: Occupancy, cells: seq<Coord>): Ext
    decreases fuel, 2
  {
    if Leaf(g, fuel, occ) then Fin(g.score(occ))
    else MinFold(g, fuel, occ, cells, 0)
  }

  /** The largest value of g.me's moves at the empty cells among cells[i..]. */
  ghost function MaxFold(g: Game, fuel: nat, occ: Occupancy, cells: seq<Coord>, i: nat): Ext
    requires fuel > 0 && i <= |cells|
    decreases fuel, 1, |cells| - i
  {
    if i == |cells| then NegInf
    else
      var rest := MaxFold(g, fuel, occ, cells, i + 1);
      if cells[i] in occ then rest
      else Max(MaxChild(g, fuel, occ, cells, cells[i]), rest)
  }

  /** The smallest value of the opponent's moves at the empty cells among cells[i..]. */
  ghost function MinFold(g: Game, fuel: nat, occ: Occupancy, cells: seq<Coord>, i: nat): Ext
    requires fuel > 0 && i <= |cells|
    decreases fuel, 1, |cells| - i
  {
    if i == |cells| then PosInf
    else
      var rest := MinFold(g, fuel, occ, cells, i + 1);
      if cells[i] in occ then rest
      else Min(MinChild(g, fuel, occ, cells, cells[i]), rest)
  }

  /** The value of g.me's move at c. */
  ghost function MaxChild(g: Game, fuel: nat, occ: Occupancy, cells: seq<Coord>, c: Coord): Ext
    requires fuel > 0
    decreases fuel, 0
  {
    MinValue(g, fuel - 1, g.move(occ, g.me, c), cells)
  }

  /** The value of the opponent's move at c. */
  ghost function MinChild(g: Game, fuel: nat, occ: Occupancy, cells: seq<Coord>, c: Coord): Ext
    requires fuel > 0
    decreases fuel, 0
  {
    MaxValue(g, fuel - 1, g.move(occ, Other(g.me), c), cells)
  }

  /** One child of a max node in the fail-hard loop of get_max_value: the
      child's value under the window [alpha, b] is w.  Raising alpha to
      max(alpha, w) either closes the window, and the node's clamped value
      is b, or leaves the clamped value of the remaining cells unchanged. */
  lemma MaxFoldStep(g: Game, fuel: nat, occ: Occupancy, cells: seq<Coord>, i: nat, alpha: Ext, b: Ext, w: Ext)
    requires fuel > 0 && i < |cells| && cells[i] !in occ && Le(alpha, b)
    requires Clamp(w, alpha, b) == Clamp(MaxChild(g, fuel, occ, cells, cells[i]), alpha, b)
    ensures Le(alpha, Max(alpha, w))
    ensures Le(b, Max(alpha, w)) ==> Clamp(MaxFold(g, fuel, occ, cells, i), alpha, b) == b
    ensures !Le(b, Max(alpha, w)) ==>
      Clamp(MaxFold(g, fuel, occ, cells, i), alpha, b) == Clamp(MaxFold(g, fuel, occ, cells, i + 1), Max(alpha, w), b)
  {
    MaxStep(alpha, b, w, MaxChild(g, fuel, occ, cells, cells[i]), MaxFold(g, fuel, occ, cells, i + 1));
  }

  /** The mirror image for get_min_value: lowering beta to min(beta, w). */
  lemma MinFoldStep(g: Game, fuel: nat, occ: Occupancy, cells: seq<Coord>, i: nat, a: Ext, beta: Ext, w: Ext)
    requires fuel > 0 && i < |cells| && cells[i] !in occ && Le(a, beta)
    requires Clamp(w, a, beta) == Clamp(MinChild(g, fuel, occ, cells, cells[i]), a, beta)
    ensures Le(Min(beta, w), beta)
    ensures Le(Min(beta, w), a) ==> Clamp(MinFold(g, fuel, occ, cells, i), a, beta) == a
    ensures !Le(Min(beta, w), a) ==>
      Clamp(MinFold(g, fuel, occ, cells, i), a, beta) == Clamp(MinFold(g, fuel, occ, cells, i + 1), a, Min(beta, w))
  {
    MinStep(a, beta, w, MinChild(g, fuel, occ, cells, cells[i]), MinFold(g, fuel, occ, cells, i + 1));
  }

  /** At depth 1 every position is a cutoff, so every value is eval. */
  lemma DepthOneIsEval(v: Variant, fuel: nat, n: int, occ: Occupancy, me: Colour, cells: seq<Coord>)
    ensures MaxValue(Rules(v, n, me, 1), fuel, occ, cells) == Fin(Eval(v, n, occ, me))
    ensures MinValue(Rules(v, n, me, 1), fuel, occ, cells) == Fin(Eval(v, n, occ, me))
  {
    RulesLeaf(v, n, me, 1, occ);
    RulesScore(v, n, me, 1, occ);
    CutoffDepthOne(v, n, occ);
  }

  /** MaxFold is an upper bound of the moves it folds over and, unless
      there are none, equal to one of them. */
  lemma {:induction false} MaxFoldIsMax(g: Game, fuel: nat, occ: Occupancy, cells: seq<Coord>, i: nat)
    requires fuel > 0 && i <= |cells|
    ensures forall j :: i <= j < |cells| && cells[j] !in occ ==>
      Le(MaxChild(g, fuel, occ, cells, cells[j]), MaxFold(g, fuel, occ, cells, i))
    ensures MaxFold(g, fuel, occ, cells, i) == NegInf ||
      exists j :: i <= j < |cells| && cells[j] !in occ && MaxFold(g, fuel, occ, cells, i) == MaxChild(g, fuel, occ, cells, cells[j])
    decreases |cells| - i
  {
    if i < |cells| {
      MaxFoldIsMax(g, fuel, occ, cells, i + 1);
      var rest := MaxFold(g, fuel, occ, cells, i + 1);
      if cells[i] !in occ {
        var w := MaxChild(g, fuel, occ, cells, cells[i]);
        forall j | i < j < |cells| && cells[j] !in occ
          ensures Le(MaxChild(g, fuel, occ, cells, cells[j]), Max(w, rest))
        {
          LeTrans(MaxChild(g, fuel, occ, cells, cells[j]), rest, Max(w, rest));
        }
      }
    }
  }

  /** The mirror image for MinFold. */
  lemma {:induction false} MinFoldIsMin(g: Game, fuel: nat, occ: Occupancy, cells: seq<Coord>, i: nat)
    requires fuel > 0 && i <= |cells|
    ensures forall j :: i <= j < |cells| && cells[j] !in occ ==>
      Le(MinFold(g, fuel, occ, cells, i), MinChild(g, fuel, occ, cells, cells[j]))
    ensures MinFold(g, fuel, occ, cells, i) == PosInf ||
      exists j :: i <= j < |cells| && cells[j] !in occ && MinFold(g, fuel, occ, cells, i) == MinChild(g, fuel, occ, cells, cells[j])
    decreases |cells| - i
  {
    if i < |cells| {
      MinFoldIsMin(g, fuel, occ, cells, i + 1);
      var rest := MinFold(g, fuel, occ, cells, i + 1);
      if cells[i] !in occ {
        var w := MinChild(g, fuel, occ, cells, cells[i]);
        forall j | i < j < |cells| && cells[j] !in occ
          ensures Le(Min(w, rest), MinChild(g, fuel, occ, cells, cells[j]))
        {
          LeTrans(Min(w, rest), rest, MinChild(g, fuel, occ, cells, cells[j]));
        }
      }
    }
  }

  /** The value of a position does not depend on the order in which the
      cells are tried: two orders listing the same cells give the same
      minimax value at every depth.  The random visiting order of the source
      only decides which of several equally good moves is picked. */
  lemma {:induction false} ValueIndependentOfOrder(g: Game, fuel: nat, occ: Occupancy, cells1: seq<Coord>, cells2: seq<Coord>)
    requires forall c :: c in cells1 <==> c in cells2
    ensures MaxValue(g, fuel, occ, cells1) == MaxValue(g, fuel, occ, cells2)
    ensures MinValue(g, fuel, occ, cells1) == MinValue(g, fuel, occ, cells2)
    decreases fuel
  {
    if !Leaf(g, fuel, occ) {
      forall c | c in cells1 && c !in occ
        ensures MaxChild(g, fuel, occ, cells1, c) == MaxChild(g, fuel, occ, cells2, c)
        ensures MinChild(g, fuel, occ, cells1, c) == MinChild(g, fuel, occ, cells2, c)
      {
        ValueIndependentOfOrder(g, fuel - 1, g.move(occ, g.me, c), cells1, cells2);
        ValueIndependentOfOrder(g, fuel - 1, g.move(occ, Other(g.me), c), cells1, cells2);
      }
      MaxFoldsAgree(g, fuel, occ, cells1, cells2);
      MinFoldsAgree(g, fuel, occ, cells1, cells2);
    }
  }

  /** Two max folds over the same cells whose moves have equal values agree. */
  lemma MaxFoldsAgree(g: Game, fuel: nat, occ: Occupancy, cells1: seq<Coord>, cells2: seq<Coord>)
    requires fuel > 0
    requires forall c :: c in cells1 <==> c in cells2
    requires forall c :: c in cells1 && c !in occ ==> MaxChild(g, fuel, occ, cells1, c) == MaxChild(g, fuel, occ, cells2, c)
    ensures MaxFold(g, fuel, occ, cells1, 0) == MaxFold(g, fuel, occ, cells2, 0)
  {
    var f1 := MaxFold(g, fuel, occ, cells1, 0);
    var f2 := MaxFold(g, fuel, occ, cells2, 0);
    MaxFoldIsMax(g, fuel, occ, cells1, 0);
    MaxFoldIsMax(g, fuel, occ, cells2, 0);
    assert Le(f1, f2) by {
      if f1 != NegInf {
        var j :| 0 <= j < |cells1| && cells1[j] !in occ && f1 == MaxChild(g, fuel, occ, cells1, cells1[j]);
        assert cells1[j] in cells2;
        var k :| 0 <= k < |cells2| && cells2[k] == cells1[j];
      }
    }
    assert Le(f2, f1) by {
      if f2 != NegInf {
        var j :| 0 <= j < |cells2| && cells2[j] !in occ && f2 == MaxChild(g, fuel, occ, cells2, cells2[j]);
        assert cells2[j] in cells1;
        var k :| 0 <= k < |cells1| && cells1[k] == cells2[j];
      }
    }
    LeTotal(f1, f2);
  }

  /** Two min folds over the same cells whose moves have equal values agree. */
  lemma MinFoldsAgree(g: Game, fuel: nat, occ: Occupancy, cells1: seq<Coord>, cells2: seq<Coord>)
    requires fuel > 0
    requires forall c :: c in cells1 <==> c in cells2
    requires forall c :: c in cells1 && c !in occ ==> MinChild(g, fuel, occ, cells1, c) == MinChild(g, fuel, occ, cells2, c)
    ensures MinFold(g, fuel, occ, cells1, 0) == MinFold(g, fuel, occ, cells2, 0)
  {
    var f1 := MinFold(g, fuel, occ, cells1, 0);
    var f2 := MinFold(g, fuel, occ, cells2, 0);
    MinFoldIsMin(g, fuel, occ, cells1, 0);
    MinFoldIsMin(g, fuel, occ, cells2, 0);
    assert Le(f1, f2) by {
      if f2 != PosInf {
        var j :| 0 <= j < |cells2| && cells2[j] !in occ && f2 == MinChild(g, fuel, occ, cells2, cells2[j]);
        assert cells2[j] in cells1;
        var k :| 0 <= k < |cells1| && cells1[k] == cells2[j];
      }
    }
    assert Le(f2, f1) by {
      if f1 != PosInf {
        var j :| 0 <= j < |cells1| && cells1[j] !in occ && f1 == MinChild(g, fuel, occ, cells1, cells1[j]);
        assert cells1[j] in cells2;
        var k :| 0 <= k < |cells2| && cells2[k] == cells1[j];
      }
    }
    LeTotal(f1, f2);
  }
}
