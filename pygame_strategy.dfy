/** pygame/strategy.py: the functions the first agent variant decides with.
    They work on the Board object itself, trying a move in place and
    undoing it with recover_board, and each is proved to compute the
    specification function of the same name (modules Scores, Search,
    Lookahead, CaptureScan and Choice) and to leave the board as it found
    it.  The random cell-visiting order of the search loops is the
    parameter `cells`. */
module PygameStrategy {
  import opened Hex
  import opened Connect
  import opened Extended
  import Scores
  import opened Queries
  import opened Groups
  import opened Search
  import opened Lookahead
  import CaptureScan
  import Choice
  import opened PygameBoard

  // ---- count_criticals and eval ---------------------------------------------

  /** groups.index(group): the first position holding g. */
  function IndexOf(groups: seq<seq<Coord>>, g: seq<Coord>): (i: nat)
    requires g in groups
    ensures i < |groups| && groups[i] == g
    ensures forall j :: 0 <= j < i ==> groups[j] != g
  {
    if groups[0] == g then 0
    else
      assert g in groups[1..];
      1 + IndexOf(groups[1..], g)
  }

  /** No list occurs twice in groups. */
  predicate AllDifferent(groups: seq<seq<Coord>>) {
    forall j, k :: 0 <= j < k < |groups| ==> groups[j] != groups[k]
  }

  /** The groups of a partition are different lists. */
  lemma PartitionDifferent(n: int, occ: Occupancy, p: Colour, groups: seq<seq<Coord>>)
    requires IsPartition(n, occ, p, groups)
    ensures AllDifferent(groups)
  {
    forall j, k | 0 <= j < k < |groups| ensures groups[j] != groups[k] {
      assert groups[k][0] in groups[k];
    }
  }

  /** Without repeats, groups.index finds each group at its own position. */
  lemma IndexOfDifferent(groups: seq<seq<Coord>>, k: int)
    requires AllDifferent(groups) && 0 <= k < |groups|
    ensures IndexOf(groups, groups[k]) == k
  {
  }

  /** The first loop of count_criticals: the span of every group, recorded
      under groups.index(group), and the largest of them. */
  method CriticalSpans(groups: seq<seq<Coord>>, p: Colour) returns (criticalLength: nat, groupCrit: map<nat, nat>)
    requires AllDifferent(groups)
    ensures criticalLength == Scores.SpanPrefixMax(groups, p, |groups|)
    ensures forall i: nat :: i in groupCrit <==> i < |groups|
    ensures forall i :: i in groupCrit ==> groupCrit[i] == Span(Elems(groups[i]), p)
  {
    criticalLength := 0;
    groupCrit := map[];
    var g := 0;
    while g < |groups|
      invariant 0 <= g <= |groups|
      invariant criticalLength == Scores.SpanPrefixMax(groups, p, g)
      invariant Recorded(groupCrit, groups, p, g)
    {
      var curLength := Scores.GroupSpan(groups[g], p);
      var idx := IndexOf(groups, groups[g]);
      IndexOfDifferent(groups, g);
      RecordStep(groupCrit, groups, p, g);
      groupCrit := groupCrit[idx := curLength];
      Scores.SpanPrefixStep(groups, p, g);
      if curLength > criticalLength {
        criticalLength := curLength;
      }
      g := g + 1;
    }
  }

  /** group_crit holds the span of each of the first g groups, under its
      index, and nothing else. */
  ghost predicate Recorded(groupCrit: map<nat, nat>, groups: seq<seq<Coord>>, p: Colour, g: int)
    requires 0 <= g <= |groups|
  {
    forall i: nat :: (i in groupCrit <==> i < g) && (i in groupCrit ==> groupCrit[i] == Span(Elems(groups[i]), p))
  }

  lemma RecordStep(groupCrit: map<nat, nat>, groups: seq<seq<Coord>>, p: Colour, g: int)
    requires 0 <= g < |groups| && Recorded(groupCrit, groups, p, g)
    ensures Recorded(groupCrit[g := Span(Elems(groups[g]), p)], groups, p, g + 1)
  {
  }

  /** The bonus loop of count_criticals: how many recorded spans equal L,
      over group_crit.values() (insertion order, i.e. by group index). */
  method CountAtLength(groupCrit: map<nat, nat>, count: nat, L: nat) returns (num: nat)
    requires forall i: nat :: i in groupCrit <==> i < count
    ensures num == |set i: nat | i < count && groupCrit[i] == L|
  {
    num := 0;
    var j := 0;
    while j < count
      invariant 0 <= j <= count
      invariant num == |set i: nat | i < j && groupCrit[i] == L|
    {
      ghost var before := set i: nat | i < j && groupCrit[i] == L;
      if groupCrit[j] == L {
        assert (set i: nat | i < j + 1 && groupCrit[i] == L) == before + {j};
        num := num + 1;
      } else {
        assert (set i: nat | i < j + 1 && groupCrit[i] == L) == before;
      }
      j := j + 1;
    }
  }

  /** count_criticals(board, p): the critical length plus, when it exceeds
      2, the number of groups whose span reaches it. */
  method CountCriticals(board: Board, p: Colour) returns (k: nat)
    requires WellFormed(board.n, board.occupied)
    ensures k == Scores.Criticals(Scores.Pygame, board.n, board.occupied, p)
  {
    var groups := FindAllGroups(board.n, board.occupied, p);
    PartitionDifferent(board.n, board.occupied, p, groups);
    var criticalLength, groupCrit := CriticalSpans(groups, p);
    Scores.SpanPrefixAll(board.n, board.occupied, p, groups);
    var numCritGroup: nat := 0;
    if criticalLength > 2 {
      numCritGroup := CountAtLength(groupCrit, |groups|, criticalLength);
      CriticalGroupsCount(board.n, board.occupied, p, groups, groupCrit);
    }
    k := criticalLength + numCritGroup;
  }

  /** The groups whose recorded span is the critical length are the
      critical groups of pygame. */
  lemma CriticalGroupsCount(n: int, occ: Occupancy, p: Colour, groups: seq<seq<Coord>>, groupCrit: map<nat, nat>)
    requires WellFormed(n, occ) && IsPartition(n, occ, p, groups)
    requires forall i: nat :: i in groupCrit <==> i < |groups|
    requires forall i :: i in groupCrit ==> groupCrit[i] == Span(Elems(groups[i]), p)
    ensures var L := Scores.CriticalLength(n, occ, p);
      |set i: nat | i < |groups| && groupCrit[i] == L| == |Scores.CriticalGroups(Scores.Pygame, n, occ, p)|
  {
    var L := Scores.CriticalLength(n, occ, p);
    var P := (C: set<Coord>) => Span(C, p) == L;
    Scores.CountMatching(n, occ, p, groups, P);
    assert (set i: nat | i < |groups| && groupCrit[i] == L) == (set i: nat | i < |groups| && P(Elems(groups[i])));
    CriticalGroupsBySpan(n, occ, p, L, P);
  }

  /** The critical groups of pygame are the components whose span is L. */
  lemma CriticalGroupsBySpan(n: int, occ: Occupancy, p: Colour, L: nat, P: set<Coord> -> bool)
    requires L == Scores.CriticalLength(n, occ, p)
    requires forall C :: P(C) == (Span(C, p) == L)
    ensures (set C | C in Components(n, occ, p) && P(C)) == Scores.CriticalGroups(Scores.Pygame, n, occ, p)
  {
    var Cs := Components(n, occ, p);
    assert Scores.CriticalGroups(Scores.Pygame, n, occ, p) == set C | C in Cs && Span(C, p) == L;
  }

  /** eval(board, p): p's critical count plus p's lead in tokens. */
  method EvalBoard(board: Board, p: Colour) returns (value: int)
    requires WellFormed(board.n, board.occupied)
    ensures value == Scores.Eval(Scores.Pygame, board.n, board.occupied, p)
  {
    var redCritical := CountCriticals(board, Red);
    var blueCritical := CountCriticals(board, Blue);
    var redTokens: int := TokenCount(board.occupied, Red);
    var blueTokens: int := TokenCount(board.occupied, Blue);
    var redValue := redCritical + (redTokens - blueTokens);
    var blueValue := blueCritical + (blueTokens - redTokens);
    if p == Red {
      value := redValue;
    } else {
      value := blueValue;
    }
  }

  // ---- greedy_proceed --------------------------------------------------------

  /** greedy_eval(board, player): the source compares the Player object
      itself with RED, which never holds, so it always counts Blue. */
  method GreedyEval(board: Board) returns (value: nat)
    requires WellFormed(board.n, board.occupied)
    ensures value == Scores.Criticals(Scores.Pygame, board.n, board.occupied, Blue)
  {
    value := CountCriticals(board, Blue);
  }

  /** One cell of greedy_proceed: occupied[coord] = colour, greedy_eval,
      then occupied.pop(coord). */
  method GreedyTrial(board: Board, me: Colour, coord: Coord) returns (value: nat)
    requires WellFormed(board.n, board.occupied) && InBounds(board.n, coord) && coord !in board.occupied
    modifies board`occupied
    ensures board.occupied == old(board.occupied)
    ensures value == Scores.Criticals(Scores.Pygame, board.n, board.occupied[coord := me], Blue)
  {
    board.PlaceUpdate(me, coord.0, coord.1);
    value := GreedyEval(board);
    board.Remove(coord.0, coord.1);
    assert board.occupied == old(board.occupied);
  }

  /** greedy_proceed(board, player): score every empty cell by greedy_eval
      with me's token on it, then take the best. */
  method GreedyProceed(board: Board, me: Colour, cells: seq<Coord>) returns (c: Coord)
    requires WellFormed(board.n, board.occupied) && Enumerates(board.n, cells)
    requires EmptyOrder(board.occupied, cells) != []
    modifies board`occupied
    ensures board.occupied == old(board.occupied)
    ensures c == Choice.Greedy(board.n, board.occupied, me, cells)
  {
    var actions, tried := GreedyScan(board, me, cells);
    c := FirstMax(tried, actions);
  }

  /** The loop of greedy_proceed: every empty cell, in visiting order, with
      its score; the cells in the order they were scored are returned as
      well. */
  method GreedyScan(board: Board, me: Colour, cells: seq<Coord>) returns (actions: map<Coord, Ext>, tried: seq<Coord>)
    requires WellFormed(board.n, board.occupied) && Enumerates(board.n, cells)
    modifies board`occupied
    ensures board.occupied == old(board.occupied)
    ensures tried == EmptyOrder(board.occupied, cells)
    ensures actions == Choice.GreedyScores(board.n, board.occupied, me, cells)
  {
    ghost var occ := board.occupied;
    actions, tried := map[], [];
    var i := 0;
    while i < |cells|
      invariant 0 <= i <= |cells|
      invariant board.occupied == occ
      invariant tried == EmptyOrder(occ, cells[..i])
      invariant actions == Choice.GreedyScores(board.n, occ, me, cells[..i])
    {
      actions, tried := GreedyStep(board, me, cells, i, actions, tried);
      i := i + 1;
    }
    assert cells[..i] == cells;
  }

  /** One turn of greedy_proceed's loop: cells[i] is scored when it is empty. */
  method GreedyStep(board: Board, me: Colour, cells: seq<Coord>, i: int, actions: map<Coord, Ext>, tried: seq<Coord>)
    returns (actions': map<Coord, Ext>, tried': seq<Coord>)
    requires WellFormed(board.n, board.occupied) && Enumerates(board.n, cells) && 0 <= i < |cells|
    requires tried == EmptyOrder(board.occupied, cells[..i])
    requires actions == Choice.GreedyScores(board.n, board.occupied, me, cells[..i])
    modifies board`occupied
    ensures board.occupied == old(board.occupied)
    ensures tried' == EmptyOrder(board.occupied, cells[..i + 1])
    ensures actions' == Choice.GreedyScores(board.n, board.occupied, me, cells[..i + 1])
  {
    var coord := cells[i];
    assert cells[..i + 1][..i] == cells[..i];
    Choice.GreedyScoresStep(board.n, board.occupied, me, cells, i);
    actions', tried' := actions, tried;
    if coord !in board.occupied {
      var value := GreedyTrial(board, me, coord);
      actions' := actions[coord := Fin(value)];
      tried' := tried + [coord];
    }
  }

  // ---- a trial move and its undoing ------------------------------------------

  /** occupied[c] = p, then capture_update of what valid_capture finds. */
  method TryMove(board: Board, p: Colour, c: Coord) returns (caps: set<Coord>)
    modifies board`occupied
    ensures caps == CaptureSet(board.n, old(board.occupied)[c := p], p, c)
    ensures board.occupied == Place(board.n, old(board.occupied), p, c)
  {
    board.PlaceUpdate(p, c.0, c.1);
    caps := ValidCapture(board.n, board.occupied, p, c.0, c.1);
    if caps != {} {
      CaptureSetSoundAll(board.n, board.occupied, p, c);
      board.CaptureUpdate(caps);
    }
  }

  /** recover_board(p, c, caps) after TryMove restores the board. */
  method UndoMove(board: Board, p: Colour, c: Coord, caps: set<Coord>, ghost before: Occupancy)
    requires c !in before
    requires caps == CaptureSet(board.n, before[c := p], p, c)
    requires board.occupied == Place(board.n, before, p, c)
    modifies board`occupied
    ensures board.occupied == before
  {
    CaptureSetSoundAll(board.n, before[c := p], p, c);
    board.RecoverBoard(p, Some(c), caps);
    PlaceRecoverRoundTrip(board.n, before, p, c);
  }

  // ---- get_max_value and get_min_value ---------------------------------------

  /** get_max_value(board, player, a, b, depth): me to move.  At a leaf it
      is eval; otherwise, in a window a <= b, it is the minimax value forced
      into [a, b] (fail-hard alpha-beta), and in an inverted window it is b
      as soon as there is a move to try, a when there is none. */
  method GetMaxValue(board: Board, me: Colour, a: Ext, b: Ext, depth: int, fuel: nat, cells: seq<Coord>, ghost g: Game)
    returns (r: Ext)
    requires depth != 0 && Plays(g, Scores.Pygame, board.n, me, depth)
    requires WellFormed(board.n, board.occupied) && Enumerates(board.n, cells)
    modifies board`occupied
    ensures board.occupied == old(board.occupied)
    ensures Leaf(g, fuel, board.occupied) ==>
      r == MaxValue(g, fuel, board.occupied, cells)
    ensures !Leaf(g, fuel, board.occupied) && Le(a, b) ==>
      r == Clamp(MaxValue(g, fuel, board.occupied, cells), a, b)
    ensures !Leaf(g, fuel, board.occupied) && !Le(a, b) ==>
      r == if EmptyOrder(board.occupied, cells) == [] then a else b
    decreases fuel, 3
  {
    ghost var occ := board.occupied;
    if Scores.Cutoff(Scores.Pygame, board.n, board.occupied, depth) || fuel == 0 {
      var value := EvalBoard(board, me);
      return Fin(value);
    }
    var alpha := a;
    var i := 0;
    while i < |cells|
      invariant 0 <= i <= |cells|
      invariant board.occupied == occ
      invariant Le(a, b) ==> Le(alpha, b)
      invariant Le(a, b) ==> Clamp(MaxFold(g, fuel, occ, cells, i), alpha, b) == Clamp(MaxFold(g, fuel, occ, cells, 0), a, b)
      invariant !Le(a, b) ==> alpha == a && forall j :: 0 <= j < i ==> cells[j] in occ
    {
      var cut;
      alpha, cut := MaxCell(board, me, a, b, alpha, depth, fuel, cells, g, i);
      if cut {
        return b;
      }
      i := i + 1;
    }
    if !Le(a, b) {
      AllTaken(occ, cells);
    }
    r := alpha;
  }

  /** get_min_value(board, player, a, b, depth): the opponent to move; the
      mirror image of GetMaxValue. */
  method GetMinValue(board: Board, me: Colour, a: Ext, b: Ext, depth: int, fuel: nat, cells: seq<Coord>, ghost g: Game)
    returns (r: Ext)
    requires depth != 0 && Plays(g, Scores.Pygame, board.n, me, depth)
    requires WellFormed(board.n, board.occupied) && Enumerates(board.n, cells)
    modifies board`occupied
    ensures board.occupied == old(board.occupied)
    ensures Leaf(g, fuel, board.occupied) ==>
      r == MinValue(g, fuel, board.occupied, cells)
    ensures !Leaf(g, fuel, board.occupied) && Le(a, b) ==>
      r == Clamp(MinValue(g, fuel, board.occupied, cells), a, b)
    ensures !Leaf(g, fuel, board.occupied) && !Le(a, b) ==>
      r == if EmptyOrder(board.occupied, cells) == [] then b else a
    decreases fuel, 3
  {
    ghost var occ := board.occupied;
    if Scores.Cutoff(Scores.Pygame, board.n, board.occupied, depth) || fuel == 0 {
      var value := EvalBoard(board, me);
      return Fin(value);
    }
    var beta := b;
    var i := 0;
    while i < |cells|
      invariant 0 <= i <= |cells|
      invariant board.occupied == occ
      invariant Le(a, b) ==> Le(a, beta)
      invariant Le(a, b) ==> Clamp(MinFold(g, fuel, occ, cells, i), a, beta) == Clamp(MinFold(g, fuel, occ, cells, 0), a, b)
      invariant !Le(a, b) ==> beta == b && forall j :: 0 <= j < i ==> cells[j] in occ
    {
      var cut;
      beta, cut := MinCell(board, me, a, b, beta, depth, fuel, cells, g, i);
      if cut {
        return a;
      }
      i := i + 1;
    }
    if !Le(a, b) {
      AllTaken(occ, cells);
    }
    r := beta;
  }

  /** One cell of get_max_value's loop: an empty cell is valued by
      MaxTrial and raises alpha; cut: the window closed (beta <= alpha). */
  method MaxCell(board: Board, me: Colour, a: Ext, b: Ext, alpha: Ext, depth: int, fuel: nat, cells: seq<Coord>,
                 ghost g: Game, i: int) returns (alpha': Ext, cut: bool)
    requires depth != 0 && Plays(g, Scores.Pygame, board.n, me, depth) && fuel > 0
    requires WellFormed(board.n, board.occupied) && Enumerates(board.n, cells) && 0 <= i < |cells|
    requires Le(a, b) ==> Le(alpha, b)
    requires !Le(a, b) ==> alpha == a
    modifies board`occupied
    ensures board.occupied == old(board.occupied)
    ensures cut && Le(a, b) ==> Clamp(MaxFold(g, fuel, board.occupied, cells, i), alpha, b) == b
    ensures cut && !Le(a, b) ==> EmptyOrder(board.occupied, cells) != []
    ensures !cut && Le(a, b) ==> Le(alpha', b)
    ensures !cut && Le(a, b) ==>
      Clamp(MaxFold(g, fuel, board.occupied, cells, i), alpha, b) == Clamp(MaxFold(g, fuel, board.occupied, cells, i + 1), alpha', b)
    ensures !cut && !Le(a, b) ==> alpha' == a && cells[i] in board.occupied
    decreases fuel, 2
  {
    ghost var occ := board.occupied;
    alpha', cut := alpha, false;
    var c := cells[i];
    if c !in board.occupied {
      var w := MaxTrial(board, me, alpha, b, depth, fuel, cells, g, c);
      if Le(a, b) {
        MaxFoldStep(g, fuel, occ, cells, i, alpha, b, w);
      } else {
        LeTotal(a, b);
        LeTrans(b, alpha, Max(alpha, w));
        assert c in EmptyOrder(occ, cells);
      }
      alpha' := Max(alpha, w);
      cut := Le(b, alpha');
    }
  }

  /** One cell of get_min_value's loop: an empty cell is valued by
      MinTrial and lowers beta; cut: the window closed (beta <= alpha). */
  method MinCell(board: Board, me: Colour, a: Ext, b: Ext, beta: Ext, depth: int, fuel: nat, cells: seq<Coord>,
                 ghost g: Game, i: int) returns (beta': Ext, cut: bool)
    requires depth != 0 && Plays(g, Scores.Pygame, board.n, me, depth) && fuel > 0
    requires WellFormed(board.n, board.occupied) && Enumerates(board.n, cells) && 0 <= i < |cells|
    requires Le(a, b) ==> Le(a, beta)
    requires !Le(a, b) ==> beta == b
    modifies board`occupied
    ensures board.occupied == old(board.occupied)
    ensures cut && Le(a, b) ==> Clamp(MinFold(g, fuel, board.occupied, cells, i), a, beta) == a
    ensures cut && !Le(a, b) ==> EmptyOrder(board.occupied, cells) != []
    ensures !cut && Le(a, b) ==> Le(a, beta')
    ensures !cut && Le(a, b) ==>
      Clamp(MinFold(g, fuel, board.occupied, cells, i), a, beta) == Clamp(MinFold(g, fuel, board.occupied, cells, i + 1), a, beta')
    ensures !cut && !Le(a, b) ==> beta' == b && cells[i] in board.occupied
    decreases fuel, 2
  {
    ghost var occ := board.occupied;
    beta', cut := beta, false;
    var c := cells[i];
    if c !in board.occupied {
      var w := MinTrial(board, me, a, beta, depth, fuel, cells, g, c);
      if Le(a, b) {
        MinFoldStep(g, fuel, occ, cells, i, a, beta, w);
      } else {
        LeTotal(a, b);
        LeTrans(Min(beta, w), beta, a);
        assert c in EmptyOrder(occ, cells);
      }
      beta' := Min(beta, w);
      cut := Le(beta', a);
    }
  }

  /** One move tried by get_max_value: me places at c and captures, the
      opponent's reply is valued by get_min_value under [alpha, b], and
      recover_board puts the board back.  The value agrees with the child's
      minimax value once forced into the window. */
  method MaxTrial(board: Board, me: Colour, alpha: Ext, b: Ext, depth: int, fuel: nat, cells: seq<Coord>, ghost g: Game, c: Coord)
    returns (w: Ext)
    requires depth != 0 && Plays(g, Scores.Pygame, board.n, me, depth) && fuel > 0
    requires WellFormed(board.n, board.occupied) && Enumerates(board.n, cells)
    requires c in cells && c !in board.occupied
    modifies board`occupied
    ensures board.occupied == old(board.occupied)
    ensures Le(alpha, b) ==> Clamp(w, alpha, b) == Clamp(MaxChild(g, fuel, old(board.occupied), cells, c), alpha, b)
    decreases fuel, 1
  {
    ghost var occ := board.occupied;
    var caps := TryMove(board, me, c);
    ghost var P := board.occupied;
    PlaceWellFormed(board.n, occ, me, c);
    w := GetMinValue(board, me, alpha, b, depth, fuel - 1, cells, g);
    ghost var V := MinValue(g, fuel - 1, P, cells);
    WindowAgrees(w, V, alpha, b, Leaf(g, fuel - 1, P));
    UndoMove(board, me, c, caps, occ);
    assert MaxChild(g, fuel, occ, cells, c) == V;
  }

  /** One move tried by get_min_value: the opponent places at c. */
  method MinTrial(board: Board, me: Colour, a: Ext, beta: Ext, depth: int, fuel: nat, cells: seq<Coord>, ghost g: Game, c: Coord)
    returns (w: Ext)
    requires depth != 0 && Plays(g, Scores.Pygame, board.n, me, depth) && fuel > 0
    requires WellFormed(board.n, board.occupied) && Enumerates(board.n, cells)
    requires c in cells && c !in board.occupied
    modifies board`occupied
    ensures board.occupied == old(board.occupied)
    ensures Le(a, beta) ==> Clamp(w, a, beta) == Clamp(MinChild(g, fuel, old(board.occupied), cells, c), a, beta)
    decreases fuel, 1
  {
    ghost var occ := board.occupied;
    var caps := TryMove(board, Other(me), c);
    ghost var P := board.occupied;
    PlaceWellFormed(board.n, occ, Other(me), c);
    w := GetMaxValue(board, me, a, beta, depth, fuel - 1, cells, g);
    ghost var V := MaxValue(g, fuel - 1, P, cells);
    WindowAgrees(w, V, a, beta, Leaf(g, fuel - 1, P));
    UndoMove(board, Other(me), c, caps, occ);
    assert MinChild(g, fuel, occ, cells, c) == V;
  }

  // ---- attempt_save_life and check_game_point --------------------------------

  /** A capture attempt at the empty cell c, followed by putting the
      opponent's token back on gp, is undone by recover_board: the board is
      the one before the attempt with the opponent on gp. */
  lemma RecoverPutBack(n: int, cur: Occupancy, me: Colour, gp: Coord, c: Coord)
    requires c !in cur && c != gp
    ensures var caps := CaptureSet(n, cur[c := me], me, c);
      Recover((cur[c := me] - caps)[gp := Other(me)], me, Some(c), caps) == cur[gp := Other(me)]
  {
    var caps := CaptureSet(n, cur[c := me], me, c);
    CaptureSetSoundAll(n, cur[c := me], me, c);
    var back := Recover((cur[c := me] - caps)[gp := Other(me)], me, Some(c), caps);
    assert back.Keys == cur[gp := Other(me)].Keys;
  }

  /** Placing at an empty cell and popping it again restores the board. */
  lemma RecoverNothing(cur: Occupancy, me: Colour, c: Coord)
    requires c !in cur
    ensures Recover(cur[c := me], me, Some(c), {}) == cur
  {
    assert Recover(cur[c := me], me, Some(c), {}).Keys == cur.Keys;
  }

  /** The capture attempt attempt_save_life makes at the empty cell c:
      me places at c; when that captures, the captured tokens are removed,
      the opponent's token is put back on gp and end_game is asked; then
      recover_board.  saved: the capture leaves nobody winning. */
  method CaptureAttempt(board: Board, me: Colour, gp: Coord, c: Coord) returns (captured: bool, saved: bool)
    requires c !in board.occupied && c != gp
    modifies board`occupied
    ensures var placed := old(board.occupied)[c := me];
      captured <==> CaptureSet(board.n, placed, me, c) != {}
    ensures var placed := old(board.occupied)[c := me];
      saved <==> captured && Winner(board.n, (placed - CaptureSet(board.n, placed, me, c))[gp := Other(me)]).None?
    ensures board.occupied == if captured then old(board.occupied)[gp := Other(me)] else old(board.occupied)
  {
    ghost var cur := board.occupied;
    board.PlaceUpdate(me, c.0, c.1);
    var caps := ValidCapture(board.n, board.occupied, me, c.0, c.1);
    captured, saved := caps != {}, false;
    if captured {
      CaptureSetSoundAll(board.n, cur[c := me], me, c);
      board.CaptureUpdate(caps);
      board.PlaceUpdate(Other(me), gp.0, gp.1);
      var w := EndGame(board.n, board.occupied);
      saved := w.None?;
      RecoverPutBack(board.n, cur, me, gp, c);
    } else {
      RecoverNothing(cur, me, c);
    }
    board.RecoverBoard(me, Some(c), caps);
  }

  /** One step of attempt_save_life's scan at an empty cell c = (r, q)
      other than gp, told by what the capture attempt there found. */
  lemma SaveLifeStep(ref: Referee, n: int, cur: Occupancy, me: Colour, gp: Coord, r: int, q: int,
                     captured: bool, saved: bool)
    requires Judges(ref, n) && 0 <= r < n && 0 <= q < n && (r, q) !in cur && (r, q) != gp
    requires captured <==> CaptureSet(n, cur[(r, q) := me], me, (r, q)) != {}
    requires saved <==> (captured &&
      Winner(n, (cur[(r, q) := me] - CaptureSet(n, cur[(r, q) := me], me, (r, q)))[gp := Other(me)]).None?)
    ensures saved ==> SaveLifeFrom(ref, n, cur, me, gp, r, q) == Some((r, q))
    ensures !saved ==> (SaveLifeFrom(ref, n, cur, me, gp, r, q) ==
      SaveLifeFrom(ref, n, if captured then cur[gp := Other(me)] else cur, me, gp, r, q + 1))
  {
    var placed := cur[(r, q) := me];
    var caps := ref.captures(placed, me, (r, q));
    assert caps == CaptureSet(n, placed, me, (r, q));
    if captured {
      var after := (placed - caps)[gp := Other(me)];
      assert ref.winner(after) == Winner(n, after);
    }
  }

  /** One cell (r, q) of attempt_save_life's scan: an empty cell other than
      gp is tried as a capture.  saved: the scan ends there, with the
      opponent back on gp. */
  method SaveLifeCell(board: Board, me: Colour, gp: Coord, r: int, q: int, ghost ref: Referee, ghost B: Occupancy)
    returns (saved: bool)
    requires Judges(ref, board.n) && 0 <= r < board.n && 0 <= q < board.n
    requires gp !in B && FromBoard(B, me, gp, board.occupied)
    modifies board`occupied
    ensures FromBoard(B, me, gp, board.occupied)
    ensures saved ==> (r, q) != gp && board.occupied == B[gp := Other(me)] &&
                      SaveLifeFrom(ref, board.n, old(board.occupied), me, gp, r, q) == Some((r, q))
    ensures !saved ==> SaveLifeFrom(ref, board.n, old(board.occupied), me, gp, r, q) ==
                       SaveLifeFrom(ref, board.n, board.occupied, me, gp, r, q + 1)
  {
    saved := false;
    if (r, q) !in board.occupied && gp != (r, q) {
      ghost var cur := board.occupied;
      var captured;
      captured, saved := CaptureAttempt(board, me, gp, (r, q));
      SaveLifeStep(ref, board.n, cur, me, gp, r, q, captured, saved);
      if captured {
        assert board.occupied == B[gp := Other(me)];
      }
    }
  }

  /** Row r of attempt_save_life's scan.  saved: the scan ends in this row
      at c, with the opponent back on gp. */
  method SaveLifeRow(board: Board, me: Colour, gp: Coord, r: int, ghost ref: Referee, ghost B: Occupancy)
    returns (saved: bool, c: Coord)
    requires Judges(ref, board.n) && 0 <= r < board.n
    requires gp !in B && FromBoard(B, me, gp, board.occupied)
    modifies board`occupied
    ensures FromBoard(B, me, gp, board.occupied)
    ensures saved ==> c != gp && board.occupied == B[gp := Other(me)] &&
                      SaveLifeFrom(ref, board.n, old(board.occupied), me, gp, r, 0) == Some(c)
    ensures !saved ==> SaveLifeFrom(ref, board.n, old(board.occupied), me, gp, r, 0) ==
                       SaveLifeFrom(ref, board.n, board.occupied, me, gp, r + 1, 0)
  {
    var q := 0;
    while q < board.n
      invariant 0 <= q
      invariant FromBoard(B, me, gp, board.occupied)
      invariant SaveLifeFrom(ref, board.n, board.occupied, me, gp, r, q) == SaveLifeFrom(ref, board.n, old(board.occupied), me, gp, r, 0)
      decreases board.n - q
    {
      saved := SaveLifeCell(board, me, gp, r, q, ref, B);
      if saved {
        return saved, (r, q);
      }
      q := q + 1;
    }
    saved, c := false, gp;
  }

  /** attempt_save_life(board, player, gp): gp holds the opponent's winning
      token.  It is taken off; then every empty cell other than gp, in
      row-major order, is tried as a capture that, with the opponent's token
      put back on gp, leaves nobody winning; the first such cell is the
      answer.  Failing that, me takes gp itself if that leaves nobody
      winning.  The board is left without gp's original token, with the
      opponent on gp after a rescue and me on gp otherwise. */
  method AttemptSaveLife(board: Board, me: Colour, gp: Coord, ghost ref: Referee) returns (res: Option<Coord>)
    requires Judges(ref, board.n) && gp in board.occupied
    modifies board`occupied
    ensures res == SaveLifeFrom(ref, board.n, old(board.occupied) - {gp}, me, gp, 0, 0)
    ensures board.occupied ==
      (old(board.occupied) - {gp})[gp := if res.Some? && res.value != gp then Other(me) else me]
  {
    board.Remove(gp.0, gp.1);
    ghost var B := board.occupied;
    var r := 0;
    while r < board.n
      invariant 0 <= r
      invariant FromBoard(B, me, gp, board.occupied)
      invariant SaveLifeFrom(ref, board.n, board.occupied, me, gp, r, 0) == SaveLifeFrom(ref, board.n, B, me, gp, 0, 0)
      decreases board.n - r
    {
      var saved, c := SaveLifeRow(board, me, gp, r, ref, B);
      if saved {
        return Some(c);
      }
      r := r + 1;
    }
    board.PlaceUpdate(me, gp.0, gp.1);
    assert board.occupied == B[gp := me];
    var w := EndGame(board.n, board.occupied);
    if w.None? {
      return Some(gp);
    }
    return None;
  }

  /** check_game_point(board, player): the empty cells in row-major order;
      the first where me wins is returned, and at the first where the
      opponent would win, attempt_save_life answers (None when it finds no
      answer).  The value the source pairs with a returned cell is always
      +inf and is left implicit.  The board is left as it was. */
  method CheckGamePoint(board: Board, me: Colour, ghost ref: Referee) returns (res: Option<Coord>)
    requires Judges(ref, board.n)
    modifies board`occupied
    ensures board.occupied == old(board.occupied)
    ensures res == GamePoint(Scores.Pygame, ref, board.n, old(board.occupied), me)
  {
    ghost var occ := board.occupied;
    var r := 0;
    while r < board.n
      invariant 0 <= r
      invariant board.occupied == occ
      invariant GamePointFrom(Scores.Pygame, ref, board.n, occ, me, r, 0) == GamePoint(Scores.Pygame, ref, board.n, occ, me)
      decreases board.n - r
    {
      var stop;
      stop, res := GamePointRow(board, me, r, ref);
      if stop {
        return res;
      }
      r := r + 1;
    }
    return None;
  }

  /** Row r of check_game_point's scan.  stop: the scan ends in this row
      with res. */
  method GamePointRow(board: Board, me: Colour, r: int, ghost ref: Referee) returns (stop: bool, res: Option<Coord>)
    requires Judges(ref, board.n) && 0 <= r < board.n
    modifies board`occupied
    ensures board.occupied == old(board.occupied)
    ensures stop ==> res == GamePointFrom(Scores.Pygame, ref, board.n, old(board.occupied), me, r, 0)
    ensures !stop ==> GamePointFrom(Scores.Pygame, ref, board.n, old(board.occupied), me, r, 0) ==
                      GamePointFrom(Scores.Pygame, ref, board.n, old(board.occupied), me, r + 1, 0)
  {
    ghost var occ := board.occupied;
    var q := 0;
    while q < board.n
      invariant 0 <= q
      invariant board.occupied == occ
      invariant GamePointFrom(Scores.Pygame, ref, board.n, occ, me, r, q) == GamePointFrom(Scores.Pygame, ref, board.n, occ, me, r, 0)
      decreases board.n - q
    {
      stop, res := GamePointCell(board, me, r, q, ref);
      if stop {
        return;
      }
      q := q + 1;
    }
    stop, res := false, None;
  }

  /** One cell (r, q) of check_game_point's scan.  stop: the scan ends at
      this cell with res. */
  method GamePointCell(board: Board, me: Colour, r: int, q: int, ghost ref: Referee) returns (stop: bool, res: Option<Coord>)
    requires Judges(ref, board.n) && 0 <= r < board.n && 0 <= q < board.n
    modifies board`occupied
    ensures board.occupied == old(board.occupied)
    ensures stop ==> res == GamePointFrom(Scores.Pygame, ref, board.n, old(board.occupied), me, r, q)
    ensures !stop ==> GamePointFrom(Scores.Pygame, ref, board.n, old(board.occupied), me, r, q) ==
                      GamePointFrom(Scores.Pygame, ref, board.n, old(board.occupied), me, r, q + 1)
  {
    ghost var occ := board.occupied;
    stop, res := false, None;
    if (r, q) !in board.occupied {
      assert occ[(r, q) := me] - {(r, q)} == occ;
      assert occ[(r, q) := Other(me)] - {(r, q)} == occ;
      board.PlaceUpdate(me, r, q);
      var winner := EndGame(board.n, board.occupied);
      if winner == Some(me) {
        assert Wins(ref, board.n, occ, me, (r, q));
        board.Remove(r, q);
        return true, Some((r, q));
      }
      board.PlaceUpdate(Other(me), r, q);
      assert board.occupied == occ[(r, q) := Other(me)];
      winner := EndGame(board.n, board.occupied);
      if winner == Some(Other(me)) {
        assert !Wins(ref, board.n, occ, me, (r, q)) && Threat(ref, board.n, occ, me, (r, q));
        res := AttemptSaveLife(board, me, (r, q), ref);
        assert res == SaveLife(Scores.Pygame, ref, board.n, occ, me, (r, q));
        assert board.occupied - {(r, q)} == occ;
        board.Remove(r, q);
        return true, res;
      }
      board.Remove(r, q);
    }
  }

  // ---- go_capture ------------------------------------------------------------

  /** The inner loop of go_capture over the empty neighbours of the
      opponent token t.  me is placed on each in turn; a capture there ends
      the scan with that cell; otherwise, unless the opponent could capture
      around it, it is removed from the list being iterated (so the next
      neighbour slides into its slot and is skipped) and its follow-up
      captures are tallied. */
  method ScanNeighbours(board: Board, me: Colour, t: Coord, choices: CaptureScan.Scan, ghost ref: Referee)
    returns (s: CaptureScan.Scan)
    requires Judges(ref, board.n) && choices.Tally?
    modifies board`occupied
    ensures board.occupied == old(board.occupied)
    ensures s == CaptureScan.NbScan(Scores.Pygame, ref, board.n, old(board.occupied), me,
                                    FindEmptyNeighbours(board.n, old(board.occupied), t), 0, choices)
  {
    ghost var occ := board.occupied;
    var empNbs := FindEmptyNeighbours(board.n, board.occupied, t);
    ghost var all := empNbs;
    s := choices;
    var i := 0;
    while i < |empNbs|
      invariant board.occupied == occ && s.Tally?
      invariant forall x :: x in empNbs ==> x !in occ
      invariant CaptureScan.NbScan(Scores.Pygame, ref, board.n, occ, me, empNbs, i, s) ==
                CaptureScan.NbScan(Scores.Pygame, ref, board.n, occ, me, all, 0, choices)
      decreases |empNbs| - i
    {
      var nb := empNbs[i];
      assert occ[nb := me] - {nb} == occ;
      board.PlaceUpdate(me, nb.0, nb.1);
      var captures := ValidCapture(board.n, board.occupied, me, nb.0, nb.1);
      if captures != {} {
        board.Remove(nb.0, nb.1);
        return CaptureScan.Found(nb);
      }
      var danger := CaptureDanger(board.n, board.occupied, Other(me), nb.0, nb.1);
      CaptureScan.JudgesDanger(ref, board.n, board.occupied, Other(me), nb);
      if !danger {
        empNbs := CaptureScan.RemoveAt(empNbs, i);
        s := CaptureScan.CountFollowUps(board.n, board.occupied, me, nb, empNbs, s, ref);
      }
      board.Remove(nb.0, nb.1);
      i := i + 1;
    }
  }

  /** go_capture(board, player): the opponent tokens in dictionary order
      (`keys`), each one's empty neighbours scanned in turn; a capturing
      cell is returned at once, and otherwise the first cell of largest
      tally, or None when nothing was tallied (an empty defaultdict is
      false).  The board is left as it was. */
  method GoCapture(board: Board, me: Colour, keys: seq<Coord>, ghost ref: Referee) returns (res: Option<Coord>)
    requires Judges(ref, board.n) && KeyOrder(board.occupied, keys)
    modifies board`occupied
    ensures board.occupied == old(board.occupied)
    ensures res == CaptureScan.GoCapture(Scores.Pygame, ref, board.n, old(board.occupied), me, keys)
  {
    var oppoTokens := FindSameTokens(board.occupied, Other(me), keys);
    var choices := ScanTokens(board, me, oppoTokens, ref);
    if choices.Found? {
      return Some(choices.cell);
    }
    if choices.order == [] {
      return None;
    }
    CaptureScan.FullScanShape(Scores.Pygame, ref, board.n, board.occupied, me, keys);
    res := Some(FirstMax(choices.order, Lift(choices.counts)));
  }

  /** The loop of go_capture over the opponent's tokens: each one's empty
      neighbours are scanned in turn, and the first capturing cell ends it. */
  method ScanTokens(board: Board, me: Colour, toks: seq<Coord>, ghost ref: Referee) returns (s: CaptureScan.Scan)
    requires Judges(ref, board.n)
    modifies board`occupied
    ensures board.occupied == old(board.occupied)
    ensures s == CaptureScan.TokScan(Scores.Pygame, ref, board.n, old(board.occupied), me, toks, 0, CaptureScan.Tally(map[], []))
  {
    ghost var occ := board.occupied;
    ghost var whole := CaptureScan.TokScan(Scores.Pygame, ref, board.n, occ, me, toks, 0, CaptureScan.Tally(map[], []));
    s := CaptureScan.Tally(map[], []);
    var j := 0;
    while j < |toks|
      invariant 0 <= j <= |toks|
      invariant board.occupied == occ && s.Tally?
      invariant CaptureScan.TokScan(Scores.Pygame, ref, board.n, occ, me, toks, j, s) == whole
    {
      var next := ScanNeighbours(board, me, toks[j], s, ref);
      CaptureScan.TokScanStep(Scores.Pygame, ref, board.n, occ, me, toks, j, s, next);
      if next.Found? {
        return next;
      }
      s := next;
      j := j + 1;
    }
  }

  // ---- minimax -----------------------------------------------------------------

  /** One root move of minimax: me places at c and captures, the reply is
      valued by get_min_value under the full window (-inf, +inf), and the
      board is put back.  The value is the child's minimax value. */
  method RootTrial(board: Board, me: Colour, depth: int, fuel: nat, cells: seq<Coord>, ghost g: Game, c: Coord)
    returns (w: Ext)
    requires depth != 0 && Plays(g, Scores.Pygame, board.n, me, depth)
    requires WellFormed(board.n, board.occupied) && Enumerates(board.n, cells)
    requires c in cells && c !in board.occupied
    modifies board`occupied
    ensures board.occupied == old(board.occupied)
    ensures w == MinValue(g, fuel, g.move(old(board.occupied), me, c), cells)
  {
    ghost var occ := board.occupied;
    var caps := TryMove(board, me, c);
    ghost var P := board.occupied;
    PlaceWellFormed(board.n, occ, me, c);
    w := GetMinValue(board, me, NegInf, PosInf, depth, fuel, cells, g);
    ClampFull(MinValue(g, fuel, P, cells));
    UndoMove(board, me, c, caps, occ);
    assert g.move(occ, me, c) == P;
  }

  /** One turn of the root loop: cells[i] is valued when it is empty. */
  method RootStep(board: Board, me: Colour, depth: int, fuel: nat, cells: seq<Coord>, ghost g: Game, i: int,
                  actions: map<Coord, Ext>, tried: seq<Coord>)
    returns (actions': map<Coord, Ext>, tried': seq<Coord>)
    requires depth != 0 && Plays(g, Scores.Pygame, board.n, me, depth) && g.me == me
    requires WellFormed(board.n, board.occupied) && Enumerates(board.n, cells) && 0 <= i < |cells|
    requires tried == EmptyOrder(board.occupied, cells[..i])
    requires actions == Choice.RootValuesUpTo(g, fuel, board.occupied, cells, i)
    modifies board`occupied
    ensures board.occupied == old(board.occupied)
    ensures tried' == EmptyOrder(board.occupied, cells[..i + 1])
    ensures actions' == Choice.RootValuesUpTo(g, fuel, board.occupied, cells, i + 1)
  {
    var coord := cells[i];
    assert cells[..i + 1][..i] == cells[..i];
    Choice.RootValuesStep(g, fuel, board.occupied, cells, i);
    actions', tried' := actions, tried;
    if coord !in board.occupied {
      var value := RootTrial(board, me, depth, fuel, cells, g, coord);
      actions' := actions[coord := value];
      tried' := tried + [coord];
    }
  }

  /** The root loop of minimax: every empty cell, in visiting order, valued
      by RootTrial into the actions dictionary, whose keys in insertion order
      are returned as well. */
  method RootScan(board: Board, me: Colour, depth: int, fuel: nat, cells: seq<Coord>, ghost g: Game)
    returns (actions: map<Coord, Ext>, tried: seq<Coord>)
    requires depth != 0 && Plays(g, Scores.Pygame, board.n, me, depth) && g.me == me
    requires WellFormed(board.n, board.occupied) && Enumerates(board.n, cells)
    modifies board`occupied
    ensures board.occupied == old(board.occupied)
    ensures tried == EmptyOrder(board.occupied, cells)
    ensures actions == Choice.RootValues(g, fuel, board.occupied, cells)
  {
    ghost var occ := board.occupied;
    actions := map[];
    tried := [];
    var i := 0;
    while i < |cells|
      invariant 0 <= i <= |cells|
      invariant board.occupied == occ
      invariant tried == EmptyOrder(occ, cells[..i])
      invariant actions == Choice.RootValuesUpTo(g, fuel, occ, cells, i)
    {
      actions, tried := RootStep(board, me, depth, fuel, cells, g, i, actions, tried);
      i := i + 1;
    }
    assert cells[..i] == cells;
    if cells == [] {
      assert actions == Choice.RootValues(g, fuel, occ, cells);
    } else {
      Choice.RootValuesStep(g, fuel, occ, cells, |cells| - 1);
    }
  }

  /** minimax(board, player, depth): every empty cell, in visiting order,
      is valued by the search below it; a game point found by
      check_game_point then overrides its cell's value with +inf (and is
      appended to the dictionary when it was not a key); the first cell of
      largest value is played.  The board is left as it was. */
  method Minimax(board: Board, me: Colour, depth: int, fuel: nat, cells: seq<Coord>) returns (c: Coord)
    requires depth != 0 && WellFormed(board.n, board.occupied) && Enumerates(board.n, cells)
    requires EmptyOrder(board.occupied, cells) != []
    modifies board`occupied
    ensures board.occupied == old(board.occupied)
    ensures Choice.RootOrder(Scores.Pygame, fuel, board.n, board.occupied, me, depth, cells) != []
    ensures c == Choice.Minimax(Scores.Pygame, fuel, board.n, board.occupied, me, depth, cells)
  {
    ghost var g := Rules(Scores.Pygame, board.n, me, depth);
    RulesPlays(Scores.Pygame, board.n, me, depth);
    var actions, tried := RootScan(board, me, depth, fuel, cells, g);
    JudgeJudges(board.n);
    var result := CheckGamePoint(board, me, Judge(board.n));
    if result.Some? {
      if result.value !in actions {
        tried := tried + [result.value];
      }
      actions := actions[result.value := PosInf];
    }
    c := FirstMax(tried, actions);
  }

  // ---- make_action ---------------------------------------------------------------

  /** make_action(board, player): the dispatch of the first agent variant,
      branch for branch; totalTime is the player's accumulated thinking
      time and keys the insertion order of board.occupied. */
  method MakeAction(board: Board, me: Colour, totalTime: real, fuel: nat, cells: seq<Coord>, keys: seq<Coord>)
    returns (c: Coord)
    requires WellFormed(board.n, board.occupied) && Enumerates(board.n, cells)
    requires EmptyOrder(board.occupied, cells) != [] && KeyOrder(board.occupied, keys)
    modifies board`occupied
    ensures board.occupied == old(board.occupied)
    ensures c == Choice.PygameAction(totalTime, fuel, board.n, board.occupied, me, cells, keys)
  {
    if totalTime > (board.n * board.n - 5) as real {
      c := GreedyProceed(board, me, cells);
      return;
    }
    var value := EvalBoard(board, me);
    var oppoValue := EvalBoard(board, Other(me));
    if board.n > 13 {
      if |board.occupied| < board.n {
        c := GreedyProceed(board, me, cells);
        return;
      }
      if value > oppoValue {
        c := Minimax(board, me, 1, fuel, cells);
        return;
      }
    }
    if value < oppoValue {
      JudgeJudges(board.n);
      var result := CheckGamePoint(board, me, Judge(board.n));
      if result.Some? {
        return result.value;
      }
      var action := GoCapture(board, me, keys, Judge(board.n));
      if action.Some? {
        return action.value;
      }
    }
    if board.n <= 5 {
      c := Minimax(board, me, 3, fuel, cells);
    } else {
      c := Minimax(board, me, 2, fuel, cells);
    }
  }

  // ---- random_first_move -------------------------------------------------------

  /** random_first_move(board, low, high): the first random draw, except
      that on Red's first move a draw on the board centre is redrawn until
      it misses the centre.  draws lists the successive draws of
      random.randint, and one of them misses the centre. */
  method RandomFirstMove(board: Board, low: int, high: int, draws: seq<Coord>) returns (c: Coord)
    requires forall i :: 0 <= i < |draws| ==> low <= draws[i].0 <= high && low <= draws[i].1 <= high
    requires exists i :: 0 <= i < |draws| && draws[i] != board.BoardCenter()
    ensures low <= c.0 <= high && low <= c.1 <= high
    ensures board.IsFirstMove(Red) ==> c != board.BoardCenter()
    ensures !board.IsFirstMove(Red) || draws[0] != board.BoardCenter() ==> c == draws[0]
    ensures exists k :: 0 <= k < |draws| && c == draws[k] &&
                        forall j :: 0 <= j < k ==> draws[j] == board.BoardCenter()
  {
    c := draws[0];
    if board.IsFirstMove(Red) && c == board.BoardCenter() {
      var i := 0;
      while c == board.BoardCenter()
        invariant 0 <= i < |draws| && c == draws[i]
        invariant forall j :: 0 <= j < i ==> draws[j] == board.BoardCenter()
        decreases |draws| - i
      {
        i := i + 1;
        c := draws[i];
      }
    }
  }
}
