/** pygame2/strategy.py: the functions the second agent variant decides
    with.  Every trial move is made on copy.deepcopy of the board (Copy),
    so none of these methods may change the board it is given: they have
    no modifies clause, and each is proved to compute the specification
    function of the same name on the board's occupancy.  The random
    cell-visiting order of the search loops is the parameter `cells`. */
module Pygame2Strategy {
  import opened Hex
  import opened Connect
  import opened Extended
  import Scores
  import opened Queries
  import opened Groups
  import opened Search
  import opened Lookahead
  import CaptureScan
  import Choice
  import opened Pygame2Board

  // ---- count_critical_tokens and eval ------------------------------------------

  /** The first loop of count_critical_tokens: the largest span over the
      groups. */
  method MaxGroupSpan(groups: seq<seq<Coord>>, p: Colour) returns (criticalLength: nat)
    ensures criticalLength == Scores.SpanPrefixMax(groups, p, |groups|)
  {
    criticalLength := 0;
    var g := 0;
    while g < |groups|
      invariant 0 <= g <= |groups|
      invariant criticalLength == Scores.SpanPrefixMax(groups, p, g)
    {
      var curLength := Scores.GroupSpan(groups[g], p);
      Scores.SpanPrefixStep(groups, p, g);
      if curLength > criticalLength {
        criticalLength := curLength;
      }
      g := g + 1;
    }
  }

  /** The bonus loop of count_critical_tokens: how many groups hold exactly
      L tokens (len(g), not the span). */
  method CountBySize(groups: seq<seq<Coord>>, L: nat) returns (num: nat)
    ensures num == |set i: nat | i < |groups| && |groups[i]| == L|
  {
    num := 0;
    var j := 0;
    while j < |groups|
      invariant 0 <= j <= |groups|
      invariant num == |set i: nat | i < j && |groups[i]| == L|
    {
      ghost var before := set i: nat | i < j && |groups[i]| == L;
      if |groups[j]| == L {
        assert (set i: nat | i < j + 1 && |groups[i]| == L) == before + {j};
        num := num + 1;
      } else {
        assert (set i: nat | i < j + 1 && |groups[i]| == L) == before;
      }
      j := j + 1;
    }
  }

  /** The groups holding as many tokens as the critical length are the
      critical groups of pygame2. */
  lemma CriticalGroupsBySize(n: int, occ: Occupancy, p: Colour, groups: seq<seq<Coord>>)
    requires WellFormed(n, occ) && IsPartition(n, occ, p, groups)
    ensures var L := Scores.CriticalLength(n, occ, p);
      |set i: nat | i < |groups| && |groups[i]| == L| == |Scores.CriticalGroups(Scores.Pygame2, n, occ, p)|
  {
    var L := Scores.CriticalLength(n, occ, p);
    var P := (C: set<Coord>) => |C| == L;
    Scores.CountMatching(n, occ, p, groups, P);
    SizeIndices(groups, L, P);
    assert Scores.CriticalGroups(Scores.Pygame2, n, occ, p) == set C | C in Components(n, occ, p) && P(C);
  }

  /** For lists without repeats, counting by list length is counting by
      the size of the cell set. */
  lemma SizeIndices(groups: seq<seq<Coord>>, L: nat, P: set<Coord> -> bool)
    requires forall i :: 0 <= i < |groups| ==> Distinct(groups[i])
    requires forall C :: P(C) == (|C| == L)
    ensures (set i: nat | i < |groups| && |groups[i]| == L) == (set i: nat | i < |groups| && P(Elems(groups[i])))
  {
    forall i | 0 <= i < |groups| ensures |Elems(groups[i])| == |groups[i]| {
      Scores.DistinctCard(groups[i]);
    }
  }

  /** count_critical_tokens(board, p): the critical length plus, when it
      exceeds 1, the number of groups of that many tokens. */
  method CountCriticalTokens(board: Board, p: Colour) returns (k: nat)
    requires WellFormed(board.n, board.occupied)
    ensures k == Scores.Criticals(Scores.Pygame2, board.n, board.occupied, p)
  {
    var groups := FindAllGroups(board.n, board.occupied, p);
    var criticalLength := MaxGroupSpan(groups, p);
    Scores.SpanPrefixAll(board.n, board.occupied, p, groups);
    var numCritGroup: nat := 0;
    if criticalLength > 1 {
      numCritGroup := CountBySize(groups, criticalLength);
      CriticalGroupsBySize(board.n, board.occupied, p, groups);
    }
    k := criticalLength + numCritGroup;
  }

  /** eval(board, player): the player's critical count plus its lead in
      tokens. */
  method EvalBoard(board: Board, p: Colour) returns (value: int)
    requires WellFormed(board.n, board.occupied)
    ensures value == Scores.Eval(Scores.Pygame2, board.n, board.occupied, p)
  {
    var redCritical := CountCriticalTokens(board, Red);
    var blueCritical := CountCriticalTokens(board, Blue);
    var redTokens: int := TokenCount(board.occupied, Red);
    var blueTokens: int := TokenCount(board.occupied, Blue);
    var redValue := redCritical + (redTokens - blueTokens);
    var blueValue := blueCritical + (blueTokens - redTokens);
    if p == Red {
      value := redValue;
    } else {
      value := blueValue;
    }
  }

  // ---- a trial move on a copy ----------------------------------------------------

  /** temp_board = copy.deepcopy(board); occupied[c] = p; capture_update of
      what valid_capture finds. */
  method TrialCopy(board: Board, p: Colour, c: Coord) returns (temp: Board)
    ensures fresh(temp) && temp.n == board.n
    ensures temp.occupied == Place(board.n, board.occupied, p, c)
  {
    temp := board.Copy();
    temp.PlaceUpdate(p, c.0, c.1);
    var caps := ValidCapture(temp.n, temp.occupied, p, c.0, c.1);
    if caps != {} {
      CaptureSetSoundAll(temp.n, temp.occupied, p, c);
      temp.CaptureUpdate(caps);
    }
  }

  // ---- get_max_value and get_min_value ---------------------------------------

  /** get_max_value(board, player, a, b, depth): me to move.  At a leaf it
      is eval; otherwise, in a window a <= b, it is the minimax value forced
      into [a, b] (fail-hard alpha-beta), and in an inverted window it is b
      as soon as there is a move to try, a when there is none. */
  method GetMaxValue(board: Board, me: Colour, a: Ext, b: Ext, depth: int, fuel: nat, cells: seq<Coord>, ghost g: Game)
    returns (r: Ext)
    requires depth != 0 && Plays(g, Scores.Pygame2, board.n, me, depth)
    requires WellFormed(board.n, board.occupied) && Enumerates(board.n, cells)
    ensures Leaf(g, fuel, board.occupied) ==>
      r == MaxValue(g, fuel, board.occupied, cells)
    ensures !Leaf(g, fuel, board.occupied) && Le(a, b) ==>
      r == Clamp(MaxValue(g, fuel, board.occupied, cells), a, b)
    ensures !Leaf(g, fuel, board.occupied) && !Le(a, b) ==>
      r == if EmptyOrder(board.occupied, cells) == [] then a else b
    decreases fuel, 3
  {
    ghost var occ := board.occupied;
    if Scores.Cutoff(Scores.Pygame2, board.n, board.occupied, depth) || fuel == 0 {
      var value := EvalBoard(board, me);
      return Fin(value);
    }
    var alpha := a;
    var i := 0;
    while i < |cells|
      invariant 0 <= i <= |cells|
      invariant Le(a, b) ==> Le(alpha, b)
      invariant Le(a, b) ==> Clamp(MaxFold(g, fuel, occ, cells, i), alpha, b) == Clamp(MaxFold(g, fuel, occ, cells, 0), a, b)
      invariant !Le(a, b) ==> alpha == a && forall j :: 0 <= j < i ==> cells[j] in occ
    {
      var cut;
      alpha, cut := MaxCell(board, me, a, b, alpha, depth, fuel, cells, g, i);
      if cut {
        return b;
      }
      i := i + 1;
    }
    if !Le(a, b) {
      AllTaken(occ, cells);
    }
    r := alpha;
  }

  /** get_min_value(board, player, a, b, depth): the opponent to move; the
      mirror image of GetMaxValue. */
  method GetMinValue(board: Board, me: Colour, a: Ext, b: Ext, depth: int, fuel: nat, cells: seq<Coord>, ghost g: Game)
    returns (r: Ext)
    requires depth != 0 && Plays(g, Scores.Pygame2, board.n, me, depth)
    requires WellFormed(board.n, board.occupied) && Enumerates(board.n, cells)
    ensures Leaf(g, fuel, board.occupied) ==>
      r == MinValue(g, fuel, board.occupied, cells)
    ensures !Leaf(g, fuel, board.occupied) && Le(a, b) ==>
      r == Clamp(MinValue(g, fuel, board.occupied, cells), a, b)
    ensures !Leaf(g, fuel, board.occupied) && !Le(a, b) ==>
      r == if EmptyOrder(board.occupied, cells) == [] then b else a
    decreases fuel, 3
  {
    ghost var occ := board.occupied;
    if Scores.Cutoff(Scores.Pygame2, board.n, board.occupied, depth) || fuel == 0 {
      var value := EvalBoard(board, me);
      return Fin(value);
    }
    var beta := b;
    var i := 0;
    while i < |cells|
      invariant 0 <= i <= |cells|
      invariant Le(a, b) ==> Le(a, beta)
      invariant Le(a, b) ==> Clamp(MinFold(g, fuel, occ, cells, i), a, beta) == Clamp(MinFold(g, fuel, occ, cells, 0), a, b)
      invariant !Le(a, b) ==> beta == b && forall j :: 0 <= j < i ==> cells[j] in occ
    {
      var cut;
      beta, cut := MinCell(board, me, a, b, beta, depth, fuel, cells, g, i);
      if cut {
        return a;
      }
      i := i + 1;
    }
    if !Le(a, b) {
      AllTaken(occ, cells);
    }
    r := beta;
  }

  /** One cell of get_max_value's loop: an empty cell is valued by
      MaxTrial and raises alpha; cut: the window closed (beta <= alpha). */
  method MaxCell(board: Board, me: Colour, a: Ext, b: Ext, alpha: Ext, depth: int, fuel: nat, cells: seq<Coord>,
                 ghost g: Game, i: int) returns (alpha': Ext, cut: bool)
    requires depth != 0 && Plays(g, Scores.Pygame2, board.n, me, depth) && fuel > 0
    requires WellFormed(board.n, board.occupied) && Enumerates(board.n, cells) && 0 <= i < |cells|
    requires Le(a, b) ==> Le(alpha, b)
    requires !Le(a, b) ==> alpha == a
    ensures cut && Le(a, b) ==> Clamp(MaxFold(g, fuel, board.occupied, cells, i), alpha, b) == b
    ensures cut && !Le(a, b) ==> EmptyOrder(board.occupied, cells) != []
    ensures !cut && Le(a, b) ==> Le(alpha', b)
    ensures !cut && Le(a, b) ==>
      Clamp(MaxFold(g, fuel, board.occupied, cells, i), alpha, b) == Clamp(MaxFold(g, fuel, board.occupied, cells, i + 1), alpha', b)
    ensures !cut && !Le(a, b) ==> alpha' == a && cells[i] in board.occupied
    decreases fuel, 2
  {
    ghost var occ := board.occupied;
    alpha', cut := alpha, false;
    var c := cells[i];
    if c !in board.occupied {
      var w := MaxTrial(board, me, alpha, b, depth, fuel, cells, g, c);
      if Le(a, b) {
        MaxFoldStep(g, fuel, occ, cells, i, alpha, b, w);
      } else {
        LeTotal(a, b);
        LeTrans(b, alpha, Max(alpha, w));
        assert c in EmptyOrder(occ, cells);
      }
      alpha' := Max(alpha, w);
      cut := Le(b, alpha');
    }
  }

  /** One cell of get_min_value's loop: an empty cell is valued by
      MinTrial and lowers beta; cut: the window closed (beta <= alpha). */
  method MinCell(board: Board, me: Colour, a: Ext, b: Ext, beta: Ext, depth: int, fuel: nat, cells: seq<Coord>,
                 ghost g: Game, i: int) returns (beta': Ext, cut: bool)
    requires depth != 0 && Plays(g, Scores.Pygame2, board.n, me, depth) && fuel > 0
    requires WellFormed(board.n, board.occupied) && Enumerates(board.n, cells) && 0 <= i < |cells|
    requires Le(a, b) ==> Le(a, beta)
    requires !Le(a, b) ==> beta == b
    ensures cut && Le(a, b) ==> Clamp(MinFold(g, fuel, board.occupied, cells, i), a, beta) == a
    ensures cut && !Le(a, b) ==> EmptyOrder(board.occupied, cells) != []
    ensures !cut && Le(a, b) ==> Le(a, beta')
    ensures !cut && Le(a, b) ==>
      Clamp(MinFold(g, fuel, board.occupied, cells, i), a, beta) == Clamp(MinFold(g, fuel, board.occupied, cells, i + 1), a, beta')
    ensures !cut && !Le(a, b) ==> beta' == b && cells[i] in board.occupied
    decreases fuel, 2
  {
    ghost var occ := board.occupied;
    beta', cut := beta, false;
    var c := cells[i];
    if c !in board.occupied {
      var w := MinTrial(board, me, a, beta, depth, fuel, cells, g, c);
      if Le(a, b) {
        MinFoldStep(g, fuel, occ, cells, i, a, beta, w);
      } else {
        LeTotal(a, b);
        LeTrans(Min(beta, w), beta, a);
        assert c in EmptyOrder(occ, cells);
      }
      beta' := Min(beta, w);
      cut := Le(beta', a);
    }
  }

  /** One move tried by get_max_value: me places at c on a copy and
      captures, and the opponent's reply is valued by get_min_value on the
      copy under [alpha, b]. */
  method MaxTrial(board: Board, me: Colour, alpha: Ext, b: Ext, depth: int, fuel: nat, cells: seq<Coord>, ghost g: Game, c: Coord)
    returns (w: Ext)
    requires depth != 0 && Plays(g, Scores.Pygame2, board.n, me, depth) && fuel > 0
    requires WellFormed(board.n, board.occupied) && Enumerates(board.n, cells)
    requires c in cells && c !in board.occupied
    ensures Le(alpha, b) ==> Clamp(w, alpha, b) == Clamp(MaxChild(g, fuel, board.occupied, cells, c), alpha, b)
    decreases fuel, 1
  {
    var temp := TrialCopy(board, me, c);
    ghost var P := temp.occupied;
    PlaceWellFormed(board.n, board.occupied, me, c);
    w := GetMinValue(temp, me, alpha, b, depth, fuel - 1, cells, g);
    ghost var V := MinValue(g, fuel - 1, P, cells);
    WindowAgrees(w, V, alpha, b, Leaf(g, fuel - 1, P));
    assert MaxChild(g, fuel, board.occupied, cells, c) == V;
  }

  /** One move tried by get_min_value: the opponent places at c on a copy. */
  method MinTrial(board: Board, me: Colour, a: Ext, beta: Ext, depth: int, fuel: nat, cells: seq<Coord>, ghost g: Game, c: Coord)
    returns (w: Ext)
    requires depth != 0 && Plays(g, Scores.Pygame2, board.n, me, depth) && fuel > 0
    requires WellFormed(board.n, board.occupied) && Enumerates(board.n, cells)
    requires c in cells && c !in board.occupied
    ensures Le(a, beta) ==> Clamp(w, a, beta) == Clamp(MinChild(g, fuel, board.occupied, cells, c), a, beta)
    decreases fuel, 1
  {
    var temp := TrialCopy(board, Other(me), c);
    ghost var P := temp.occupied;
    PlaceWellFormed(board.n, board.occupied, Other(me), c);
    w := GetMaxValue(temp, me, a, beta, depth, fuel - 1, cells, g);
    ghost var V := MaxValue(g, fuel - 1, P, cells);
    WindowAgrees(w, V, a, beta, Leaf(g, fuel - 1, P));
    assert MinChild(g, fuel, board.occupied, cells, c) == V;
  }

  // ---- attempt_save_life and check_game_point --------------------------------

  /** Some empty board cell rescues from the threat at gp. */
  ghost predicate AnyRescue(ref: Referee, n: int, B: Occupancy, me: Colour, gp: Coord) {
    exists d :: Scanned(n, 0, 0, d) && d !in B && Rescues2(ref, n, B, me, gp, d)
  }

  /** One capture attempt of attempt_save_life at c, on a copy: what
      valid_capture finds is removed without placing at c, the opponent's
      token is put back on gp, and end_game is asked. */
  method RescueAttempt(board: Board, me: Colour, gp: Coord, c: Coord, ghost ref: Referee) returns (saved: bool)
    requires Judges(ref, board.n)
    ensures saved <==> Rescues2(ref, board.n, board.occupied, me, gp, c)
  {
    var trial := board.Copy();
    var captures := ValidCapture(trial.n, trial.occupied, me, c.0, c.1);
    CaptureSetSoundAll(trial.n, trial.occupied, me, c);
    if captures != {} {
      trial.CaptureUpdate(captures);
    }
    trial.PlaceUpdate(Other(me), gp.0, gp.1);
    assert trial.occupied == (board.occupied - CaptureSet(board.n, board.occupied, me, c))[gp := Other(me)];
    var winner := EndGame(trial.n, trial.occupied);
    saved := winner.None?;
  }

  /** attempt_save_life(end_board, player, gp): gp holds the opponent's
      winning token, which is taken off; then every empty cell in row-major
      order, gp included, is tried as a rescue on a copy; the first that
      works is the answer.  Failing that, me takes gp on end_board itself,
      which is the answer when nobody has won then. */
  method AttemptSaveLife(endBoard: Board, me: Colour, gp: Coord, ghost ref: Referee) returns (res: Option<Coord>)
    requires Judges(ref, endBoard.n) && gp in endBoard.occupied
    modifies endBoard`occupied
    ensures res == SaveLife2From(ref, endBoard.n, old(endBoard.occupied) - {gp}, me, gp, 0, 0)
    ensures var B := old(endBoard.occupied) - {gp};
      endBoard.occupied == if AnyRescue(ref, endBoard.n, B, me, gp) then B else B[gp := me]
  {
    endBoard.Remove(gp.0, gp.1);
    ghost var B := endBoard.occupied;
    var r := 0;
    while r < endBoard.n
      invariant 0 <= r && endBoard.occupied == B
      invariant SaveLife2From(ref, endBoard.n, B, me, gp, r, 0) == SaveLife2From(ref, endBoard.n, B, me, gp, 0, 0)
      invariant forall d :: Scanned(endBoard.n, 0, 0, d) && d !in B && !Scanned(endBoard.n, r, 0, d) ==>
        !Rescues2(ref, endBoard.n, B, me, gp, d)
      decreases endBoard.n - r
    {
      var saved, c := RescueRow(endBoard, me, gp, r, ref);
      if saved {
        return Some(c);
      }
      r := r + 1;
    }
    assert !AnyRescue(ref, endBoard.n, B, me, gp);
    endBoard.PlaceUpdate(me, gp.0, gp.1);
    var winner := EndGame(endBoard.n, endBoard.occupied);
    if winner.None? {
      return Some(gp);
    }
    return None;
  }

  /** Row r of attempt_save_life's scan.  saved: the row holds the first
      rescue, c; otherwise none of its empty cells rescues. */
  method RescueRow(board: Board, me: Colour, gp: Coord, r: int, ghost ref: Referee) returns (saved: bool, c: Coord)
    requires Judges(ref, board.n) && 0 <= r < board.n
    ensures saved ==> SaveLife2From(ref, board.n, board.occupied, me, gp, r, 0) == Some(c) &&
                      Scanned(board.n, 0, 0, c) && c !in board.occupied && Rescues2(ref, board.n, board.occupied, me, gp, c)
    ensures !saved ==> SaveLife2From(ref, board.n, board.occupied, me, gp, r, 0) ==
                       SaveLife2From(ref, board.n, board.occupied, me, gp, r + 1, 0)
    ensures !saved ==> forall d: Coord :: d.0 == r && 0 <= d.1 < board.n && d !in board.occupied ==>
                         !Rescues2(ref, board.n, board.occupied, me, gp, d)
  {
    var q := 0;
    while q < board.n
      invariant 0 <= q
      invariant SaveLife2From(ref, board.n, board.occupied, me, gp, r, q) == SaveLife2From(ref, board.n, board.occupied, me, gp, r, 0)
      invariant forall d: Coord :: d.0 == r && 0 <= d.1 < q && d.1 < board.n && d !in board.occupied ==>
        !Rescues2(ref, board.n, board.occupied, me, gp, d)
      decreases board.n - q
    {
      if (r, q) !in board.occupied {
        saved := RescueAttempt(board, me, gp, (r, q), ref);
        if saved {
          return saved, (r, q);
        }
      }
      q := q + 1;
    }
    saved, c := false, gp;
  }

  /** check_game_point(board, player): the empty cells in row-major order,
      each tried on a copy; the first where me wins is returned, and at the
      first where the opponent would win, attempt_save_life answers on that
      copy (None when it finds no answer).  The value the source pairs with
      a returned cell is always +inf and is left implicit. */
  method CheckGamePoint(board: Board, me: Colour, ghost ref: Referee) returns (res: Option<Coord>)
    requires Judges(ref, board.n)
    ensures res == GamePoint(Scores.Pygame2, ref, board.n, board.occupied, me)
  {
    var r := 0;
    while r < board.n
      invariant 0 <= r
      invariant GamePointFrom(Scores.Pygame2, ref, board.n, board.occupied, me, r, 0) == GamePoint(Scores.Pygame2, ref, board.n, board.occupied, me)
      decreases board.n - r
    {
      var stop;
      stop, res := GamePointRow(board, me, r, ref);
      if stop {
        return res;
      }
      r := r + 1;
    }
    return None;
  }

  /** Row r of check_game_point's scan.  stop: the scan ends in this row
      with res. */
  method GamePointRow(board: Board, me: Colour, r: int, ghost ref: Referee) returns (stop: bool, res: Option<Coord>)
    requires Judges(ref, board.n) && 0 <= r < board.n
    ensures stop ==> res == GamePointFrom(Scores.Pygame2, ref, board.n, board.occupied, me, r, 0)
    ensures !stop ==> GamePointFrom(Scores.Pygame2, ref, board.n, board.occupied, me, r, 0) ==
                      GamePointFrom(Scores.Pygame2, ref, board.n, board.occupied, me, r + 1, 0)
  {
    var q := 0;
    while q < board.n
      invariant 0 <= q
      invariant GamePointFrom(Scores.Pygame2, ref, board.n, board.occupied, me, r, q) ==
                GamePointFrom(Scores.Pygame2, ref, board.n, board.occupied, me, r, 0)
      decreases board.n - q
    {
      stop, res := GamePointCell(board, me, r, q, ref);
      if stop {
        return;
      }
      q := q + 1;
    }
    stop, res := false, None;
  }

  /** One cell (r, q) of check_game_point's scan, tried on copies.  stop:
      the scan ends at this cell with res. */
  method GamePointCell(board: Board, me: Colour, r: int, q: int, ghost ref: Referee) returns (stop: bool, res: Option<Coord>)
    requires Judges(ref, board.n) && 0 <= r < board.n && 0 <= q < board.n
    ensures stop ==> res == GamePointFrom(Scores.Pygame2, ref, board.n, board.occupied, me, r, q)
    ensures !stop ==> GamePointFrom(Scores.Pygame2, ref, board.n, board.occupied, me, r, q) ==
                      GamePointFrom(Scores.Pygame2, ref, board.n, board.occupied, me, r, q + 1)
  {
    ghost var occ := board.occupied;
    stop, res := false, None;
    if (r, q) !in board.occupied {
      var trial := board.Copy();
      trial.PlaceUpdate(me, r, q);
      var winner := EndGame(trial.n, trial.occupied);
      if winner == Some(me) {
        assert Wins(ref, board.n, occ, me, (r, q));
        return true, Some((r, q));
      }
      stop, res := OpponentTrial(trial, me, r, q, ref, occ);
    }
  }

  /** The second half of a cell of check_game_point: the trial copy, where
      me was placed at (r, q), gets the opponent's token there instead; when
      that wins, attempt_save_life answers on the copy. */
  method OpponentTrial(trial: Board, me: Colour, r: int, q: int, ghost ref: Referee, ghost occ: Occupancy)
    returns (stop: bool, res: Option<Coord>)
    requires Judges(ref, trial.n) && (r, q) !in occ && trial.occupied == occ[(r, q) := me]
    modifies trial`occupied
    ensures stop <==> Threat(ref, trial.n, occ, me, (r, q))
    ensures stop ==> res == SaveLife(Scores.Pygame2, ref, trial.n, occ, me, (r, q))
  {
    stop, res := false, None;
    trial.PlaceUpdate(Other(me), r, q);
    assert trial.occupied == occ[(r, q) := Other(me)];
    var winner := EndGame(trial.n, trial.occupied);
    if winner == Some(Other(me)) {
      assert occ[(r, q) := Other(me)] - {(r, q)} == occ;
      res := AttemptSaveLife(trial, me, (r, q), ref);
      stop := true;
    }
  }

  // ---- go_capture ------------------------------------------------------------

  /** The inner loop of go_capture over the empty neighbours of the
      opponent token t: me is placed on each in turn, on a copy; a capture
      there ends the scan with that cell; otherwise it is removed from the
      list being iterated (so the next neighbour slides into its slot and
      is skipped) and its follow-up captures on the copy are tallied. */
  method ScanNeighbours(board: Board, me: Colour, t: Coord, choices: CaptureScan.Scan, ghost ref: Referee)
    returns (s: CaptureScan.Scan)
    requires Judges(ref, board.n) && choices.Tally?
    ensures s == CaptureScan.NbScan(Scores.Pygame2, ref, board.n, board.occupied, me,
                                    FindEmptyNeighbours(board.n, board.occupied, t), 0, choices)
  {
    var empNbs := FindEmptyNeighbours(board.n, board.occupied, t);
    ghost var all := empNbs;
    s := choices;
    var i := 0;
    while i < |empNbs|
      invariant s.Tally?
      invariant CaptureScan.NbScan(Scores.Pygame2, ref, board.n, board.occupied, me, empNbs, i, s) ==
                CaptureScan.NbScan(Scores.Pygame2, ref, board.n, board.occupied, me, all, 0, choices)
      decreases |empNbs| - i
    {
      var nb := empNbs[i];
      var trail := board.Copy();
      trail.PlaceUpdate(me, nb.0, nb.1);
      var captures := ValidCapture(trail.n, trail.occupied, me, nb.0, nb.1);
      if captures != {} {
        return CaptureScan.Found(nb);
      }
      empNbs := CaptureScan.RemoveAt(empNbs, i);
      s := CaptureScan.CountFollowUps(trail.n, trail.occupied, me, nb, empNbs, s, ref);
      i := i + 1;
    }
  }

  /** go_capture(board, player): the opponent tokens in dictionary order
      (`keys`); a token without a neighbour of its own colour is skipped,
      and the empty neighbours of the others are scanned in turn.  A
      capturing cell is returned at once, and otherwise the first cell of
      largest tally, or None when nothing was tallied. */
  method GoCapture(board: Board, me: Colour, keys: seq<Coord>, ghost ref: Referee) returns (res: Option<Coord>)
    requires Judges(ref, board.n) && KeyOrder(board.occupied, keys)
    ensures res == CaptureScan.GoCapture(Scores.Pygame2, ref, board.n, board.occupied, me, keys)
  {
    var oppoTokens := FindSameTokens(board.occupied, Other(me), keys);
    var choices := ScanTokens(board, me, oppoTokens, ref);
    if choices.Found? {
      return Some(choices.cell);
    }
    if choices.order == [] {
      return None;
    }
    CaptureScan.FullScanShape(Scores.Pygame2, ref, board.n, board.occupied, me, keys);
    res := Some(FirstMax(choices.order, Lift(choices.counts)));
  }

  /** The loop of go_capture over the opponent's tokens: a token with a
      neighbour of its own colour has its empty neighbours scanned, and the
      first capturing cell ends it. */
  method ScanTokens(board: Board, me: Colour, toks: seq<Coord>, ghost ref: Referee) returns (s: CaptureScan.Scan)
    requires Judges(ref, board.n)
    ensures s == CaptureScan.TokScan(Scores.Pygame2, ref, board.n, board.occupied, me, toks, 0, CaptureScan.Tally(map[], []))
  {
    ghost var whole := CaptureScan.TokScan(Scores.Pygame2, ref, board.n, board.occupied, me, toks, 0, CaptureScan.Tally(map[], []));
    s := CaptureScan.Tally(map[], []);
    var j := 0;
    while j < |toks|
      invariant 0 <= j <= |toks| && s.Tally?
      invariant CaptureScan.TokScan(Scores.Pygame2, ref, board.n, board.occupied, me, toks, j, s) == whole
    {
      var next := ScanToken(board, me, toks, j, s, ref);
      if next.Found? {
        return next;
      }
      s := next;
      j := j + 1;
    }
  }

  /** One opponent token of go_capture: scanned when it has a neighbour of
      its own colour, skipped otherwise. */
  method ScanToken(board: Board, me: Colour, toks: seq<Coord>, j: int, s: CaptureScan.Scan, ghost ref: Referee)
    returns (next: CaptureScan.Scan)
    requires Judges(ref, board.n) && 0 <= j < |toks| && s.Tally?
    ensures next.Found? ==>
      CaptureScan.TokScan(Scores.Pygame2, ref, board.n, board.occupied, me, toks, j, s) == next
    ensures next.Tally? ==>
      CaptureScan.TokScan(Scores.Pygame2, ref, board.n, board.occupied, me, toks, j, s) ==
      CaptureScan.TokScan(Scores.Pygame2, ref, board.n, board.occupied, me, toks, j + 1, next)
  {
    var t := toks[j];
    var sameNbs := FindNeighbours(board.n, board.occupied, t, Some(Other(me)));
    if sameNbs != [] {
      next := ScanNeighbours(board, me, t, s, ref);
      CaptureScan.TokScanStep(Scores.Pygame2, ref, board.n, board.occupied, me, toks, j, s, next);
    } else {
      next := s;
      CaptureScan.TokScanSkip(Scores.Pygame2, ref, board.n, board.occupied, me, toks, j, s);
    }
  }

  // ---- minimax and make_action ------------------------------------------------

  /** One root move of minimax: me places at c on a copy and captures, and
      the reply is valued by get_min_value under the full window
      (-inf, +inf).  The value is the child's minimax value. */
  method RootTrial(board: Board, me: Colour, depth: int, fuel: nat, cells: seq<Coord>, ghost g: Game, c: Coord)
    returns (w: Ext)
    requires depth != 0 && Plays(g, Scores.Pygame2, board.n, me, depth)
    requires WellFormed(board.n, board.occupied) && Enumerates(board.n, cells)
    requires c in cells && c !in board.occupied
    ensures w == MinValue(g, fuel, g.move(board.occupied, me, c), cells)
  {
    var temp := TrialCopy(board, me, c);
    ghost var P := temp.occupied;
    PlaceWellFormed(board.n, board.occupied, me, c);
    w := GetMinValue(temp, me, NegInf, PosInf, depth, fuel, cells, g);
    ClampFull(MinValue(g, fuel, P, cells));
    assert g.move(board.occupied, me, c) == P;
  }

  /** One cell of the root loop of minimax: cells[i], when empty, is valued
      by RootTrial and added to the actions dictionary and its key order. */
  method RootStep(board: Board, me: Colour, depth: int, fuel: nat, cells: seq<Coord>, ghost g: Game, i: int,
                  actions: map<Coord, Ext>, tried: seq<Coord>)
    returns (actions': map<Coord, Ext>, tried': seq<Coord>)
    requires depth != 0 && Plays(g, Scores.Pygame2, board.n, me, depth) && g.me == me
    requires WellFormed(board.n, board.occupied) && Enumerates(board.n, cells) && 0 <= i < |cells|
    requires tried == EmptyOrder(board.occupied, cells[..i])
    requires actions == Choice.RootValuesUpTo(g, fuel, board.occupied, cells, i)
    ensures tried' == EmptyOrder(board.occupied, cells[..i + 1])
    ensures actions' == Choice.RootValuesUpTo(g, fuel, board.occupied, cells, i + 1)
  {
    var coord := cells[i];
    assert cells[..i + 1][..i] == cells[..i];
    Choice.RootValuesStep(g, fuel, board.occupied, cells, i);
    actions', tried' := actions, tried;
    if coord !in board.occupied {
      var value := RootTrial(board, me, depth, fuel, cells, g, coord);
      actions' := actions[coord := value];
      tried' := tried + [coord];
    }
  }

  /** The root loop of minimax: every empty cell, in visiting order, valued
      by RootTrial into the actions dictionary, whose keys in insertion order
      are returned as well. */
  method RootScan(board: Board, me: Colour, depth: int, fuel: nat, cells: seq<Coord>, ghost g: Game)
    returns (actions: map<Coord, Ext>, tried: seq<Coord>)
    requires depth != 0 && Plays(g, Scores.Pygame2, board.n, me, depth) && g.me == me
    requires WellFormed(board.n, board.occupied) && Enumerates(board.n, cells)
    ensures tried == EmptyOrder(board.occupied, cells)
    ensures actions == Choice.RootValues(g, fuel, board.occupied, cells)
  {
    actions := map[];
    tried := [];
    var i := 0;
    while i < |cells|
      invariant 0 <= i <= |cells|
      invariant tried == EmptyOrder(board.occupied, cells[..i])
      invariant actions == Choice.RootValuesUpTo(g, fuel, board.occupied, cells, i)
    {
      actions, tried := RootStep(board, me, depth, fuel, cells, g, i, actions, tried);
      i := i + 1;
    }
    assert cells[..i] == cells;
    if cells == [] {
      assert actions == Choice.RootValues(g, fuel, board.occupied, cells);
    } else {
      Choice.RootValuesStep(g, fuel, board.occupied, cells, |cells| - 1);
    }
  }

  /** minimax(board, player, depth): every empty cell, in visiting order,
      is valued by the search below it; a game point found by
      check_game_point then overrides its cell's value with +inf (and is
      appended to the dictionary when it was not a key); the first cell of
      largest value is played. */
  method Minimax(board: Board, me: Colour, depth: int, fuel: nat, cells: seq<Coord>) returns (c: Coord)
    requires depth != 0 && WellFormed(board.n, board.occupied) && Enumerates(board.n, cells)
    requires EmptyOrder(board.occupied, cells) != []
    ensures Choice.RootOrder(Scores.Pygame2, fuel, board.n, board.occupied, me, depth, cells) != []
    ensures c == Choice.Minimax(Scores.Pygame2, fuel, board.n, board.occupied, me, depth, cells)
  {
    ghost var g := Rules(Scores.Pygame2, board.n, me, depth);
    RulesPlays(Scores.Pygame2, board.n, me, depth);
    var actions, tried := RootScan(board, me, depth, fuel, cells, g);
    JudgeJudges(board.n);
    var result := CheckGamePoint(board, me, Judge(board.n));
    if result.Some? {
      if result.value !in actions {
        tried := tried + [result.value];
      }
      actions := actions[result.value := PosInf];
    }
    c := FirstMax(tried, actions);
  }

  /** make_action(board, player): always minimax(board, player, 1), so by
      Choice.MinimaxDepthOne every root value is eval after one placement,
      and a game point is always played. */
  method MakeAction(board: Board, me: Colour, fuel: nat, cells: seq<Coord>) returns (c: Coord)
    requires WellFormed(board.n, board.occupied) && Enumerates(board.n, cells)
    requires EmptyOrder(board.occupied, cells) != []
    ensures c == Choice.Minimax(Scores.Pygame2, fuel, board.n, board.occupied, me, 1, cells)
    ensures InBounds(board.n, c) && c !in board.occupied
    ensures GamePoint(Scores.Pygame2, Judge(board.n), board.n, board.occupied, me).Some? ==>
      c == GamePoint(Scores.Pygame2, Judge(board.n), board.n, board.occupied, me).value
  {
    c := Minimax(board, me, 1, fuel, cells);
    Choice.MinimaxBest(Scores.Pygame2, fuel, board.n, board.occupied, me, 1, cells);
    Choice.MinimaxDepthOne(Scores.Pygame2, fuel, board.n, board.occupied, me, cells);
  }

  // ---- random_move -------------------------------------------------------------

  /** random_move(occupied, low, high): random draws until one misses the
      occupied cells.  draws lists the successive draws of random.randint,
      and one of them is free. */
  method RandomMove(occupied: Occupancy, low: int, high: int, draws: seq<Coord>) returns (c: Coord)
    requires forall i :: 0 <= i < |draws| ==> low <= draws[i].0 <= high && low <= draws[i].1 <= high
    requires exists i :: 0 <= i < |draws| && draws[i] !in occupied
    ensures low <= c.0 <= high && low <= c.1 <= high && c !in occupied
    ensures exists k :: 0 <= k < |draws| && c == draws[k] &&
                        forall j :: 0 <= j < k ==> draws[j] in occupied
  {
    var i := 0;
    c := draws[0];
    while c in occupied
      invariant 0 <= i < |draws| && c == draws[i]
      invariant forall j :: 0 <= j < i ==> draws[j] in occupied
      decreases |draws| - i
    {
      i := i + 1;
      c := draws[i];
    }
  }
}
