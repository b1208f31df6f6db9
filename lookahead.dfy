/** The one-move lookahead of both strategy files: check_game_point scans
    the empty cells in row-major order for a cell where one move ends the
    game, and attempt_save_life looks for a way to stop an opponent who is
    one move from winning.  The functions below say what the scans return;
    the lemmas describe that result as the first cell of the scan where
    something happens. */
module Lookahead {
  import opened Hex
  import opened Connect
  import opened Scores

  /** The two judgements the lookahead asks of the board: who has won
      (end_game) and what a placement captures (valid_capture). */
  datatype Referee = Referee(winner: Occupancy -> Option<Colour>, captures: (Occupancy, Colour, Coord) -> set<Coord>)

  /** The referee of an n-by-n board. */
  ghost function Judge(n: int): Referee {
    Referee((occ: Occupancy) => Winner(n, occ), (occ: Occupancy, p: Colour, c: Coord) => CaptureSet(n, occ, p, c))
  }

  lemma JudgeWinner(n: int, occ: Occupancy)
    ensures Judge(n).winner(occ) == Winner(n, occ)
  {
  }

  lemma JudgeCaptures(n: int, occ: Occupancy, p: Colour, c: Coord)
    ensures Judge(n).captures(occ, p, c) == CaptureSet(n, occ, p, c)
  {
  }

  /** ref judges like the referee of an n-by-n board, stated cell by cell
      so that a proof can use it without unfolding Judge. */
  ghost predicate Judges(ref: Referee, n: int) {
    (forall occ {:trigger Winner(n, occ)} :: ref.winner(occ) == Winner(n, occ)) &&
    (forall occ, p, c {:trigger CaptureSet(n, occ, p, c)} :: ref.captures(occ, p, c) == CaptureSet(n, occ, p, c))
  }

  lemma JudgeJudges(n: int)
    ensures Judges(Judge(n), n)
  {
    forall occ ensures Judge(n).winner(occ) == Winner(n, occ) {
      JudgeWinner(n, occ);
    }
    forall occ, p, c ensures Judge(n).captures(occ, p, c) == CaptureSet(n, occ, p, c) {
      JudgeCaptures(n, occ, p, c);
    }
  }

  /** Cell d lies on the board at or after (r, q) in row-major order. */
  predicate Scanned(n: int, r: int, q: int, d: Coord) {
    0 <= d.0 < n && 0 <= d.1 < n && (d.0 > r || (d.0 == r && d.1 >= q))
  }

  /** Cell d comes strictly before cell e in row-major order. */
  predicate Before(d: Coord, e: Coord) {
    d.0 < e.0 || (d.0 == e.0 && d.1 < e.1)
  }

  // ---- attempt_save_life, pygame/strategy.py -------------------------------

  /** A capture at c that stops the opponent's win at gp: on the board cur,
      c is empty and not gp, playing c captures something, and with the
      opponent's token put back on gp nobody has won. */
  ghost predicate Rescues(ref: Referee, cur: Occupancy, me: Colour, gp: Coord, c: Coord) {
    var caps := ref.captures(cur[c := me], me, c);
    c !in cur && c != gp && caps != {} && ref.winner((cur[c := me] - caps)[gp := Other(me)]).None?
  }

  /** attempt_save_life(board, player, gp) in pygame/strategy.py from cell
      (r, q) on, on the board cur it is working on; it starts from the board
      with the game point gp removed.  A capture attempt that fails leaves
      the opponent's token on gp (recover_board does not remove it), so the
      scan goes on with that board.  Once the scan is over the agent tries
      gp itself. */
  ghost function SaveLifeFrom(ref: Referee, n: int, cur: Occupancy, me: Colour, gp: Coord, r: int, q: int): Option<Coord>
    requires 0 <= r && 0 <= q
    decreases n - r, n - q
  {
    if r >= n then (if ref.winner(cur[gp := me]).None? then Some(gp) else None)
    else if q >= n then SaveLifeFrom(ref, n, cur, me, gp, r + 1, 0)
    else
      match TryCell(ref, cur, me, gp, (r, q))
      case Skip => SaveLifeFrom(ref, n, cur, me, gp, r, q + 1)
      case Rescue => Some((r, q))
      case Miss => SaveLifeFrom(ref, n, cur[gp := Other(me)], me, gp, r, q + 1)
  }

  /** What attempt_save_life (pygame) makes of one cell c: it is skipped
      (occupied, gp itself, or no capture), it rescues, or its capture
      fails to stop the opponent. */
  datatype Attempt = Skip | Rescue | Miss

  ghost function TryCell(ref: Referee, cur: Occupancy, me: Colour, gp: Coord, c: Coord): (a: Attempt)
    ensures a == Rescue <==> Rescues(ref, cur, me, gp, c)
    ensures a != Skip ==> c !in cur && c != gp
  {
    if c in cur || c == gp then Skip
    else
      var caps := ref.captures(cur[c := me], me, c);
      if caps == {} then Skip
      else if ref.winner((cur[c := me] - caps)[gp := Other(me)]).None? then Rescue
      else Miss
  }

  /** The board attempt_save_life works on is the board B it started from,
      possibly with the opponent's token back on gp. */
  ghost predicate FromBoard(B: Occupancy, me: Colour, gp: Coord, cur: Occupancy) {
    cur == B || cur == B[gp := Other(me)]
  }

  /** What attempt_save_life (pygame) returns is the game point or a cell
      at or after the scan position. */
  lemma {:induction false} SaveLifeScanned(ref: Referee, n: int, cur: Occupancy, me: Colour, gp: Coord, r: int, q: int)
    requires 0 <= r && 0 <= q
    ensures var res := SaveLifeFrom(ref, n, cur, me, gp, r, q);
      res.Some? ==> res.value == gp || Scanned(n, r, q, res.value)
    decreases n - r, n - q
  {
    if r < n {
      var a := if q < n then TryCell(ref, cur, me, gp, (r, q)) else Skip;
      if a != Rescue {
        SaveLifeScanned(ref, n, if a == Miss then cur[gp := Other(me)] else cur, me, gp,
                        if q < n then r else r + 1, if q < n then q + 1 else 0);
      }
    }
  }

  /** ... and that cell is empty on the starting board B, whose tokens the
      working board cur keeps. */
  lemma {:induction false} SaveLifeEmpty(ref: Referee, n: int, B: Occupancy, cur: Occupancy, me: Colour, gp: Coord, r: int, q: int)
    requires 0 <= r && 0 <= q && B.Keys <= cur.Keys
    ensures var res := SaveLifeFrom(ref, n, cur, me, gp, r, q);
      res.Some? ==> res.value == gp || res.value !in B
    decreases n - r, n - q
  {
    if r < n {
      var a := if q < n then TryCell(ref, cur, me, gp, (r, q)) else Skip;
      if a != Rescue {
        SaveLifeEmpty(ref, n, B, if a == Miss then cur[gp := Other(me)] else cur, me, gp,
                      if q < n then r else r + 1, if q < n then q + 1 else 0);
      }
    }
  }

  /** The game point is returned only when taking it leaves nobody winning
      on the starting board B. */
  lemma {:induction false} SaveLifeFallback(ref: Referee, n: int, B: Occupancy, cur: Occupancy, me: Colour, gp: Coord, r: int, q: int)
    requires 0 <= r && 0 <= q && FromBoard(B, me, gp, cur)
    ensures SaveLifeFrom(ref, n, cur, me, gp, r, q) == Some(gp) ==> ref.winner(B[gp := me]).None?
    decreases n - r, n - q
  {
    if r >= n {
      assert cur[gp := me] == B[gp := me];
    } else {
      var a := if q < n then TryCell(ref, cur, me, gp, (r, q)) else Skip;
      if a != Rescue {
        assert B[gp := Other(me)][gp := Other(me)] == B[gp := Other(me)];
        SaveLifeFallback(ref, n, B, if a == Miss then cur[gp := Other(me)] else cur, me, gp,
                         if q < n then r else r + 1, if q < n then q + 1 else 0);
      }
    }
  }

  /** Any other cell is returned only when its captures stop the opponent
      on one of the boards the scan works on. */
  lemma {:induction false} SaveLifeSound(ref: Referee, n: int, B: Occupancy, cur: Occupancy, me: Colour, gp: Coord, r: int, q: int)
    requires 0 <= r && 0 <= q && FromBoard(B, me, gp, cur)
    ensures var res := SaveLifeFrom(ref, n, cur, me, gp, r, q);
      res.Some? && res.value != gp ==> exists cur' :: FromBoard(B, me, gp, cur') && Rescues(ref, cur', me, gp, res.value)
    decreases n - r, n - q
  {
    if r < n {
      var a := if q < n then TryCell(ref, cur, me, gp, (r, q)) else Skip;
      if a != Rescue {
        assert B[gp := Other(me)][gp := Other(me)] == B[gp := Other(me)];
        SaveLifeSound(ref, n, B, if a == Miss then cur[gp := Other(me)] else cur, me, gp,
                      if q < n then r else r + 1, if q < n then q + 1 else 0);
      }
    }
  }

  // ---- attempt_save_life, pygame2/strategy.py ------------------------------

  /** A rescue at c in pygame2: the captures valid_capture finds at c,
      computed without a token at c, are removed from the copy, the
      opponent's token is put back on gp, and nobody has won. */
  ghost predicate Rescues2(ref: Referee, n: int, B: Occupancy, me: Colour, gp: Coord, c: Coord) {
    ref.winner((B - ref.captures(B, me, c))[gp := Other(me)]).None?
  }

  /** attempt_save_life(end_board, player, gp) in pygame2/strategy.py from
      cell (r, q) on.  Every attempt works on a fresh copy of B, so nothing
      carries over from one cell to the next, and gp itself is tried. */
  ghost function SaveLife2From(ref: Referee, n: int, B: Occupancy, me: Colour, gp: Coord, r: int, q: int): Option<Coord>
    requires 0 <= r && 0 <= q
    decreases n - r, n - q
  {
    if r >= n then (if ref.winner(B[gp := me]).None? then Some(gp) else None)
    else if q >= n then SaveLife2From(ref, n, B, me, gp, r + 1, 0)
    else if (r, q) in B then SaveLife2From(ref, n, B, me, gp, r, q + 1)
    else if Rescues2(ref, n, B, me, gp, (r, q)) then Some((r, q))
    else SaveLife2From(ref, n, B, me, gp, r, q + 1)
  }

  /** When no cell from (r, q) on rescues, attempt_save_life (pygame2)
      falls back to the game point, or to nothing. */
  lemma {:induction false} SaveLife2Fallback(ref: Referee, n: int, B: Occupancy, me: Colour, gp: Coord, r: int, q: int)
    requires 0 <= r && 0 <= q
    requires forall d :: Scanned(n, r, q, d) && d !in B ==> !Rescues2(ref, n, B, me, gp, d)
    ensures SaveLife2From(ref, n, B, me, gp, r, q) == if ref.winner(B[gp := me]).None? then Some(gp) else None
    decreases n - r, n - q
  {
    if r < n {
      if q >= n {
        assert forall d :: Scanned(n, r + 1, 0, d) ==> Scanned(n, r, q, d);
        SaveLife2Fallback(ref, n, B, me, gp, r + 1, 0);
      } else {
        assert Scanned(n, r, q, (r, q));
        assert forall d :: Scanned(n, r, q + 1, d) ==> Scanned(n, r, q, d);
        SaveLife2Fallback(ref, n, B, me, gp, r, q + 1);
      }
    }
  }

  /** attempt_save_life (pygame2) returns the first empty cell in row-major
      order that rescues. */
  lemma {:induction false} SaveLife2First(ref: Referee, n: int, B: Occupancy, me: Colour, gp: Coord, r: int, q: int, e: Coord)
    requires 0 <= r && 0 <= q
    requires Scanned(n, r, q, e) && e !in B && Rescues2(ref, n, B, me, gp, e)
    requires forall d :: Scanned(n, r, q, d) && d !in B && Before(d, e) ==> !Rescues2(ref, n, B, me, gp, d)
    ensures SaveLife2From(ref, n, B, me, gp, r, q) == Some(e)
    decreases n - r, n - q
  {
    if q >= n {
      assert forall d :: Scanned(n, r + 1, 0, d) ==> Scanned(n, r, q, d);
      SaveLife2First(ref, n, B, me, gp, r + 1, 0, e);
    } else if e != (r, q) {
      assert Scanned(n, r, q, (r, q)) && Before((r, q), e);
      assert forall d :: Scanned(n, r, q + 1, d) ==> Scanned(n, r, q, d);
      SaveLife2First(ref, n, B, me, gp, r, q + 1, e);
    }
  }

  // ---- check_game_point, both files ----------------------------------------

  /** Placing me at the empty cell d wins the game outright. */
  ghost predicate Wins(ref: Referee, n: int, occ: Occupancy, me: Colour, d: Coord) {
    ref.winner(occ[d := me]) == Some(me)
  }

  /** The opponent wins by placing at the empty cell d. */
  ghost predicate Threat(ref: Referee, n: int, occ: Occupancy, me: Colour, d: Coord) {
    ref.winner(occ[d := Other(me)]) == Some(Other(me))
  }

  /** The answer of attempt_save_life to the threat at gp, per variant; the
      board it starts from is occ again, since its first act is to take the
      opponent's token off gp. */
  ghost function SaveLife(v: Variant, ref: Referee, n: int, occ: Occupancy, me: Colour, gp: Coord): Option<Coord> {
    if v == Pygame then SaveLifeFrom(ref, n, occ, me, gp, 0, 0) else SaveLife2From(ref, n, occ, me, gp, 0, 0)
  }

  /** check_game_point(board, player) from cell (r, q) on.  Some(c) is the
      pair (c, +inf) the source returns; None is its 0, which it also
      returns when a threat cannot be answered. */
  ghost function GamePointFrom(v: Variant, ref: Referee, n: int, occ: Occupancy, me: Colour, r: int, q: int): Option<Coord>
    requires 0 <= r && 0 <= q
    decreases n - r, n - q
  {
    if r >= n then None
    else if q >= n then GamePointFrom(v, ref, n, occ, me, r + 1, 0)
    else if (r, q) in occ then GamePointFrom(v, ref, n, occ, me, r, q + 1)
    else if Wins(ref, n, occ, me, (r, q)) then Some((r, q))
    else if Threat(ref, n, occ, me, (r, q)) then SaveLife(v, ref, n, occ, me, (r, q))
    else GamePointFrom(v, ref, n, occ, me, r, q + 1)
  }

  ghost function GamePoint(v: Variant, ref: Referee, n: int, occ: Occupancy, me: Colour): Option<Coord> {
    GamePointFrom(v, ref, n, occ, me, 0, 0)
  }

  /** Something happens at d: a win for me or a threat by the opponent. */
  ghost predicate Event(ref: Referee, n: int, occ: Occupancy, me: Colour, d: Coord) {
    Wins(ref, n, occ, me, d) || Threat(ref, n, occ, me, d)
  }

  /** With no empty cell from (r, q) on where either player wins with one
      move, check_game_point returns 0. */
  lemma {:induction false} GamePointQuiet(v: Variant, ref: Referee, n: int, occ: Occupancy, me: Colour, r: int, q: int)
    requires 0 <= r && 0 <= q
    requires forall d :: Scanned(n, r, q, d) && d !in occ ==> !Event(ref, n, occ, me, d)
    ensures GamePointFrom(v, ref, n, occ, me, r, q).None?
    decreases n - r, n - q
  {
    if r < n {
      if q >= n {
        assert forall d :: Scanned(n, r + 1, 0, d) ==> Scanned(n, r, q, d);
        GamePointQuiet(v, ref, n, occ, me, r + 1, 0);
      } else {
        assert Scanned(n, r, q, (r, q));
        assert forall d :: Scanned(n, r, q + 1, d) ==> Scanned(n, r, q, d);
        GamePointQuiet(v, ref, n, occ, me, r, q + 1);
      }
    }
  }

  /** check_game_point is decided by the first empty cell e, in row-major
      order, where either player wins with one move: a win for me at e is
      returned, otherwise the opponent's threat at e is answered by
      attempt_save_life, and a win for me further on is never looked at. */
  lemma {:induction false} GamePointFirst(v: Variant, ref: Referee, n: int, occ: Occupancy, me: Colour, r: int, q: int, e: Coord)
    requires 0 <= r && 0 <= q
    requires Scanned(n, r, q, e) && e !in occ && Event(ref, n, occ, me, e)
    requires forall d :: Scanned(n, r, q, d) && d !in occ && Before(d, e) ==> !Event(ref, n, occ, me, d)
    ensures GamePointFrom(v, ref, n, occ, me, r, q) ==
      if Wins(ref, n, occ, me, e) then Some(e) else SaveLife(v, ref, n, occ, me, e)
    decreases n - r, n - q
  {
    if q >= n {
      assert forall d :: Scanned(n, r + 1, 0, d) ==> Scanned(n, r, q, d);
      GamePointFirst(v, ref, n, occ, me, r + 1, 0, e);
    } else if e != (r, q) {
      assert Scanned(n, r, q, (r, q)) && Before((r, q), e);
      assert forall d :: Scanned(n, r, q + 1, d) ==> Scanned(n, r, q, d);
      GamePointFirst(v, ref, n, occ, me, r, q + 1, e);
    }
  }

  /** Every cell check_game_point returns is an empty cell of the board. */
  lemma GamePointEmpty(v: Variant, ref: Referee, n: int, occ: Occupancy, me: Colour)
    ensures GamePoint(v, ref, n, occ, me).Some? ==>
      InBounds(n, GamePoint(v, ref, n, occ, me).value) && GamePoint(v, ref, n, occ, me).value !in occ
  {
    GamePointEmptyFrom(v, ref, n, occ, me, 0, 0);
  }

  lemma {:induction false} GamePointEmptyFrom(v: Variant, ref: Referee, n: int, occ: Occupancy, me: Colour, r: int, q: int)
    requires 0 <= r && 0 <= q
    ensures GamePointFrom(v, ref, n, occ, me, r, q).Some? ==>
      InBounds(n, GamePointFrom(v, ref, n, occ, me, r, q).value) && GamePointFrom(v, ref, n, occ, me, r, q).value !in occ
    decreases n - r, n - q
  {
    if r < n {
      if q >= n {
        GamePointEmptyFrom(v, ref, n, occ, me, r + 1, 0);
      } else {
        GamePointEmptyFrom(v, ref, n, occ, me, r, q + 1);
        var gp := (r, q);
        if gp !in occ && !Wins(ref, n, occ, me, gp) && Threat(ref, n, occ, me, gp) {
          if v == Pygame {
            SaveLifeScanned(ref, n, occ, me, gp, 0, 0);
            SaveLifeEmpty(ref, n, occ, occ, me, gp, 0, 0);
          } else {
            SaveLife2Cell(ref, n, occ, me, gp, 0, 0);
          }
        }
      }
    }
  }

  /** attempt_save_life (pygame2) returns gp or an empty cell of the board. */
  lemma {:induction false} SaveLife2Cell(ref: Referee, n: int, B: Occupancy, me: Colour, gp: Coord, r: int, q: int)
    requires 0 <= r && 0 <= q
    ensures var res := SaveLife2From(ref, n, B, me, gp, r, q);
      res.Some? ==> res.value == gp || (Scanned(n, r, q, res.value) && res.value !in B)
    decreases n - r, n - q
  {
    if r < n {
      if q >= n {
        SaveLife2Cell(ref, n, B, me, gp, r + 1, 0);
      } else {
        SaveLife2Cell(ref, n, B, me, gp, r, q + 1);
      }
    }
  }
}
