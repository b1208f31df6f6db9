/** The Player of the first agent variant.  It keeps its own board and the
    repetition ledger, answers the opening by the first-move rules, and
    otherwise plays what make_action chooses, choosing again while the
    board after the move has already been seen six times. */
module PygamePlayer {
  import opened Hex
  import opened Queries
  import opened PygameBoard
  import PygameStrategy

  // ---- the repetition ledger ----------------------------------------------------

  /** same_count.get(frozenset(occ.items())) as a number: 0 for a
      configuration never recorded (get gives None, which is never 6). */
  function Seen(ledger: map<Snapshot, int>, occ: Occupancy): int {
    var s := SnapshotOf(occ);
    if s in ledger then ledger[s] else 0
  }

  /** The ledger update at the end of turn: occ is counted once more, and a
      configuration never seen before starts at 1. */
  function Record(ledger: map<Snapshot, int>, occ: Occupancy): (l: map<Snapshot, int>)
    ensures Seen(l, occ) == Seen(ledger, occ) + 1
    ensures Seen(ledger, occ) == 0 ==> Seen(l, occ) == 1
    ensures l.Keys == ledger.Keys + {SnapshotOf(occ)}
  {
    var s := SnapshotOf(occ);
    if s in ledger then ledger[s := ledger[s] + 1] else ledger[s := 1]
  }

  /** Recording one configuration leaves the count of every other
      configuration as it was: different boards have different snapshots. */
  lemma RecordOthers(ledger: map<Snapshot, int>, occ: Occupancy, other: Occupancy)
    requires other != occ
    ensures Seen(Record(ledger, occ), other) == Seen(ledger, other)
  {
    if SnapshotOf(other) == SnapshotOf(occ) {
      SnapshotDetermines(other, occ);
    }
  }

  // ---- the moves action() tries -------------------------------------------------

  /** The player's own tokens on the cells it has tried. */
  function Mine(tried: seq<Coord>, p: Colour): (m: Occupancy)
    ensures m.Keys == set c | c in tried
  {
    map c | c in tried :: p
  }

  /** B with the tried cells as the player's tokens, one move at a time. */
  function Marked(B: Occupancy, tried: seq<Coord>, p: Colour): Occupancy
    decreases |tried|
  {
    if |tried| == 0 then B else Marked(B, tried[..|tried| - 1], p)[tried[|tried| - 1] := p]
  }

  /** Marking the tried cells one at a time puts Mine on top of B. */
  lemma {:induction false} MarkedMine(B: Occupancy, tried: seq<Coord>, p: Colour)
    ensures Marked(B, tried, p) == B + Mine(tried, p)
    decreases |tried|
  {
    if |tried| > 0 {
      var init := tried[..|tried| - 1];
      MarkedMine(B, init, p);
      assert tried == init + [tried[|tried| - 1]];
      assert (B + Mine(init, p))[tried[|tried| - 1] := p] == B + Mine(tried, p);
    }
  }

  function Last(s: seq<Coord>): Coord
    requires |s| > 0
  {
    s[|s| - 1]
  }

  /** The tried cells are distinct and empty on the board B. */
  predicate Fresh(B: Occupancy, tried: seq<Coord>) {
    (forall i :: 0 <= i < |tried| ==> tried[i] !in B) &&
    (forall i, j :: 0 <= i < j < |tried| ==> tried[i] != tried[j])
  }

  /** The moves action() of pygame/player.py tries on the board B, given
      the moves tried so far: while the board after the latest one has been
      seen six times, the next is make_action's answer (choose) on B with
      every move tried so far on it as the player's own token.  At most
      rounds more moves are tried. */
  function Tries(n: int, B: Occupancy, me: Colour, choose: Occupancy -> Coord, ledger: map<Snapshot, int>,
                 tried: seq<Coord>, rounds: nat): (t: seq<Coord>)
    requires |tried| > 0
    ensures |t| > 0
    decreases rounds
  {
    if Seen(ledger, Place(n, B, me, Last(tried))) != 6 || rounds == 0 then tried
    else Tries(n, B, me, choose, ledger, tried + [choose(Marked(B, tried, me))], rounds - 1)
  }

  /** T is what Tries lists from the moves tried so far, rounds more at most. */
  ghost predicate OnTrack(T: seq<Coord>, n: int, B: Occupancy, me: Colour, choose: Occupancy -> Coord,
                          ledger: map<Snapshot, int>, tried: seq<Coord>, rounds: nat)
  {
    |tried| > 0 && T == Tries(n, B, me, choose, ledger, tried, rounds)
  }

  /** The moves given are the first ones tried, and at most rounds more
      follow them. */
  lemma {:induction false} TriesPrefix(n: int, B: Occupancy, me: Colour, choose: Occupancy -> Coord,
                                       ledger: map<Snapshot, int>, tried: seq<Coord>, rounds: nat)
    requires |tried| > 0
    ensures var t := Tries(n, B, me, choose, ledger, tried, rounds);
      |tried| <= |t| <= |tried| + rounds && t[..|tried|] == tried
    decreases rounds
  {
    if Seen(ledger, Place(n, B, me, Last(tried))) == 6 && rounds > 0 {
      var next := tried + [choose(Marked(B, tried, me))];
      TriesPrefix(n, B, me, choose, ledger, next, rounds - 1);
      var t := Tries(n, B, me, choose, ledger, next, rounds - 1);
      assert t[..|next|][..|tried|] == tried;
    }
  }

  /** One round of the loop: a move whose board was seen six times is
      followed by make_action's next answer a. */
  lemma TriesAdvance(n: int, B: Occupancy, me: Colour, choose: Occupancy -> Coord, ledger: map<Snapshot, int>,
                     tried: seq<Coord>, rounds: nat, a: Coord, T: seq<Coord>)
    requires |tried| > 0 && rounds > 0 && Seen(ledger, Place(n, B, me, Last(tried))) == 6
    requires a == choose(B + Mine(tried, me)) && T == Tries(n, B, me, choose, ledger, tried, rounds)
    ensures OnTrack(T, n, B, me, choose, ledger, tried + [a], rounds - 1)
  {
    MarkedMine(B, tried, me);
  }

  /** Every move tried after the given ones is make_action's answer on B
      with the moves before it on the board as the player's tokens. */
  lemma {:induction false} TriesChosen(n: int, B: Occupancy, me: Colour, choose: Occupancy -> Coord,
                                       ledger: map<Snapshot, int>, tried: seq<Coord>, rounds: nat, k: int)
    requires |tried| > 0 && |tried| <= k < |Tries(n, B, me, choose, ledger, tried, rounds)|
    ensures var t := Tries(n, B, me, choose, ledger, tried, rounds);
      t[k] == choose(B + Mine(t[..k], me))
    decreases rounds
  {
    if Seen(ledger, Place(n, B, me, Last(tried))) == 6 && rounds > 0 {
      var next := tried + [choose(Marked(B, tried, me))];
      if k > |tried| {
        TriesChosen(n, B, me, choose, ledger, next, rounds - 1, k);
      } else {
        TriesPrefix(n, B, me, choose, ledger, next, rounds - 1);
        var t := Tries(n, B, me, choose, ledger, next, rounds - 1);
        assert t[..|next|][k] == t[k];
        assert t[..|next|][..k] == t[..k];
        MarkedMine(B, tried, me);
      }
    }
  }

  /** Every move given up was given up because the board after it had
      been seen six times. */
  lemma {:induction false} TriesRejected(n: int, B: Occupancy, me: Colour, choose: Occupancy -> Coord,
                                         ledger: map<Snapshot, int>, tried: seq<Coord>, rounds: nat, k: int)
    requires |tried| > 0 && |tried| - 1 <= k < |Tries(n, B, me, choose, ledger, tried, rounds)| - 1
    ensures Seen(ledger, Place(n, B, me, Tries(n, B, me, choose, ledger, tried, rounds)[k])) == 6
    decreases rounds
  {
    if Seen(ledger, Place(n, B, me, Last(tried))) == 6 && rounds > 0 {
      var next := tried + [choose(Marked(B, tried, me))];
      if k > |tried| - 1 {
        TriesRejected(n, B, me, choose, ledger, next, rounds - 1, k);
      } else {
        TriesPrefix(n, B, me, choose, ledger, next, rounds - 1);
        var t := Tries(n, B, me, choose, ledger, next, rounds - 1);
        assert t[..|next|][k] == t[k];
      }
    }
  }

  /** The move finally played leads to a board seen fewer or more than six
      times, unless all rounds were used up. */
  lemma {:induction false} TriesAccepted(n: int, B: Occupancy, me: Colour, choose: Occupancy -> Coord,
                                         ledger: map<Snapshot, int>, tried: seq<Coord>, rounds: nat)
    requires |tried| > 0
    ensures var t := Tries(n, B, me, choose, ledger, tried, rounds);
      Seen(ledger, Place(n, B, me, Last(t))) != 6 || |t| == |tried| + rounds
    decreases rounds
  {
    if Seen(ledger, Place(n, B, me, Last(tried))) == 6 && rounds > 0 {
      TriesAccepted(n, B, me, choose, ledger, tried + [choose(Marked(B, tried, me))], rounds - 1);
    }
  }

  /** Putting the tried cells on B as the player's tokens and taking them
      off again gives B back, when the tried cells are empty on B. */
  lemma MarkUnmark(B: Occupancy, tried: seq<Coord>, p: Colour)
    requires Fresh(B, tried)
    ensures (B + Mine(tried, p)) - (set c | c in tried) == B
  {
    var m := (B + Mine(tried, p)) - (set c | c in tried);
    assert forall c :: c in m <==> c in B;
  }

  /** With the latest move already on the board, marking every tried cell
      gives B with the tried cells as the player's tokens. */
  lemma MarkAbsorbs(B: Occupancy, tried: seq<Coord>, p: Colour)
    requires |tried| > 0
    ensures B[Last(tried) := p] + Mine(tried, p) == B + Mine(tried, p)
  {
    assert Last(tried) in tried;
  }

  /** The tried cells stay fresh when make_action answers with an empty cell. */
  lemma FreshSnoc(B: Occupancy, tried: seq<Coord>, p: Colour, a: Coord)
    requires Fresh(B, tried) && a !in B + Mine(tried, p)
    ensures Fresh(B, tried + [a])
  {
    forall i | 0 <= i < |tried| ensures tried[i] != a {
      assert tried[i] in Mine(tried, p);
    }
  }

  class Player {
    const colour: Colour
    const oppo: Colour
    const board: Board

    /** __init__(player, n): the player's colour, the opponent's colour and
        an empty board of size n with an empty ledger. */
    constructor (player: Colour, n: int)
      ensures colour == player && oppo == Other(player) && oppo != colour
      ensures fresh(board) && board.n == n && board.occupied == map[] && board.sameCount == map[]
    {
      colour := player;
      oppo := if player == Red then Blue else Red;
      board := new Board(n);
    }

    /** for i in old: occupied[i] = colour */
    method MarkTried(tried: seq<Coord>)
      modifies board`occupied
      ensures board.occupied == old(board.occupied) + Mine(tried, colour)
    {
      for k := 0 to |tried|
        invariant board.occupied == old(board.occupied) + Mine(tried[..k], colour)
      {
        assert tried[..k + 1] == tried[..k] + [tried[k]];
        assert Mine(tried[..k + 1], colour) == Mine(tried[..k], colour)[tried[k] := colour];
        board.occupied := board.occupied[tried[k] := colour];
      }
      assert tried[..|tried|] == tried;
    }

    /** for i in old: occupied.pop(i); each pop finds its cell, since the
        tried cells are distinct and on the board. */
    method UnmarkTried(tried: seq<Coord>)
      requires forall i :: 0 <= i < |tried| ==> tried[i] in board.occupied
      requires forall i, j :: 0 <= i < j < |tried| ==> tried[i] != tried[j]
      modifies board`occupied
      ensures board.occupied == old(board.occupied) - (set c | c in tried)
    {
      for k := 0 to |tried|
        invariant board.occupied == old(board.occupied) - (set c | c in tried[..k])
      {
        assert tried[k] !in tried[..k];
        assert tried[..k + 1] == tried[..k] + [tried[k]];
        board.Remove(tried[k].0, tried[k].1);
      }
      assert tried[..|tried|] == tried;
    }

    /** One round of the while loop of action(): undo the latest move's
        captures, put every tried move on the board, ask make_action again,
        take the tried moves off and play the new answer. */
    method Retry(choose: Occupancy -> Coord, tried: seq<Coord>, captures: set<Coord>, ghost B: Occupancy)
      returns (a: Coord, captures': set<Coord>)
      requires |tried| > 0 && Fresh(B, tried) && forall occ :: choose(occ) !in occ
      requires board.occupied == Place(board.n, B, colour, Last(tried))
      requires captures == CaptureSet(board.n, B[Last(tried) := colour], colour, Last(tried))
      modifies board`occupied
      ensures a == choose(B + Mine(tried, colour)) && Fresh(B, tried + [a])
      ensures board.occupied == Place(board.n, B, colour, a)
      ensures captures' == CaptureSet(board.n, B[a := colour], colour, a)
    {
      board.RecoverBoard(colour, None, captures);
      PlaceRecoverKeep(board.n, B, colour, Last(tried));
      MarkTried(tried);
      MarkAbsorbs(B, tried, colour);
      a := choose(board.occupied);
      FreshSnoc(B, tried, colour, a);
      forall i | 0 <= i < |tried| ensures tried[i] in board.occupied {
        assert tried[i] in Mine(tried, colour);
      }
      UnmarkTried(tried);
      MarkUnmark(B, tried, colour);
      captures' := PygameStrategy.TryMove(board, colour, a);
    }

    /** Retry as one round of the loop Tries describes: the board after
        the latest move has been seen six times, and the new move is the
        next one Tries lists. */
    method Round(choose: Occupancy -> Coord, tried: seq<Coord>, captures: set<Coord>, ghost B: Occupancy,
                 ghost L: map<Snapshot, int>, ghost T: seq<Coord>, k: nat)
      returns (a: Coord, captures': set<Coord>, tried': seq<Coord>, k': nat)
      requires |tried| > 0 && Fresh(B, tried) && forall occ :: choose(occ) !in occ
      requires board.occupied == Place(board.n, B, colour, Last(tried))
      requires captures == CaptureSet(board.n, B[Last(tried) := colour], colour, Last(tried))
      requires k > 0 && Seen(L, board.occupied) == 6 && T == Tries(board.n, B, colour, choose, L, tried, k)
      modifies board`occupied
      ensures tried' == tried + [a] && k' == k - 1
      ensures Fresh(B, tried') && OnTrack(T, board.n, B, colour, choose, L, tried', k')
      ensures board.occupied == Place(board.n, B, colour, a)
      ensures captures' == CaptureSet(board.n, B[a := colour], colour, a)
    {
      assert Seen(L, Place(board.n, B, colour, Last(tried))) == 6;
      a, captures' := Retry(choose, tried, captures, B);
      tried', k' := tried + [a], k - 1;
      TriesAdvance(board.n, B, colour, choose, L, tried, k, a, T);
    }

    /** The part of action() after the opening: play make_action's answer,
        and while the board after it has been seen six times, choose again
        with every rejected move on the board as the player's own token.
        The board is restored before the move is returned; rounds bounds
        the number of times the move is chosen again. */
    method Rechoose(choose: Occupancy -> Coord, rounds: nat) returns (a: Coord)
      requires forall occ :: choose(occ) !in occ
      modifies board`occupied
      ensures board.occupied == old(board.occupied)
      ensures a == Last(Tries(board.n, board.occupied, colour, choose, board.sameCount, [choose(board.occupied)], rounds))
    {
      ghost var B := board.occupied;
      ghost var L := board.sameCount;
      a := choose(board.occupied);
      ghost var T := Tries(board.n, B, colour, choose, L, [a], rounds);
      var tried := [a];
      var captures := PygameStrategy.TryMove(board, colour, a);
      var k := rounds;
      while Seen(board.sameCount, board.occupied) == 6 && k > 0
        invariant |tried| > 0 && a == Last(tried) && Fresh(B, tried)
        invariant board.occupied == Place(board.n, B, colour, a) && board.sameCount == L
        invariant captures == CaptureSet(board.n, B[a := colour], colour, a)
        invariant OnTrack(T, board.n, B, colour, choose, L, tried, k)
        decreases k
      {
        a, captures, tried, k := Round(choose, tried, captures, B, L, T, k);
      }
      PygameStrategy.UndoMove(board, colour, a, captures, B);
    }

    /** action(): Red's first move is random_first_move's draw, Blue's first
        move is a steal, and any other move is the one Rechoose settles on.
        choose is make_action as a function of the board it is asked on,
        draws the random draws of the first move, and rounds bounds the
        number of times the move is chosen again. */
    method Action(choose: Occupancy -> Coord, draws: seq<Coord>, rounds: nat) returns (act: Action)
      requires colour == Red && board.IsFirstMove(Red) ==>
        (forall i :: 0 <= i < |draws| ==> 0 <= draws[i].0 <= board.n - 1 && 0 <= draws[i].1 <= board.n - 1) &&
        exists i :: 0 <= i < |draws| && draws[i] != board.BoardCenter()
      requires forall occ :: choose(occ) !in occ
      modifies board`occupied
      ensures board.occupied == old(board.occupied)
      ensures board.IsFirstMove(colour) && colour == Blue ==> act == StealAction
      ensures board.IsFirstMove(colour) && colour == Red ==>
        act.PlaceAction? && (act.r, act.q) != board.BoardCenter() && 0 <= act.r < board.n && 0 <= act.q < board.n
      ensures !board.IsFirstMove(colour) ==>
        var t := Tries(board.n, board.occupied, colour, choose, board.sameCount, [choose(board.occupied)], rounds);
        act == PlaceAction(Last(t).0, Last(t).1)
    {
      if board.IsFirstMove(colour) {
        if colour == Red {
          var c := PygameStrategy.RandomFirstMove(board, 0, board.n - 1, draws);
          act := PlaceAction(c.0, c.1);
        } else {
          act := StealAction;
        }
      } else {
        var a := Rechoose(choose, rounds);
        act := PlaceAction(a.0, a.1);
      }
    }

    /** turn(player, action): a placement puts the mover's token on (r, q)
        and removes what it captures, a steal applies steal_update, and the
        resulting configuration is counted once more in the ledger.
        steal_update fails on an empty board. */
    method Turn(player: Colour, action: Action)
      requires action.StealAction? ==> board.occupied != map[]
      modifies board`occupied, board`sameCount
      ensures action.PlaceAction? ==>
        board.occupied == Place(board.n, old(board.occupied), player, (action.r, action.q))
      ensures action.StealAction? ==>
        exists c :: c in old(board.occupied) && board.occupied == Steal(old(board.occupied), c)
      ensures board.sameCount == Record(old(board.sameCount), board.occupied)
    {
      match action {
        case StealAction =>
          board.StealUpdate();
        case PlaceAction(r, q) =>
          board.PlaceUpdate(player, r, q);
          var captures := ValidCapture(board.n, board.occupied, player, r, q);
          if captures != {} {
            CaptureSetSoundAll(board.n, board.occupied, player, (r, q));
            board.CaptureUpdate(captures);
          }
      }
      var s := SnapshotOf(board.occupied);
      if s in board.sameCount {
        board.sameCount := board.sameCount[s := board.sameCount[s] + 1];
      } else {
        board.sameCount := board.sameCount[s := 1];
      }
    }
  }
}
