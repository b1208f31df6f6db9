/** The Player of the second agent variant.  It keeps its own board (no
    repetition ledger), answers the opening by the first-move rules and
    otherwise plays what make_action of pygame2/strategy.py chooses. */
module Pygame2Player {
  import opened Hex
  import opened Connect
  import opened Queries
  import opened Pygame2Board
  import Scores
  import Choice
  import opened Search
  import Pygame2Strategy

  /** Every draw lies on the board of size n. */
  predicate OnBoard(n: int, draws: seq<Coord>) {
    forall i :: 0 <= i < |draws| ==> InBounds(n, draws[i])
  }

  class Player {
    const colour: Colour
    const oppo: Colour
    const board: Board

    /** __init__(player, n): the player's colour, the opponent's colour and
        an empty board of size n. */
    constructor (player: Colour, n: int)
      ensures colour == player && oppo == Other(player) && oppo != colour
      ensures fresh(board) && board.n == n && board.occupied == map[]
    {
      colour := player;
      oppo := if player == Red then Blue else Red;
      board := new Board(n);
    }

    /** action(): Red opens with a random cell, drawn once more when the
        first draw is the centre (the second draw is not checked again);
        Blue answers the opening with a steal; every other move is
        make_action's.  first and second are the draws of the two calls
        of random_move, and cells the cell order of make_action's search. */
    method Action(fuel: nat, cells: seq<Coord>, first: seq<Coord>, second: seq<Coord>) returns (act: Action)
      requires colour == Red && board.IsFirstMove(Red) ==>
        |first| > 0 && OnBoard(board.n, first) &&
        (first[0] == board.BoardCenter() ==> |second| > 0 && OnBoard(board.n, second))
      requires !board.IsFirstMove(colour) ==>
        WellFormed(board.n, board.occupied) && Enumerates(board.n, cells) &&
        EmptyOrder(board.occupied, cells) != []
      ensures board.IsFirstMove(colour) && colour == Blue ==> act == StealAction
      ensures board.IsFirstMove(colour) && colour == Red ==>
        act.PlaceAction? && InBounds(board.n, (act.r, act.q)) &&
        (act.r, act.q) == (if first[0] != board.BoardCenter() then first[0] else second[0])
      ensures !board.IsFirstMove(colour) ==>
        var c := Choice.Minimax(Scores.Pygame2, fuel, board.n, board.occupied, colour, 1, cells);
        act == PlaceAction(c.0, c.1) && InBounds(board.n, c) && c !in board.occupied
    {
      if board.IsFirstMove(colour) {
        if colour == Red {
          assert board.occupied == map[];
          assert first[0] !in board.occupied;
          var c := Pygame2Strategy.RandomMove(board.occupied, 0, board.n - 1, first);
          if c == board.BoardCenter() {
            assert second[0] !in board.occupied;
            c := Pygame2Strategy.RandomMove(board.occupied, 0, board.n - 1, second);
          }
          act := PlaceAction(c.0, c.1);
        } else {
          act := StealAction;
        }
      } else {
        var c := Pygame2Strategy.MakeAction(board, colour, fuel, cells);
        act := PlaceAction(c.0, c.1);
      }
    }

    /** turn(player, action): a placement puts the mover's token on (r, q)
        and removes what it captures; a steal moves the opening token to
        its transpose as Blue's. */
    method Turn(player: Colour, action: Action)
      requires action.StealAction? ==> board.occupied != map[]
      modifies board`occupied
      ensures action.PlaceAction? ==>
        board.occupied == Place(board.n, old(board.occupied), player, (action.r, action.q))
      ensures action.StealAction? ==>
        exists c :: c in old(board.occupied) && board.occupied == Steal(old(board.occupied), c)
    {
      match action {
        case StealAction =>
          board.StealUpdate();
        case PlaceAction(r, q) =>
          board.PlaceUpdate(player, r, q);
          var captures := ValidCapture(board.n, board.occupied, player, r, q);
          if captures != {} {
            CaptureSetSoundAll(board.n, board.occupied, player, (r, q));
            board.CaptureUpdate(captures);
          }
      }
    }
  }
}
