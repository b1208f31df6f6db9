/** The Board of the second agent variant: the occupancy map and the board
    size, with the operations that change them in place.  There is no
    repetition ledger; strategies work on copies made with Copy.  The
    read-only operations are in module Queries. */
module Pygame2Board {
  import opened Hex

  class Board {
    const n: int
    const size: int := n * n
    var occupied: Occupancy

    constructor (n: int)
      ensures this.n == n && size == n * n
      ensures occupied == map[]
    {
      this.n := n;
      occupied := map[];
    }

    /** steal_update: the first key of the map is moved to its transpose
        and handed to Blue.  list(occupied)[0] fails on an empty board. */
    method StealUpdate()
      requires occupied != map[]
      modifies this`occupied
      ensures exists c :: c in old(occupied) && occupied == Steal(old(occupied), c)
      ensures forall c :: old(occupied).Keys == {c} ==> occupied == map[Transpose(c) := Blue]
    {
      var c :| c in occupied;
      assert forall d :: occupied.Keys == {d} ==> d == c;
      occupied := occupied - {c};
      occupied := occupied[(c.1, c.0) := Blue];
      if old(occupied).Keys == {c} {
        StealSingleToken(old(occupied), c);
      }
    }

    /** place_update(p, r, q). */
    method PlaceUpdate(p: Colour, r: int, q: int)
      modifies this`occupied
      ensures occupied == old(occupied)[(r, q) := p]
    {
      occupied := occupied[(r, q) := p];
    }

    /** remove(r, q): pop fails when (r, q) holds no token. */
    method Remove(r: int, q: int)
      requires (r, q) in occupied
      modifies this`occupied
      ensures occupied == old(occupied) - {(r, q)}
    {
      occupied := occupied - {(r, q)};
    }

    /** capture_update(caps): every captured cell is removed, nothing else
        changes. */
    method CaptureUpdate(caps: set<Coord>)
      requires caps <= occupied.Keys
      modifies this`occupied
      ensures occupied == old(occupied) - caps
    {
      var rest := caps;
      while rest != {}
        invariant rest <= caps
        invariant occupied == old(occupied) - (caps - rest)
        decreases rest
      {
        var c :| c in rest;
        Remove(c.0, c.1);
        rest := rest - {c};
      }
    }

    /** is_first_move(p): Red moves first on an empty board, Blue answers
        when exactly one token is down. */
    predicate IsFirstMove(p: Colour)
      reads this
    {
      if p == Red then |occupied| == 0 else |occupied| == 1
    }

    /** is_full: compares the token count with n, not with n * n. */
    predicate IsFull()
      reads this
    {
      |occupied| == n
    }

    /** board_center: n // 2 for odd n and (n + 1) // 2 for even n, which
        is n // 2 again: both branches give the same cell. */
    function BoardCenter(): (c: Coord)
      ensures c == (n / 2, n / 2)
      ensures n >= 1 ==> InBounds(n, c)
    {
      var center := if n % 2 != 0 then n / 2 else (n + 1) / 2;
      (center, center)
    }

    /** copy.deepcopy(board): a fresh board with the same contents. */
    method Copy() returns (b: Board)
      ensures fresh(b) && b.n == n && b.size == size && b.occupied == occupied
    {
      b := new Board(n);
      b.occupied := occupied;
    }
  }
}
