/** The Board of the first agent variant: the occupancy map, the board
    size and the repetition ledger, with the operations that change them in
    place.  The read-only operations are in module Queries. */
module PygameBoard {
  import opened Hex

  /** A configuration as the ledger keys it: the set of (cell, colour)
      pairs, i.e. frozenset(occupied.items()). */
  type Snapshot = set<(Coord, Colour)>

  function SnapshotOf(occ: Occupancy): Snapshot {
    set c | c in occ :: (c, occ[c])
  }

  /** A snapshot determines the occupancy it was taken of, so the ledger
      counts configurations, not just token sets. */
  lemma SnapshotDetermines(o1: Occupancy, o2: Occupancy)
    requires SnapshotOf(o1) == SnapshotOf(o2)
    ensures o1 == o2
  {
    forall c | c in o1 ensures c in o2 && o2[c] == o1[c] {
      assert (c, o1[c]) in SnapshotOf(o2);
    }
    forall c | c in o2 ensures c in o1 {
      assert (c, o2[c]) in SnapshotOf(o1);
    }
  }

  class Board {
    const n: int
    const size: int := n * n
    var occupied: Occupancy
    var sameCount: map<Snapshot, int>

    constructor (n: int)
      ensures this.n == n && size == n * n
      ensures occupied == map[] && sameCount == map[]
    {
      this.n := n;
      occupied := map[];
      sameCount := map[];
    }

    /** steal_update: the first key of the map is moved to its transpose
        and handed to Blue.  list(occupied)[0] fails on an empty board. */
    method StealUpdate()
      requires occupied != map[]
      modifies this`occupied
      ensures exists c :: c in old(occupied) && occupied == Steal(old(occupied), c)
      ensures forall c :: old(occupied).Keys == {c} ==> occupied == map[Transpose(c) := Blue]
    {
      var c :| c in occupied;
      assert forall d :: occupied.Keys == {d} ==> d == c;
      occupied := occupied - {c};
      occupied := occupied[(c.1, c.0) := Blue];
      if old(occupied).Keys == {c} {
        StealSingleToken(old(occupied), c);
      }
    }

    /** place_update(p, r, q). */
    method PlaceUpdate(p: Colour, r: int, q: int)
      modifies this`occupied
      ensures occupied == old(occupied)[(r, q) := p]
    {
      occupied := occupied[(r, q) := p];
    }

    /** remove(r, q): pop fails when (r, q) holds no token. */
    method Remove(r: int, q: int)
      requires (r, q) in occupied
      modifies this`occupied
      ensures occupied == old(occupied) - {(r, q)}
    {
      occupied := occupied - {(r, q)};
    }

    /** capture_update(caps): every captured cell is removed, nothing else
        changes. */
    method CaptureUpdate(caps: set<Coord>)
      requires caps <= occupied.Keys
      modifies this`occupied
      ensures occupied == old(occupied) - caps
    {
      var rest := caps;
      while rest != {}
        invariant rest <= caps
        invariant occupied == old(occupied) - (caps - rest)
        decreases rest
      {
        var c :| c in rest;
        Remove(c.0, c.1);
        rest := rest - {c};
      }
    }

    /** recover_board(p, pop, adds): undo a trial move of p. */
    method RecoverBoard(p: Colour, pop: Option<Coord>, adds: set<Coord>)
      requires pop.Some? ==> pop.value in occupied
      modifies this`occupied
      ensures occupied == Recover(old(occupied), p, pop, adds)
    {
      if pop.Some? {
        occupied := occupied - {pop.value};
      }
      ghost var base := occupied;
      var rest := adds;
      while rest != {}
        invariant rest <= adds
        invariant occupied == base + map x | x in adds - rest :: Other(p)
        decreases rest
      {
        var c :| c in rest;
        RecoverStep(base, adds, rest, c, Other(p));
        if p == Red {
          occupied := occupied[(c.0, c.1) := Blue];
        } else {
          occupied := occupied[(c.0, c.1) := Red];
        }
        rest := rest - {c};
      }
      assert adds - rest == adds;
    }

    /** is_first_move(p): Red moves first on an empty board, Blue answers
        when exactly one token is down. */
    predicate IsFirstMove(p: Colour)
      reads this
    {
      if p == Red then |occupied| == 0 else |occupied| == 1
    }

    /** board_center: (n // 2, n // 2). */
    function BoardCenter(): (c: Coord)
      ensures c.0 == c.1 && 2 * c.0 <= n < 2 * c.0 + 2
      ensures n >= 1 ==> InBounds(n, c)
    {
      (n / 2, n / 2)
    }
  }
}
