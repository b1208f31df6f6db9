/** The rules of Cachex that both agent variants share: coordinates on the
    n x n rhombus board, the six hexagonal neighbours, the twelve capture
    diamonds, the steal transpose and token counts.  Everything here works on
    an occupancy map, the value held in `Board.occupied`. */
module Hex {

  datatype Colour = Red | Blue

  /** The opponent of a colour (the `oppo` of a player). */
  function Other(c: Colour): Colour {
    if c == Red then Blue else Red
  }

  datatype Option<T> = None | Some(value: T)

  /** A cell (r, q); r is the row, q the column. */
  type Coord = (int, int)

  /** The tokens on the board: which colour owns each occupied cell. */
  type Occupancy = map<Coord, Colour>

  predicate InBounds(n: int, c: Coord) {
    0 <= c.0 < n && 0 <= c.1 < n
  }

  /** Every token stands on a cell of the board. */
  ghost predicate WellFormed(n: int, occ: Occupancy) {
    forall c :: c in occ ==> InBounds(n, c)
  }

  predicate Distinct(s: seq<Coord>) {
    forall i, j :: 0 <= i < j < |s| ==> s[i] != s[j]
  }

  /** The six neighbour offsets in the order the source lists them:
      top left, left, bottom left, top right, right, bottom right. */
  function Offsets(c: Coord): seq<Coord> {
    [(c.0 + 1, c.1 - 1), (c.0, c.1 - 1), (c.0 - 1, c.1),
     (c.0 + 1, c.1), (c.0, c.1 + 1), (c.0 - 1, c.1 + 1)]
  }

  predicate Adjacent(a: Coord, b: Coord) {
    b in Offsets(a)
  }

  lemma OffsetsAreSixDistinctCells(c: Coord)
    ensures |Offsets(c)| == 6 && Distinct(Offsets(c)) && c !in Offsets(c)
  {
  }

  /** Hex adjacency is symmetric. */
  lemma AdjacentSymmetric(a: Coord, b: Coord)
    ensures Adjacent(a, b) <==> Adjacent(b, a)
  {
  }

  /** The elements of `s` that satisfy `keep`, in their original order. */
  function Filter(s: seq<Coord>, keep: Coord -> bool): (r: seq<Coord>)
    ensures |r| <= |s|
    ensures forall x :: x in r <==> x in s && keep(x)
    ensures Distinct(s) ==> Distinct(r)
  {
    if s == [] then []
    else
      var rest := Filter(s[1..], keep);
      assert forall x :: x in s[1..] ==> x in s;
      if keep(s[0]) then [s[0]] + rest else rest
  }

  /** find_neighbours: the in-bounds neighbours of c, restricted to the cells
      owned by `owner` when an owner is given. */
  function FindNeighbours(n: int, occ: Occupancy, c: Coord, owner: Option<Colour>): (r: seq<Coord>)
    ensures |r| <= 6 && Distinct(r)
    ensures forall x :: x in r <==>
      Adjacent(c, x) && InBounds(n, x) && (owner.Some? ==> x in occ && occ[x] == owner.value)
  {
    OffsetsAreSixDistinctCells(c);
    var valid := Filter(Offsets(c), x => InBounds(n, x));
    if owner.Some? then Filter(valid, x => x in occ && occ[x] == owner.value) else valid
  }

  /** find_empty_neighbours: the in-bounds neighbours of c that hold no token. */
  function FindEmptyNeighbours(n: int, occ: Occupancy, c: Coord): (r: seq<Coord>)
    ensures |r| <= 6 && Distinct(r)
    ensures forall x :: x in r <==> Adjacent(c, x) && InBounds(n, x) && x !in occ
  {
    OffsetsAreSixDistinctCells(c);
    var valid := Filter(Offsets(c), x => InBounds(n, x));
    Filter(valid, x => x !in occ)
  }

  /** One capture pattern around a placed cell: the `diag` cell must belong to
      the mover, `left` and `right` to the other player. */
  datatype Diamond = Diamond(diag: Coord, left: Coord, right: Coord)

  /** The twelve diamonds of valid_capture around (r, q), in source order:
      top, top right close, top right far, right, bottom right far, bottom
      right close, bottom, bottom left far, bottom left close, left, top left
      far, top left close. */
  function Diamonds(c: Coord): seq<Diamond> {
    var (r, q) := c;
    [Diamond((r + 2, q - 1), (r + 1, q - 1), (r + 1, q)),
     Diamond((r + 1, q), (r + 1, q - 1), (r, q + 1)),
     Diamond((r + 1, q + 1), (r + 1, q), (r, q + 1)),
     Diamond((r, q + 1), (r + 1, q), (r - 1, q + 1)),
     Diamond((r - 1, q + 2), (r, q + 1), (r - 1, q + 1)),
     Diamond((r - 1, q + 1), (r - 1, q), (r, q + 1)),
     Diamond((r - 2, q + 1), (r - 1, q), (r - 1, q + 1)),
     Diamond((r - 1, q - 1), (r, q - 1), (r - 1, q)),
     Diamond((r - 1, q), (r, q - 1), (r - 1, q + 1)),
     Diamond((r, q - 1), (r - 1, q), (r + 1, q - 1)),
     Diamond((r + 1, q - 2), (r, q - 1), (r + 1, q - 1)),
     Diamond((r + 1, q - 1), (r, q - 1), (r + 1, q))]
  }

  /** valid_capture_diamond, evaluated on an occupancy map. */
  predicate ValidCaptureDiamond(n: int, occ: Occupancy, p: Colour, diag: Coord, left: Coord, right: Coord) {
    if !InBounds(n, diag) || !InBounds(n, left) || !InBounds(n, right) then false
    else if diag in occ && left in occ && right in occ then
      occ[diag] == p && occ[left] != p && occ[right] != p
    else false
  }

  /** Because there are only two colours, "not owned by p" means "owned by the
      opponent": the diamond fires exactly when its three cells are on the
      board, diag is p's and both flanks are the opponent's. */
  lemma DiamondFiresIff(n: int, occ: Occupancy, p: Colour, d: Diamond)
    ensures ValidCaptureDiamond(n, occ, p, d.diag, d.left, d.right) <==>
      InBounds(n, d.diag) && InBounds(n, d.left) && InBounds(n, d.right) &&
      d.diag in occ && occ[d.diag] == p &&
      d.left in occ && occ[d.left] == Other(p) &&
      d.right in occ && occ[d.right] == Other(p)
  {
  }

  predicate Fires(n: int, occ: Occupancy, p: Colour, d: Diamond) {
    ValidCaptureDiamond(n, occ, p, d.diag, d.left, d.right)
  }

  /** The two flank cells of a diamond that fires, nothing otherwise. */
  function Flanks(n: int, occ: Occupancy, p: Colour, d: Diamond): set<Coord> {
    if Fires(n, occ, p, d) then {d.left, d.right} else {}
  }

  /** The flanks of the firing diamonds among ds[..k], gathered in order. */
  function FlanksUpTo(n: int, occ: Occupancy, p: Colour, ds: seq<Diamond>, k: nat): set<Coord>
    requires k <= |ds|
  {
    if k == 0 then {} else FlanksUpTo(n, occ, p, ds, k - 1) + Flanks(n, occ, p, ds[k - 1])
  }

  /** A cell is among the flanks gathered from ds[..k] exactly when one of
      those diamonds fires with that cell as a flank. */
  lemma {:induction false} FlanksUpToMember(n: int, occ: Occupancy, p: Colour, ds: seq<Diamond>, k: nat, x: Coord)
    requires k <= |ds|
    ensures x in FlanksUpTo(n, occ, p, ds, k) <==>
      exists j :: 0 <= j < k && Fires(n, occ, p, ds[j]) && (x == ds[j].left || x == ds[j].right)
  {
    if k > 0 {
      FlanksUpToMember(n, occ, p, ds, k - 1, x);
      if Fires(n, occ, p, ds[k - 1]) && (x == ds[k - 1].left || x == ds[k - 1].right) {
        assert x in Flanks(n, occ, p, ds[k - 1]);
      }
    }
  }

  /** The set valid_capture(p, r, q) returns: both flanks of every firing
      diamond around c, one diamond at a time. */
  function CaptureSet(n: int, occ: Occupancy, p: Colour, c: Coord): set<Coord> {
    FlanksUpTo(n, occ, p, Diamonds(c), 12)
  }

  /** A cell is captured from c exactly when one of the twelve diamonds fires
      with that cell as a flank. */
  lemma CaptureSetMember(n: int, occ: Occupancy, p: Colour, c: Coord, x: Coord)
    ensures x in CaptureSet(n, occ, p, c) <==>
      exists i :: 0 <= i < 12 && Fires(n, occ, p, Diamonds(c)[i]) &&
        (x == Diamonds(c)[i].left || x == Diamonds(c)[i].right)
  {
    FlanksUpToMember(n, occ, p, Diamonds(c), 12, x);
  }

  /** Every diamond's flanks are neighbours of the placed cell, and no cell of
      a diamond is the placed cell itself. */
  lemma DiamondShape(c: Coord, i: int)
    requires 0 <= i < 12
    ensures Adjacent(c, Diamonds(c)[i].left) && Adjacent(c, Diamonds(c)[i].right)
    ensures Diamonds(c)[i].diag != c && Diamonds(c)[i].left != c && Diamonds(c)[i].right != c
  {
  }

  /** Only opponent tokens next to c are captured, never c itself. */
  lemma CaptureSetSound(n: int, occ: Occupancy, p: Colour, c: Coord, x: Coord)
    requires x in CaptureSet(n, occ, p, c)
    ensures Adjacent(c, x) && InBounds(n, x) && x != c
    ensures x in occ && occ[x] == Other(p)
  {
    CaptureSetMember(n, occ, p, c, x);
    var i :| 0 <= i < 12 && Fires(n, occ, p, Diamonds(c)[i]) &&
      (x == Diamonds(c)[i].left || x == Diamonds(c)[i].right);
    DiamondShape(c, i);
  }

  lemma CaptureSetSoundAll(n: int, occ: Occupancy, p: Colour, c: Coord)
    ensures forall x :: x in CaptureSet(n, occ, p, c) ==>
      Adjacent(c, x) && InBounds(n, x) && x != c && x in occ && occ[x] == Other(p)
  {
    forall x | x in CaptureSet(n, occ, p, c)
      ensures Adjacent(c, x) && InBounds(n, x) && x != c && x in occ && occ[x] == Other(p)
    {
      CaptureSetSound(n, occ, p, c, x);
    }
  }

  /** Two boards that agree on the three cells of a diamond agree on whether
      it fires. */
  lemma FiresLocal(n: int, o1: Occupancy, o2: Occupancy, p: Colour, d: Diamond)
    requires forall x :: x in {d.diag, d.left, d.right} ==> (x in o1 <==> x in o2)
    requires forall x :: x in {d.diag, d.left, d.right} && x in o1 ==> o1[x] == o2[x]
    ensures Fires(n, o1, p, d) == Fires(n, o2, p, d)
  {
    assert d.diag in {d.diag, d.left, d.right};
    assert d.left in {d.diag, d.left, d.right};
    assert d.right in {d.diag, d.left, d.right};
  }

  /** The capture test never looks at the placed cell itself, so it gives
      the same answer whether or not c holds a token. */
  lemma CaptureSetIgnoresOwnCell(n: int, o1: Occupancy, o2: Occupancy, p: Colour, c: Coord)
    requires forall x :: x != c ==> (x in o1 <==> x in o2)
    requires forall x :: x != c && x in o1 ==> o1[x] == o2[x]
    ensures CaptureSet(n, o1, p, c) == CaptureSet(n, o2, p, c)
  {
    forall i | 0 <= i < 12 ensures Fires(n, o1, p, Diamonds(c)[i]) == Fires(n, o2, p, Diamonds(c)[i]) {
      DiamondShape(c, i);
      FiresLocal(n, o1, o2, p, Diamonds(c)[i]);
    }
    forall x ensures x in CaptureSet(n, o1, p, c) <==> x in CaptureSet(n, o2, p, c) {
      CaptureSetMember(n, o1, p, c, x);
      CaptureSetMember(n, o2, p, c, x);
    }
  }

  /** Capture idempotence: once the captured tokens are removed, the same
      placement captures nothing more.  A diamond that still fired after the
      removal would have fired before it, and then its flanks were removed. */
  lemma CaptureIdempotent(n: int, occ: Occupancy, p: Colour, c: Coord)
    ensures CaptureSet(n, occ - CaptureSet(n, occ, p, c), p, c) == {}
  {
    var caps := CaptureSet(n, occ, p, c);
    var after := occ - caps;
    forall i | 0 <= i < 12 ensures !Fires(n, after, p, Diamonds(c)[i]) {
      var d := Diamonds(c)[i];
      CaptureSetMember(n, occ, p, c, d.left);
      assert Fires(n, occ, p, d) ==> d.left in caps;
    }
    forall x ensures x !in CaptureSet(n, after, p, c) {
      CaptureSetMember(n, after, p, c, x);
    }
  }

  /** The board after `p` places at c and the captured tokens are removed:
      what turn() computes for a PLACE action. */
  function Place(n: int, occ: Occupancy, p: Colour, c: Coord): Occupancy {
    var placed := occ[c := p];
    placed - CaptureSet(n, placed, p, c)
  }

  /** A placement on a board cell keeps every token on the board. */
  lemma PlaceWellFormed(n: int, occ: Occupancy, p: Colour, c: Coord)
    requires WellFormed(n, occ) && InBounds(n, c)
    ensures WellFormed(n, Place(n, occ, p, c))
  {
  }

  /** recover_board(p, c, caps): drop the token at c and give every captured
      cell back to the opponent. */
  function Recover(occ: Occupancy, p: Colour, pop: Option<Coord>, caps: set<Coord>): Occupancy {
    (if pop.Some? then occ - {pop.value} else occ) + map x | x in caps :: Other(p)
  }

  /** One more captured cell handed back to the other colour. */
  lemma RecoverStep(base: Occupancy, adds: set<Coord>, rest: set<Coord>, c: Coord, q: Colour)
    requires c in rest && rest <= adds
    ensures (base + map x | x in adds - rest :: q)[c := q] == base + map x | x in adds - (rest - {c}) :: q
  {
    var m := base + map x | x in adds - rest :: q;
    var m' := base + map x | x in adds - (rest - {c}) :: q;
    assert forall x :: x in m[c := q] <==> x in m';
    assert forall x :: x in m' ==> m[c := q][x] == m'[x];
  }

  /** A placement at an empty cell followed by recover_board restores the
      board exactly. */
  lemma PlaceRecoverRoundTrip(n: int, occ: Occupancy, p: Colour, c: Coord)
    requires c !in occ
    ensures Recover(Place(n, occ, p, c), p, Some(c), CaptureSet(n, occ[c := p], p, c)) == occ
  {
    var placed := occ[c := p];
    var caps := CaptureSet(n, placed, p, c);
    CaptureSetSoundAll(n, placed, p, c);
    var back := Recover(Place(n, occ, p, c), p, Some(c), caps);
    assert back.Keys == occ.Keys;
    forall x | x in occ ensures back[x] == occ[x] {
      if x in caps {
        assert occ[x] == Other(p);
      }
    }
  }

  /** recover_board without a cell to drop hands the captured tokens back
      and keeps the placed one: the board just after the placement. */
  lemma PlaceRecoverKeep(n: int, occ: Occupancy, p: Colour, c: Coord)
    ensures Recover(Place(n, occ, p, c), p, None, CaptureSet(n, occ[c := p], p, c)) == occ[c := p]
  {
    var placed := occ[c := p];
    var caps := CaptureSet(n, placed, p, c);
    CaptureSetSoundAll(n, placed, p, c);
    var back := Recover(Place(n, occ, p, c), p, None, caps);
    assert back.Keys == placed.Keys;
    forall x | x in placed ensures back[x] == placed[x] {
      if x in caps {
        assert placed[x] == Other(p);
      }
    }
  }

  /** The two actions an agent can play: (PLACE, r, q) or (STEAL,). */
  datatype Action = PlaceAction(r: int, q: int) | StealAction

  /** The cell a stolen opening token moves to. */
  function Transpose(c: Coord): Coord {
    (c.1, c.0)
  }

  /** steal_update with c as the first key: the token at c moves to the
      transposed cell and becomes Blue's. */
  function Steal(occ: Occupancy, c: Coord): Occupancy {
    (occ - {c})[Transpose(c) := Blue]
  }

  /** Stealing the single opening token at (r, q) leaves only (q, r), owned
      by Blue. */
  lemma StealSingleToken(occ: Occupancy, c: Coord)
    requires occ.Keys == {c}
    ensures Steal(occ, c) == map[Transpose(c) := Blue]
    ensures TokenCount(Steal(occ, c), Blue) == 1 && TokenCount(Steal(occ, c), Red) == 0
  {
    var s := Steal(occ, c);
    assert s.Keys == {Transpose(c)};
    assert (set x | x in s && s[x] == Blue) == {Transpose(c)};
    assert (set x | x in s && s[x] == Red) == {};
  }

  /** The number of tokens owned by p (count_player_tokens). */
  function TokenCount(occ: Occupancy, p: Colour): nat {
    |set c | c in occ && occ[c] == p|
  }

  /** Every token belongs to exactly one player, so the two counts add up to
      the number of tokens. */
  lemma TokenCountsSum(occ: Occupancy)
    ensures TokenCount(occ, Red) + TokenCount(occ, Blue) == |occ|
  {
    var reds := set c | c in occ && occ[c] == Red;
    var blues := set c | c in occ && occ[c] == Blue;
    assert reds + blues == occ.Keys;
    assert reds * blues == {};
  }

  /** The cells of the board that hold no token. */
  function EmptyCells(n: int, occ: Occupancy): set<Coord> {
    set r, q | 0 <= r < n && 0 <= q < n && (r, q) !in occ :: (r, q)
  }

  /** A sequence that lists every cell of the board exactly once: the model's
      stand-in for the random cell-visiting order of the search loops. */
  ghost predicate Enumerates(n: int, cells: seq<Coord>) {
    Distinct(cells) && forall c :: c in cells <==> InBounds(n, c)
  }
}
