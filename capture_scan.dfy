/** go_capture in both strategy files: for each opponent token, in the
    dictionary order of the board, try its empty neighbours; return at once
    a neighbour where a placement captures, and otherwise tally, per
    neighbour, how many of the other neighbours of that token would
    capture next, and pick the best tally.  The neighbour list is edited
    while it is iterated, which the scan below keeps: after
    `emp_nbs.remove(nb)` the next element slides into the current slot and
    is skipped. */
module CaptureScan {
  import opened Hex
  import opened Extended
  import opened Queries
  import opened Scores
  import opened Lookahead

  /** The state of the scan: a capturing cell was found, or the tally so
      far (choices) with the order in which its keys were first bumped. */
  datatype Scan = Found(cell: Coord) | Tally(counts: map<Coord, int>, order: seq<Coord>)

  /** capture_danger(opp, c): some empty neighbour of c lets opp capture. */
  ghost predicate Danger(ref: Referee, n: int, occ: Occupancy, opp: Colour, c: Coord) {
    exists e :: e in FindEmptyNeighbours(n, occ, c) && ref.captures(occ, opp, e) != {}
  }

  /** With the board's own referee, capture_danger is the Queries test. */
  lemma JudgesDanger(ref: Referee, n: int, occ: Occupancy, opp: Colour, c: Coord)
    requires Judges(ref, n)
    ensures Danger(ref, n, occ, opp, c) <==> InDanger(n, occ, opp, c)
  {
    if Danger(ref, n, occ, opp, c) {
      var e :| e in FindEmptyNeighbours(n, occ, c) && ref.captures(occ, opp, e) != {};
      assert CaptureSet(n, occ, opp, e) != {};
    }
    if InDanger(n, occ, opp, c) {
      var e :| e in FindEmptyNeighbours(n, occ, c) && CaptureSet(n, occ, opp, e) != {};
      assert ref.captures(occ, opp, e) != {};
    }
  }

  /** How many cells of xs would let me capture on occ. */
  ghost function CountCaptures(ref: Referee, occ: Occupancy, me: Colour, xs: seq<Coord>): nat {
    if xs == [] then 0
    else CountCaptures(ref, occ, me, xs[..|xs| - 1]) + (if ref.captures(occ, me, xs[|xs| - 1]) != {} then 1 else 0)
  }

  /** choices[nb] += 1, k times: a defaultdict key appears at its first
      increment. */
  function Bump(s: Scan, nb: Coord, k: nat): (r: Scan)
    requires s.Tally?
    ensures r.Tally?
  {
    if k == 0 then s
    else if nb in s.counts then Tally(s.counts[nb := s.counts[nb] + k], s.order)
    else Tally(s.counts[nb := k], s.order + [nb])
  }

  /** One more `choices[nb] += 1` after k of them. */
  lemma BumpOnceMore(s: Scan, nb: Coord, k: nat)
    requires s.Tally?
    ensures var t := Bump(s, nb, k);
      (if nb in t.counts then Tally(t.counts[nb := t.counts[nb] + 1], t.order)
       else Tally(t.counts[nb := 1], t.order + [nb])) == Bump(s, nb, k + 1)
  {
    if k > 0 && nb in s.counts {
      assert s.counts[nb := s.counts[nb] + k][nb := s.counts[nb] + k + 1] == s.counts[nb := s.counts[nb] + k + 1];
    } else if k > 0 {
      assert s.counts[nb := k][nb := k + 1] == s.counts[nb := k + 1];
    }
  }

  /** The list with its element at index i taken out: `nbs.remove(nbs[i])`
      on a list without repeats. */
  function RemoveAt(nbs: seq<Coord>, i: nat): (r: seq<Coord>)
    requires i < |nbs|
    ensures |r| == |nbs| - 1
    ensures forall x :: x in r ==> x in nbs
    ensures Distinct(nbs) ==> Distinct(r) && nbs[i] !in r
  {
    assert forall x :: x in nbs[..i] || x in nbs[i + 1..] ==> x in nbs;
    nbs[..i] + nbs[i + 1..]
  }

  /** The inner loop over the empty neighbours nbs of one opponent token,
      from index i on.  pygame removes nb and tallies only when nb is not in
      danger; pygame2 always does. */
  ghost function NbScan(v: Variant, ref: Referee, n: int, occ: Occupancy, me: Colour, nbs: seq<Coord>, i: nat, s: Scan): Scan
    requires s.Tally?
    decreases |nbs| - i
  {
    if i >= |nbs| then s
    else
      var nb := nbs[i];
      var placed := occ[nb := me];
      if ref.captures(placed, me, nb) != {} then Found(nb)
      else if v == Pygame2 || !Danger(ref, n, placed, Other(me), nb) then
        var rest := RemoveAt(nbs, i);
        NbScan(v, ref, n, occ, me, rest, i + 1, Bump(s, nb, CountCaptures(ref, placed, me, rest)))
      else NbScan(v, ref, n, occ, me, nbs, i + 1, s)
  }

  /** The token whose neighbours pygame2 looks at: one with a neighbour of
      its own colour. */
  predicate Tried(v: Variant, n: int, occ: Occupancy, me: Colour, t: Coord) {
    v == Pygame || FindNeighbours(n, occ, t, Some(Other(me))) != []
  }

  /** The outer loop over the opponent tokens toks, from index j on. */
  ghost function TokScan(v: Variant, ref: Referee, n: int, occ: Occupancy, me: Colour, toks: seq<Coord>, j: nat, s: Scan): Scan
    requires s.Tally?
    decreases |toks| - j
  {
    if j >= |toks| then s
    else
      var t := toks[j];
      var s' := if Tried(v, n, occ, me, t) then NbScan(v, ref, n, occ, me, FindEmptyNeighbours(n, occ, t), 0, s) else s;
      if s'.Found? then s' else TokScan(v, ref, n, occ, me, toks, j + 1, s')
  }

  /** One token of the scan: its neighbours' scan either ends the whole
      scan or hands its tally to the next token. */
  lemma TokScanStep(v: Variant, ref: Referee, n: int, occ: Occupancy, me: Colour, toks: seq<Coord>, j: nat, s: Scan, s': Scan)
    requires s.Tally? && j < |toks| && Tried(v, n, occ, me, toks[j])
    requires s' == NbScan(v, ref, n, occ, me, FindEmptyNeighbours(n, occ, toks[j]), 0, s)
    ensures s'.Found? ==> TokScan(v, ref, n, occ, me, toks, j, s) == s'
    ensures s'.Tally? ==> TokScan(v, ref, n, occ, me, toks, j, s) == TokScan(v, ref, n, occ, me, toks, j + 1, s')
  {
  }

  /** A token pygame2 does not look at leaves the scan to the next one. */
  lemma TokScanSkip(v: Variant, ref: Referee, n: int, occ: Occupancy, me: Colour, toks: seq<Coord>, j: nat, s: Scan)
    requires s.Tally? && j < |toks| && !Tried(v, n, occ, me, toks[j])
    ensures TokScan(v, ref, n, occ, me, toks, j, s) == TokScan(v, ref, n, occ, me, toks, j + 1, s)
  {
  }

  /** c is an empty neighbour of an opponent token. */
  ghost predicate Frontier(n: int, occ: Occupancy, me: Colour, c: Coord) {
    exists t :: t in occ && occ[t] == Other(me) && c in FindEmptyNeighbours(n, occ, t)
  }

  /** A cell the tally may count: a frontier cell that, in pygame, was
      checked to be out of danger. */
  ghost predicate Candidate(v: Variant, ref: Referee, n: int, occ: Occupancy, me: Colour, k: Coord) {
    Frontier(n, occ, me, k) && (v == Pygame ==> !Danger(ref, n, occ[k := me], Other(me), k))
  }

  ghost function CandidateTest(v: Variant, ref: Referee, n: int, occ: Occupancy, me: Colour): Coord -> bool {
    k => Candidate(v, ref, n, occ, me, k)
  }

  /** A tally that counts each key once, positively, and only keys that
      pass `ok`, listed in `order` without repeats. */
  ghost predicate TallyOk(s: Scan, ok: Coord -> bool)
    requires s.Tally?
  {
    TallyShape(s) && forall k :: k in s.counts ==> ok(k)
  }

  /** The order lists the keys of the tally once each, and every count is
      positive. */
  ghost predicate TallyShape(s: Scan)
    requires s.Tally?
  {
    Distinct(s.order) && (forall k :: k in s.order <==> k in s.counts) &&
    forall k :: k in s.counts ==> s.counts[k] > 0
  }

  /** What the scan keeps true: a found cell captures, and the tally counts
      candidate cells only. */
  ghost predicate GoodScan(v: Variant, ref: Referee, n: int, occ: Occupancy, me: Colour, s: Scan) {
    match s
    case Found(c) => Frontier(n, occ, me, c) && ref.captures(occ[c := me], me, c) != {}
    case Tally(_, _) => TallyOk(s, CandidateTest(v, ref, n, occ, me))
  }

  /** Bumping a key that passes `ok` keeps the tally well formed. */
  lemma BumpKeeps(s: Scan, nb: Coord, k: nat, ok: Coord -> bool)
    requires s.Tally? && TallyOk(s, ok)
    requires k > 0 ==> ok(nb)
    ensures TallyOk(Bump(s, nb, k), ok)
  {
    if k > 0 && nb !in s.counts {
      assert forall x :: x in s.order + [nb] <==> x in s.order || x == nb;
    }
  }

  /** go_capture(board, player): the found cell, else the first key of
      largest tally, else None. */
  ghost function GoCapture(v: Variant, ref: Referee, n: int, occ: Occupancy, me: Colour, keys: seq<Coord>): Option<Coord> {
    var s := FullScan(v, ref, n, occ, me, keys);
    if s.Found? then Some(s.cell)
    else if s.order == [] then None
    else
      FullScanGood(v, ref, n, occ, me, keys);
      Some(FirstMax(s.order, Lift(s.counts)))
  }

  lemma BumpGood(v: Variant, ref: Referee, n: int, occ: Occupancy, me: Colour, s: Scan, nb: Coord, k: nat)
    requires s.Tally? && GoodScan(v, ref, n, occ, me, s)
    requires k > 0 ==> Candidate(v, ref, n, occ, me, nb)
    ensures GoodScan(v, ref, n, occ, me, Bump(s, nb, k))
  {
    BumpKeeps(s, nb, k, CandidateTest(v, ref, n, occ, me));
  }

  lemma {:induction false} NbScanGood(v: Variant, ref: Referee, n: int, occ: Occupancy, me: Colour, nbs: seq<Coord>, i: nat, s: Scan)
    requires s.Tally? && GoodScan(v, ref, n, occ, me, s)
    requires forall x :: x in nbs ==> Frontier(n, occ, me, x)
    ensures GoodScan(v, ref, n, occ, me, NbScan(v, ref, n, occ, me, nbs, i, s))
    decreases |nbs| - i
  {
    if i < |nbs| {
      var nb := nbs[i];
      var placed := occ[nb := me];
      if ref.captures(placed, me, nb) == {} {
        if v == Pygame2 || !Danger(ref, n, placed, Other(me), nb) {
          var rest := RemoveAt(nbs, i);
          var k := CountCaptures(ref, placed, me, rest);
          assert Candidate(v, ref, n, occ, me, nb);
          BumpGood(v, ref, n, occ, me, s, nb, k);
          NbScanGood(v, ref, n, occ, me, rest, i + 1, Bump(s, nb, k));
        } else {
          NbScanGood(v, ref, n, occ, me, nbs, i + 1, s);
        }
      }
    }
  }

  lemma {:induction false} TokScanGood(v: Variant, ref: Referee, n: int, occ: Occupancy, me: Colour, toks: seq<Coord>, j: nat, s: Scan)
    requires s.Tally? && GoodScan(v, ref, n, occ, me, s)
    requires forall t :: t in toks ==> t in occ && occ[t] == Other(me)
    ensures GoodScan(v, ref, n, occ, me, TokScan(v, ref, n, occ, me, toks, j, s))
    decreases |toks| - j
  {
    if j < |toks| {
      var t := toks[j];
      var s' := s;
      if Tried(v, n, occ, me, t) {
        var nbs := FindEmptyNeighbours(n, occ, t);
        NbScanGood(v, ref, n, occ, me, nbs, 0, s);
        s' := NbScan(v, ref, n, occ, me, nbs, 0, s);
      }
      if s'.Tally? {
        TokScanGood(v, ref, n, occ, me, toks, j + 1, s');
      }
    }
  }

  /** The scan go_capture runs over the opponent's tokens. */
  ghost function FullScan(v: Variant, ref: Referee, n: int, occ: Occupancy, me: Colour, keys: seq<Coord>): Scan {
    TokScan(v, ref, n, occ, me, Owned(occ, Other(me), keys), 0, Tally(map[], []))
  }

  lemma FullScanGood(v: Variant, ref: Referee, n: int, occ: Occupancy, me: Colour, keys: seq<Coord>)
    ensures GoodScan(v, ref, n, occ, me, FullScan(v, ref, n, occ, me, keys))
  {
    TokScanGood(v, ref, n, occ, me, Owned(occ, Other(me), keys), 0, Tally(map[], []));
  }

  lemma FullScanShape(v: Variant, ref: Referee, n: int, occ: Occupancy, me: Colour, keys: seq<Coord>)
    requires FullScan(v, ref, n, occ, me, keys).Tally?
    ensures TallyShape(FullScan(v, ref, n, occ, me, keys))
  {
    FullScanGood(v, ref, n, occ, me, keys);
  }

  /** go_capture answers with an empty neighbour of an opponent token, and
      with a capturing one whenever its scan found one. */
  lemma GoCaptureFrontier(v: Variant, ref: Referee, n: int, occ: Occupancy, me: Colour, keys: seq<Coord>)
    ensures var res := GoCapture(v, ref, n, occ, me, keys);
      res.Some? ==> Frontier(n, occ, me, res.value)
    ensures FullScan(v, ref, n, occ, me, keys).Found? ==>
      var c := FullScan(v, ref, n, occ, me, keys).cell;
      GoCapture(v, ref, n, occ, me, keys) == Some(c) && ref.captures(occ[c := me], me, c) != {}
  {
    var s := FullScan(v, ref, n, occ, me, keys);
    FullScanGood(v, ref, n, occ, me, keys);
    if s.Tally? && s.order != [] {
      var c := FirstMax(s.order, Lift(s.counts));
      assert c in s.counts;
      assert CandidateTest(v, ref, n, occ, me)(c);
    }
  }

  /** Without a capturing cell, go_capture answers None exactly when
      nothing was tallied. */
  lemma GoCaptureNone(v: Variant, ref: Referee, n: int, occ: Occupancy, me: Colour, keys: seq<Coord>)
    requires FullScan(v, ref, n, occ, me, keys).Tally?
    ensures GoCapture(v, ref, n, occ, me, keys).None? <==> FullScan(v, ref, n, occ, me, keys).counts == map[]
  {
    var s := FullScan(v, ref, n, occ, me, keys);
    FullScanShape(v, ref, n, occ, me, keys);
    if s.order != [] {
      assert s.order[0] in s.counts;
    } else {
      assert forall k :: k !in s.counts;
    }
  }

  /** Otherwise it answers with a key of largest tally, which counts at
      least one follow-up capture. */
  lemma GoCaptureBest(v: Variant, ref: Referee, n: int, occ: Occupancy, me: Colour, keys: seq<Coord>)
    requires FullScan(v, ref, n, occ, me, keys).Tally?
    ensures var s := FullScan(v, ref, n, occ, me, keys);
      var res := GoCapture(v, ref, n, occ, me, keys);
      res.Some? ==>
        res.value in s.counts && s.counts[res.value] > 0 &&
        forall k :: k in s.counts ==> s.counts[k] <= s.counts[res.value]
  {
    var s := FullScan(v, ref, n, occ, me, keys);
    FullScanShape(v, ref, n, occ, me, keys);
    if s.order != [] {
      var c := FirstMax(s.order, Lift(s.counts));
      forall k | k in s.counts ensures s.counts[k] <= s.counts[c] {
        assert k in s.order;
      }
    }
  }

  /** In pygame that key was checked to be out of danger: the opponent
      cannot capture around it right after it is played. */
  lemma GoCaptureSafe(ref: Referee, n: int, occ: Occupancy, me: Colour, keys: seq<Coord>)
    requires FullScan(Pygame, ref, n, occ, me, keys).Tally?
    ensures var res := GoCapture(Pygame, ref, n, occ, me, keys);
      res.Some? ==> !Danger(ref, n, occ[res.value := me], Other(me), res.value)
  {
    var s := FullScan(Pygame, ref, n, occ, me, keys);
    FullScanGood(Pygame, ref, n, occ, me, keys);
    if s.order != [] {
      var c := FirstMax(s.order, Lift(s.counts));
      assert CandidateTest(Pygame, ref, n, occ, me)(c);
    }
  }

  // ---- the pygame2 skip: only the even-indexed neighbours are tried --------

  /** The odd-indexed elements o[1], o[3], …, o[2k - 1]. */
  function Odds(o: seq<Coord>, k: nat): (r: seq<Coord>)
    requires 2 * k <= |o|
    ensures |r| == k && forall j :: 0 <= j < k ==> r[j] == o[2 * j + 1]
  {
    if k == 0 then [] else Odds(o, k - 1) + [o[2 * k - 1]]
  }

  /** Trying o[0], o[2], o[4], … in turn, each time tallying against the
      whole list without the cells tried so far: pygame2's inner loop, as it
      runs once every try removes the tried cell. */
  ghost function EvensFrom(ref: Referee, occ: Occupancy, me: Colour, o: seq<Coord>, k: nat, s: Scan): Scan
    requires s.Tally?
    decreases |o| - 2 * k
  {
    if 2 * k >= |o| then s
    else
      var nb := o[2 * k];
      var placed := occ[nb := me];
      if ref.captures(placed, me, nb) != {} then Found(nb)
      else EvensFrom(ref, occ, me, o, k + 1, Bump(s, nb, CountCaptures(ref, placed, me, Odds(o, k) + o[2 * k + 1..])))
  }

  /** pygame2's inner loop is EvensFrom: after k tries the list is the k
      skipped odd-indexed cells followed by o[2k..], and the cursor is at k. */
  lemma {:induction false} NbScanEvens(ref: Referee, n: int, occ: Occupancy, me: Colour, o: seq<Coord>, k: nat, s: Scan)
    requires s.Tally? && 2 * k <= |o|
    ensures NbScan(Pygame2, ref, n, occ, me, Odds(o, k) + o[2 * k..], k, s) == EvensFrom(ref, occ, me, o, k, s)
    decreases |o| - 2 * k
  {
    if 2 * k < |o| {
      OddsShift(o, k);
      var nb := o[2 * k];
      var placed := occ[nb := me];
      if ref.captures(placed, me, nb) == {} {
        var s' := Bump(s, nb, CountCaptures(ref, placed, me, Odds(o, k) + o[2 * k + 1..]));
        if 2 * k + 1 < |o| {
          NbScanEvens(ref, n, occ, me, o, k + 1, s');
        }
      }
    }
  }

  /** The list after k tries: its cursor cell is o[2k], and removing it
      leaves the list after k + 1 tries, up to the next skipped cell. */
  lemma OddsShift(o: seq<Coord>, k: nat)
    requires 2 * k < |o|
    ensures (Odds(o, k) + o[2 * k..])[k] == o[2 * k]
    ensures RemoveAt(Odds(o, k) + o[2 * k..], k) == Odds(o, k) + o[2 * k + 1..]
    ensures 2 * k + 1 < |o| ==> Odds(o, k + 1) + o[2 * (k + 1)..] == Odds(o, k) + o[2 * k + 1..]
  {
    var nbs := Odds(o, k) + o[2 * k..];
    assert nbs[..k] == Odds(o, k);
    assert nbs[k + 1..] == o[2 * k + 1..];
    if 2 * k + 1 < |o| {
      assert Odds(o, k + 1) == Odds(o, k) + [o[2 * k + 1]];
      assert o[2 * k + 1..] == [o[2 * k + 1]] + o[2 * (k + 1)..];
    }
  }

  /** So a cell pygame2 finds capturing is at an even index of the list. */
  lemma {:induction false} EvensFound(ref: Referee, occ: Occupancy, me: Colour, o: seq<Coord>, k: nat, s: Scan)
    requires s.Tally?
    ensures EvensFrom(ref, occ, me, o, k, s).Found? ==>
      exists j :: k <= j && 2 * j < |o| && EvensFrom(ref, occ, me, o, k, s).cell == o[2 * j]
    decreases |o| - 2 * k
  {
    if 2 * k < |o| {
      var nb := o[2 * k];
      var placed := occ[nb := me];
      if ref.captures(placed, me, nb) == {} {
        EvensFound(ref, occ, me, o, k + 1, Bump(s, nb, CountCaptures(ref, placed, me, Odds(o, k) + o[2 * k + 1..])));
      }
    }
  }

  /** The inner loop of pygame2 on a neighbour list o finds only cells at
      even indices. */
  lemma Pygame2FindsEvens(ref: Referee, n: int, occ: Occupancy, me: Colour, o: seq<Coord>, s: Scan)
    requires s.Tally?
    ensures NbScan(Pygame2, ref, n, occ, me, o, 0, s).Found? ==>
      exists j :: 0 <= j && 2 * j < |o| && NbScan(Pygame2, ref, n, occ, me, o, 0, s).cell == o[2 * j]
  {
    assert Odds(o, 0) + o[0..] == o;
    NbScanEvens(ref, n, occ, me, o, 0, s);
    EvensFound(ref, occ, me, o, 0, s);
  }

  /** One more cell of rest counted by CountCaptures. */
  lemma CountCapturesStep(ref: Referee, n: int, placed: Occupancy, me: Colour, rest: seq<Coord>, x: int)
    requires Judges(ref, n) && 0 <= x < |rest|
    ensures CountCaptures(ref, placed, me, rest[..x + 1]) ==
      CountCaptures(ref, placed, me, rest[..x]) + (if CaptureSet(n, placed, me, rest[x]) != {} then 1 else 0)
  {
    assert rest[..x + 1][..x] == rest[..x];
    assert ref.captures(placed, me, rest[x]) == CaptureSet(n, placed, me, rest[x]);
  }

  /** The tally go_capture keeps for the neighbour nb: `choices[nb] += 1`
      for every cell of rest where a placement by me would capture on the
      board placed. */
  method CountFollowUps(n: int, placed: Occupancy, me: Colour, nb: Coord, rest: seq<Coord>,
                        choices: Scan, ghost ref: Referee)
    returns (choices': Scan)
    requires Judges(ref, n) && choices.Tally?
    ensures choices' == Bump(choices, nb, CountCaptures(ref, placed, me, rest))
  {
    choices' := choices;
    var x := 0;
    while x < |rest|
      invariant 0 <= x <= |rest|
      invariant choices' == Bump(choices, nb, CountCaptures(ref, placed, me, rest[..x]))
    {
      var captures := ValidCapture(n, placed, me, rest[x].0, rest[x].1);
      CountCapturesStep(ref, n, placed, me, rest, x);
      if captures != {} {
        BumpOnceMore(choices, nb, CountCaptures(ref, placed, me, rest[..x]));
        if nb in choices'.counts {
          choices' := Tally(choices'.counts[nb := choices'.counts[nb] + 1], choices'.order);
        } else {
          choices' := Tally(choices'.counts[nb := 1], choices'.order + [nb]);
        }
      }
      x := x + 1;
    }
    assert rest[..x] == rest;
  }
}
