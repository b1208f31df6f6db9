/** find_all_groups and find_group_tokens, which read the same in both
    strategy files: the connected groups of one player's tokens. */
module Groups {
  import opened Hex
  import opened Connect
  import opened Queries

  /** No cell occurs in two of the lists. */
  ghost predicate PairwiseDisjoint(groups: seq<seq<Coord>>) {
    forall i, j, x :: 0 <= i < j < |groups| && x in groups[i] ==> x !in groups[j]
  }

  /** Each list is non-empty, has no repeats, and holds exactly the tokens
      connected to its first cell. */
  ghost predicate WellShaped(n: int, occ: Occupancy, p: Colour, groups: seq<seq<Coord>>) {
    forall i :: 0 <= i < |groups| ==>
      groups[i] != [] && Distinct(groups[i]) &&
      Elems(groups[i]) == Component(n, occ, p, groups[i][0])
  }

  /** `groups` lists the connected groups of p's tokens: each is a
      non-empty list without repeats holding exactly the tokens connected to
      its first cell, no two share a cell, and every token of p is in one. */
  ghost predicate IsPartition(n: int, occ: Occupancy, p: Colour, groups: seq<seq<Coord>>) {
    WellShaped(n, occ, p, groups) &&
    PairwiseDisjoint(groups) &&
    (forall x :: x in occ && occ[x] == p ==> exists i :: 0 <= i < |groups| && x in groups[i])
  }

  lemma DistinctAppend(a: seq<Coord>, b: seq<Coord>)
    requires Distinct(a) && Distinct(b)
    requires forall x :: x in b ==> x !in a
    ensures Distinct(a + b)
  {
    forall i, j | 0 <= i < j < |a + b| ensures (a + b)[i] != (a + b)[j] {
      if i < |a| && j >= |a| {
        assert (a + b)[j] == b[j - |a|];
        assert (a + b)[i] in a;
      }
    }
  }

  /** Every cell of E has all its p-neighbours in E. */
  ghost predicate AllClosed(n: int, occ: Occupancy, p: Colour, E: seq<Coord>) {
    forall x :: x in E ==> ClosedIn(n, occ, p, x, E)
  }

  /** Cells new to `explored`, without repeats, that are p's tokens reachable
      from start. */
  ghost predicate FreshFrom(n: int, occ: Occupancy, p: Colour, start: Coord, explored: seq<Coord>, D: seq<Coord>) {
    Distinct(D) &&
    forall x :: x in D ==>
      x !in explored && x in occ && occ[x] == p && InBounds(n, x) && Reaches(n, occ, p, start, x)
  }

  /** Every cell of D except `skip` has all its p-neighbours in E. */
  ghost predicate ClosedBut(n: int, occ: Occupancy, p: Colour, D: seq<Coord>, skip: Coord, E: seq<Coord>) {
    forall x :: x in D && x != skip ==> ClosedIn(n, occ, p, x, E)
  }

  /** What one call of find_group_tokens adds to both lists: D, a list
      without repeats that starts the crawl at `start`, of p's tokens that
      were unexplored, are reachable from start and have all their
      p-neighbours explored afterwards. */
  ghost predicate Grown(n: int, occ: Occupancy, p: Colour, start: Coord, explored: seq<Coord>, D: seq<Coord>) {
    D != [] && D[0] == start && FreshFrom(n, occ, p, start, explored, D) &&
    forall x :: x in D ==> ClosedIn(n, occ, p, x, explored + D)
  }

  lemma AppendAssoc(a: seq<Coord>, b: seq<Coord>, c: seq<Coord>)
    ensures a + b + c == a + (b + c)
  {
  }

  /** The cells D2 added by a crawl from nb do not repeat D's. */
  lemma GrowDistinct(n: int, occ: Occupancy, p: Colour, start: Coord, nb: Coord,
                     explored: seq<Coord>, D: seq<Coord>, D2: seq<Coord>)
    requires FreshFrom(n, occ, p, start, explored, D)
    requires Grown(n, occ, p, nb, explored + D, D2)
    ensures Distinct(D + D2)
  {
    DistinctAppend(D, D2);
  }

  /** The cells reached from nb are reached from start, one step before. */
  lemma GrowReach(n: int, occ: Occupancy, p: Colour, start: Coord, nb: Coord,
                  explored: seq<Coord>, D: seq<Coord>, D2: seq<Coord>)
    requires Step(n, occ, p, start, nb)
    requires Grown(n, occ, p, nb, explored + D, D2)
    ensures forall x :: x in D2 ==> Reaches(n, occ, p, start, x)
  {
    forall x | x in D2 ensures Reaches(n, occ, p, start, x) {
      ReachesPrepend(n, occ, p, start, nb, x);
    }
  }

  /** Closedness survives the crawl's additions. */
  lemma GrowClosed(n: int, occ: Occupancy, p: Colour, start: Coord,
                   explored: seq<Coord>, D: seq<Coord>, D2: seq<Coord>)
    requires ClosedBut(n, occ, p, D, start, explored + D)
    ensures ClosedBut(n, occ, p, D, start, explored + D + D2)
  {
    forall x | x in D && x != start ensures ClosedIn(n, occ, p, x, explored + D + D2) {
      ClosedInGrow(n, occ, p, x, explored + D, explored + D + D2);
    }
  }

  /** One recursive call inside the neighbour loop of find_group_tokens:
      the cells D2 it adds, grown from the neighbour nb, extend D. */
  lemma GrowStep(n: int, occ: Occupancy, p: Colour, start: Coord, nb: Coord,
                 explored: seq<Coord>, D: seq<Coord>, D2: seq<Coord>)
    requires D != [] && D[0] == start && FreshFrom(n, occ, p, start, explored, D)
    requires ClosedBut(n, occ, p, D, start, explored + D)
    requires Step(n, occ, p, start, nb)
    requires Grown(n, occ, p, nb, explored + D, D2)
    ensures D + D2 != [] && (D + D2)[0] == start && FreshFrom(n, occ, p, start, explored, D + D2)
    ensures ClosedBut(n, occ, p, D + D2, start, explored + (D + D2))
  {
    GrowDistinct(n, occ, p, start, nb, explored, D, D2);
    GrowReach(n, occ, p, start, nb, explored, D, D2);
    GrowClosed(n, occ, p, start, explored, D, D2);
    AppendAssoc(explored, D, D2);
  }

  /** The state of find_group_tokens's neighbour loop after i neighbours of
      start: both lists have grown by the same cells D, and nbs[..i] are
      explored. */
  ghost predicate CrawlState(n: int, occ: Occupancy, p: Colour, start: Coord,
                             group: seq<Coord>, explored: seq<Coord>, nbs: seq<Coord>, i: int,
                             group': seq<Coord>, explored': seq<Coord>, D: seq<Coord>) {
    0 <= i <= |nbs| &&
    group' == group + D && explored' == explored + D &&
    (forall x :: x in group' ==> x in explored') &&
    D != [] && D[0] == start && FreshFrom(n, occ, p, start, explored, D) &&
    ClosedBut(n, occ, p, D, start, explored') &&
    (forall x :: x in nbs[..i] ==> x in explored')
  }

  /** The loop state before the first neighbour: start alone is added. */
  lemma CrawlStart(n: int, occ: Occupancy, p: Colour, start: Coord,
                   group: seq<Coord>, explored: seq<Coord>, nbs: seq<Coord>)
    requires start in occ && occ[start] == p && InBounds(n, start) && start !in explored
    requires forall x :: x in group ==> x in explored
    ensures CrawlState(n, occ, p, start, group, explored, nbs, 0,
                       group + [start], explored + [start], [start])
  {
    ReachesRefl(n, occ, p, start);
  }

  /** The loop state after a neighbour that starts a crawl of its own. */
  lemma VisitStep(n: int, occ: Occupancy, p: Colour, start: Coord,
                  group: seq<Coord>, explored: seq<Coord>, nbs: seq<Coord>, i: int,
                  group': seq<Coord>, explored': seq<Coord>, D: seq<Coord>,
                  g2: seq<Coord>, e2: seq<Coord>)
    requires CrawlState(n, occ, p, start, group, explored, nbs, i, group', explored', D)
    requires i < |nbs| && Step(n, occ, p, start, nbs[i])
    requires |group'| <= |g2| && g2 == group' + g2[|group'|..]
    requires e2 == explored' + g2[|group'|..]
    requires Grown(n, occ, p, nbs[i], explored', g2[|group'|..])
    ensures CrawlState(n, occ, p, start, group, explored, nbs, i + 1, g2, e2, D + g2[|group'|..])
  {
    var D2 := g2[|group'|..];
    GrowStep(n, occ, p, start, nbs[i], explored, D, D2);
    AppendAssoc(group, D, D2);
    AppendAssoc(explored, D, D2);
    KeepsMembers(explored', D2, nbs[..i]);
    KeepsMembers(group', D2, group');
    PrefixStep(nbs, i);
  }

  /** The loop state after a neighbour that is already explored. */
  lemma SkipStep(n: int, occ: Occupancy, p: Colour, start: Coord,
                 group: seq<Coord>, explored: seq<Coord>, nbs: seq<Coord>, i: int,
                 group': seq<Coord>, explored': seq<Coord>, D: seq<Coord>)
    requires CrawlState(n, occ, p, start, group, explored, nbs, i, group', explored', D)
    requires i < |nbs| && (nbs[i] in explored' || nbs[i] in group')
    ensures CrawlState(n, occ, p, start, group, explored, nbs, i + 1, group', explored', D)
  {
    PrefixStep(nbs, i);
  }

  /** find_group_tokens(start, p, group, explored): append start and every
      token connected to it that is not yet explored to both lists. */
  method FindGroupTokens(n: int, occ: Occupancy, start: Coord, p: Colour, group: seq<Coord>, explored: seq<Coord>)
    returns (group': seq<Coord>, explored': seq<Coord>)
    requires start in occ && occ[start] == p && InBounds(n, start) && start !in explored
    requires forall x :: x in group ==> x in explored
    ensures |group| <= |group'| && group' == group + group'[|group|..]
    ensures explored' == explored + group'[|group|..]
    ensures Grown(n, occ, p, start, explored, group'[|group|..])
    decreases Unexplored(occ, p, explored)
  {
    ghost var D := [start];
    group' := group + [start];
    explored' := explored + [start];
    var nbs := FindNeighbours(n, occ, start, Some(p));
    var i := 0;
    CrawlStart(n, occ, p, start, group, explored, nbs);
    while i < |nbs|
      invariant CrawlState(n, occ, p, start, group, explored, nbs, i, group', explored', D)
    {
      var nb := nbs[i];
      if nb !in explored' && nb !in group' {
        StepIsNeighbour(n, occ, p, start, nb);
        UnexploredShrinks(occ, p, explored, explored', start);
        var g2, e2 := FindGroupTokens(n, occ, nb, p, group', explored');
        VisitStep(n, occ, p, start, group, explored, nbs, i, group', explored', D, g2, e2);
        D := D + g2[|group'|..];
        group', explored' := g2, e2;
      } else {
        SkipStep(n, occ, p, start, group, explored, nbs, i, group', explored', D);
      }
      i := i + 1;
    }
    CrawlDone(n, occ, p, start, group, explored, nbs, group', explored', D);
  }

  /** The loop state after the last neighbour gives the crawl's contract. */
  lemma CrawlDone(n: int, occ: Occupancy, p: Colour, start: Coord,
                  group: seq<Coord>, explored: seq<Coord>, nbs: seq<Coord>,
                  group': seq<Coord>, explored': seq<Coord>, D: seq<Coord>)
    requires nbs == FindNeighbours(n, occ, start, Some(p))
    requires CrawlState(n, occ, p, start, group, explored, nbs, |nbs|, group', explored', D)
    ensures |group| <= |group'| && group' == group + group'[|group|..]
    ensures explored' == explored + group'[|group|..]
    ensures Grown(n, occ, p, start, explored, group'[|group|..])
  {
    assert nbs[..|nbs|] == nbs;
    forall y | Step(n, occ, p, start, y) ensures y in explored' {
      StepIsNeighbour(n, occ, p, start, y);
    }
    GrownDone(n, occ, p, start, explored, D);
    assert group'[|group|..] == D;
  }

  lemma PrefixStep(xs: seq<Coord>, i: int)
    requires 0 <= i < |xs|
    ensures xs[..i + 1] == xs[..i] + [xs[i]]
  {
  }

  lemma KeepsMembers(E: seq<Coord>, D: seq<Coord>, xs: seq<Coord>)
    requires forall x :: x in xs ==> x in E
    ensures forall x :: x in xs ==> x in E + D
  {
  }

  /** Once start's own neighbours are explored, the crawl is complete. */
  lemma GrownDone(n: int, occ: Occupancy, p: Colour, start: Coord, explored: seq<Coord>, D: seq<Coord>)
    requires D != [] && D[0] == start && FreshFrom(n, occ, p, start, explored, D)
    requires ClosedBut(n, occ, p, D, start, explored + D)
    requires ClosedIn(n, occ, p, start, explored + D)
    ensures Grown(n, occ, p, start, explored, D)
  {
  }

  /** In a closed set, a p-token connected to a member is a member, and
      since connection is symmetric, so is the other way round. */
  lemma ClosedBack(n: int, occ: Occupancy, p: Colour, E: seq<Coord>, c: Coord, t: Coord)
    requires AllClosed(n, occ, p, E)
    requires c in occ && occ[c] == p && InBounds(n, c) && Reaches(n, occ, p, c, t)
    ensures t in E ==> c in E
  {
    if t in E {
      ReachesSymmetric(n, occ, p, c, t);
      ClosedHoldsReach(n, occ, p, E, t, c);
    }
  }

  /** What find_all_groups has built so far: the groups found, and the
      explored list, which holds exactly their cells and is closed. */
  ghost predicate GroupsSoFar(n: int, occ: Occupancy, p: Colour, groups: seq<seq<Coord>>, explored: seq<Coord>) {
    (forall x :: x in explored ==> x in occ && occ[x] == p && InBounds(n, x)) &&
    AllClosed(n, occ, p, explored) &&
    WellShaped(n, occ, p, groups) &&
    PairwiseDisjoint(groups) &&
    (forall x :: x in explored <==> exists i :: 0 <= i < |groups| && x in groups[i])
  }

  /** The crawl from an unexplored token c adds exactly c's component. */
  lemma CrawlIsComponent(n: int, occ: Occupancy, p: Colour, explored: seq<Coord>, c: Coord, D: seq<Coord>)
    requires AllClosed(n, occ, p, explored)
    requires c in occ && occ[c] == p && InBounds(n, c) && c !in explored
    requires Grown(n, occ, p, c, explored, D)
    ensures AllClosed(n, occ, p, explored + D)
    ensures Elems(D) == Component(n, occ, p, c)
  {
    var E := explored + D;
    forall x | x in explored ensures ClosedIn(n, occ, p, x, E) {
      ClosedInGrow(n, occ, p, x, explored, E);
    }
    forall t | t in Component(n, occ, p, c) ensures t in D {
      ClosedHoldsReach(n, occ, p, E, c, t);
      ClosedBack(n, occ, p, explored, c, t);
    }
  }

  /** Appending a group of cells that are all unexplored keeps the groups
      pairwise disjoint and the explored list equal to their union. */
  lemma AppendGroup(groups: seq<seq<Coord>>, explored: seq<Coord>, D: seq<Coord>)
    requires PairwiseDisjoint(groups)
    requires forall x :: x in explored <==> exists i :: 0 <= i < |groups| && x in groups[i]
    requires forall x :: x in D ==> x !in explored
    ensures PairwiseDisjoint(groups + [D])
    ensures forall x :: x in explored + D <==> exists i :: 0 <= i < |groups + [D]| && x in (groups + [D])[i]
  {
    var gs := groups + [D];
    forall i, j, x | 0 <= i < j < |gs| && x in gs[i] ensures x !in gs[j] {
      if j == |groups| {
        assert x in groups[i];
      }
    }
    forall x | x in explored + D ensures exists i :: 0 <= i < |gs| && x in gs[i] {
      if x in D {
        assert x in gs[|groups|];
      } else {
        var i :| 0 <= i < |groups| && x in groups[i];
        assert x in gs[i];
      }
    }
    forall x | (exists i :: 0 <= i < |gs| && x in gs[i]) ensures x in explored + D {
      var i :| 0 <= i < |gs| && x in gs[i];
      if i < |groups| {
        assert x in groups[i];
      }
    }
  }

  /** A crawl from an unexplored token c adds exactly c's component as a
      new group. */
  lemma AddGroup(n: int, occ: Occupancy, p: Colour, groups: seq<seq<Coord>>, explored: seq<Coord>,
                 c: Coord, D: seq<Coord>)
    requires GroupsSoFar(n, occ, p, groups, explored)
    requires c in occ && occ[c] == p && InBounds(n, c) && c !in explored
    requires Grown(n, occ, p, c, explored, D)
    ensures GroupsSoFar(n, occ, p, groups + [D], explored + D)
  {
    CrawlIsComponent(n, occ, p, explored, c, D);
    AppendGroup(groups, explored, D);
    AppendShaped(n, occ, p, groups, D);
  }

  lemma AppendShaped(n: int, occ: Occupancy, p: Colour, groups: seq<seq<Coord>>, D: seq<Coord>)
    requires WellShaped(n, occ, p, groups)
    requires D != [] && Distinct(D) && Elems(D) == Component(n, occ, p, D[0])
    ensures WellShaped(n, occ, p, groups + [D])
  {
    assert forall i :: 0 <= i < |groups| ==> (groups + [D])[i] == groups[i];
  }

  /** find_all_groups(p): one crawl for every token of p not yet explored;
      the order the map is walked in does not matter. */
  method FindAllGroups(n: int, occ: Occupancy, p: Colour) returns (groups: seq<seq<Coord>>)
    requires WellFormed(n, occ)
    ensures IsPartition(n, occ, p, groups)
  {
    groups := [];
    var explored: seq<Coord> := [];
    var remaining := occ.Keys;
    while remaining != {}
      invariant remaining <= occ.Keys
      invariant GroupsSoFar(n, occ, p, groups, explored)
      invariant forall c :: c in occ && c !in remaining && occ[c] == p ==> c in explored
      decreases remaining
    {
      var c :| c in remaining;
      if occ[c] == p && c !in explored {
        var group, explored2 := FindGroupTokens(n, occ, c, p, [], explored);
        assert group[0..] == group;
        AddGroup(n, occ, p, groups, explored, c, group);
        groups := groups + [group];
        explored := explored2;
      }
      remaining := remaining - {c};
    }
  }

  /** Each group is closed under same-colour adjacency. */
  lemma GroupClosed(n: int, occ: Occupancy, p: Colour, groups: seq<seq<Coord>>, i: int, x: Coord, y: Coord)
    requires IsPartition(n, occ, p, groups) && 0 <= i < |groups|
    requires x in groups[i] && Step(n, occ, p, x, y)
    ensures y in groups[i]
  {
    assert x in Component(n, occ, p, groups[i][0]);
    ReachesAppend(n, occ, p, groups[i][0], x, y);
    assert y in Component(n, occ, p, groups[i][0]);
  }

  /** Two tokens of one component have the same component. */
  lemma SameComponent(n: int, occ: Occupancy, p: Colour, h: Coord, s: Coord)
    requires h in occ && occ[h] == p && InBounds(n, h)
    requires s in Component(n, occ, p, h)
    ensures Component(n, occ, p, s) == Component(n, occ, p, h)
  {
    ReachesSymmetric(n, occ, p, h, s);
    forall t | t in Component(n, occ, p, s) ensures t in Component(n, occ, p, h) {
      ReachesTrans(n, occ, p, h, s, t);
    }
    forall t | t in Component(n, occ, p, h) ensures t in Component(n, occ, p, s) {
      ReachesTrans(n, occ, p, s, h, t);
    }
  }

  /** The cell sets of a partition are exactly the connected components. */
  lemma PartitionIsComponents(n: int, occ: Occupancy, p: Colour, groups: seq<seq<Coord>>)
    requires WellFormed(n, occ) && IsPartition(n, occ, p, groups)
    ensures (set g | g in groups :: Elems(g)) == Components(n, occ, p)
  {
    forall C | C in Components(n, occ, p) ensures C in (set g | g in groups :: Elems(g)) {
      var s :| s in Tokens(occ, p) && C == Component(n, occ, p, s);
      var i :| 0 <= i < |groups| && s in groups[i];
      var h := groups[i][0];
      assert h in Component(n, occ, p, h);
      SameComponent(n, occ, p, h, s);
      assert Elems(groups[i]) == C;
    }
    forall g | g in groups ensures Elems(g) in Components(n, occ, p) {
      var i :| 0 <= i < |groups| && groups[i] == g;
      assert g[0] in Component(n, occ, p, g[0]);
      assert g[0] in Tokens(occ, p);
    }
  }

  /** Distinct groups have distinct cell sets. */
  lemma PartitionElemsInjective(n: int, occ: Occupancy, p: Colour, groups: seq<seq<Coord>>, i: int, j: int)
    requires IsPartition(n, occ, p, groups)
    requires 0 <= i < j < |groups|
    ensures Elems(groups[i]) != Elems(groups[j])
  {
    assert groups[i][0] in Elems(groups[i]);
    assert groups[i][0] !in groups[j];
  }
}
