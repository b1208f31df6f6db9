/** The static evaluation of both strategy files: the critical count of a
    player (the span of its best-connected group, plus a bonus for the
    groups that reach it), the token differential `eval`, and the depth
    test `cutoff_test`.  The two variants differ in the bonus and in the
    "board full" test, so the definitions take the variant as a parameter. */
module Scores {
  import opened Hex
  import opened Connect
  import opened Groups
  import Queries

  datatype Variant = Pygame | Pygame2

  /** The critical length L: the largest number of distinct rows (Red) or
      columns (Blue) covered by one connected group of p; 0 without tokens. */
  ghost function CriticalLength(n: int, occ: Occupancy, p: Colour): nat {
    MaxSpan(Components(n, occ, p), p)
  }

  /** The groups that reach the critical length: by span in pygame, by
      number of tokens in pygame2. */
  ghost function CriticalGroups(v: Variant, n: int, occ: Occupancy, p: Colour): set<set<Coord>> {
    var L := CriticalLength(n, occ, p);
    match v
    case Pygame => set C | C in Components(n, occ, p) && Span(C, p) == L
    case Pygame2 => set C | C in Components(n, occ, p) && |C| == L
  }

  /** count_criticals (pygame) and count_critical_tokens (pygame2): L, plus
      the number of critical groups once L exceeds 2 (pygame) or 1 (pygame2). */
  ghost function Criticals(v: Variant, n: int, occ: Occupancy, p: Colour): nat {
    var L := CriticalLength(n, occ, p);
    if L > (if v == Pygame then 2 else 1) then L + |CriticalGroups(v, n, occ, p)| else L
  }

  /** eval(board, p): p's critical count plus its token lead. */
  ghost function Eval(v: Variant, n: int, occ: Occupancy, p: Colour): int {
    Criticals(v, n, occ, p) + (TokenCount(occ, p) - TokenCount(occ, Other(p)))
  }

  /** cutoff_test(board, depth): the board is full (n * n tokens in pygame,
      only n in pygame2) or the token count is a multiple of depth.  Python's
      % raises on depth 0; for any other depth, positive or negative, it
      leaves a zero remainder exactly when depth divides the count, as
      Dafny's does. */
  function Cutoff(v: Variant, n: int, occ: Occupancy, depth: int): bool
    requires depth != 0
  {
    |occ| == (if v == Pygame then n * n else n) || |occ| % depth == 0
  }

  /** At depth 1 every position is a cutoff. */
  lemma CutoffDepthOne(v: Variant, n: int, occ: Occupancy)
    ensures Cutoff(v, n, occ, 1)
  {
  }

  /** The token differentials of the two players cancel. */
  lemma EvalSum(v: Variant, n: int, occ: Occupancy)
    ensures Eval(v, n, occ, Red) + Eval(v, n, occ, Blue) ==
            Criticals(v, n, occ, Red) + Criticals(v, n, occ, Blue)
  {
  }

  /** The largest element of a set grown by one element. */
  lemma SetMaxInsert(s: set<nat>, x: nat)
    requires s != {}
    ensures SetMax(s + {x}) == if x > SetMax(s) then x else SetMax(s)
  {
    var m := SetMax(s + {x});
    var k := if x > SetMax(s) then x else SetMax(s);
    assert m <= k;
    assert k <= m;
  }

  /** Every token lies in its own component. */
  lemma OwnComponent(n: int, occ: Occupancy, p: Colour, s: Coord)
    requires s in occ && occ[s] == p
    ensures s in Component(n, occ, p, s) && Component(n, occ, p, s) in Components(n, occ, p)
  {
    ReachesRefl(n, occ, p, s);
    assert s in Tokens(occ, p);
  }

  /** L lies between 0 and n, and is 0 exactly when p has no tokens. */
  lemma CriticalLengthBounds(n: int, occ: Occupancy, p: Colour)
    requires n >= 0 && WellFormed(n, occ)
    ensures CriticalLength(n, occ, p) <= n
    ensures CriticalLength(n, occ, p) == 0 <==> TokenCount(occ, p) == 0
  {
    var C := Components(n, occ, p);
    var spans := {0} + set g | g in C :: Span(g, p);
    forall x | x in spans ensures x <= n {
      if x != 0 {
        var g :| g in C && x == Span(g, p);
        var s :| s in Tokens(occ, p) && g == Component(n, occ, p, s);
        SpanBounded(n, g, p);
      }
    }
    if TokenCount(occ, p) == 0 {
      assert Tokens(occ, p) == {};
      assert C == {};
      assert spans == {0};
    } else {
      var s :| s in occ && occ[s] == p;
      OwnComponent(n, occ, p, s);
      var g := Component(n, occ, p, s);
      forall c | c in g ensures InBounds(n, c) {
      }
      SpanBounded(n, g, p);
      assert Span(g, p) in spans;
    }
  }

  /** The critical count is 0 exactly when p has no tokens. */
  lemma CriticalsZeroIff(v: Variant, n: int, occ: Occupancy, p: Colour)
    requires n >= 0 && WellFormed(n, occ)
    ensures Criticals(v, n, occ, p) == 0 <==> TokenCount(occ, p) == 0
  {
    CriticalLengthBounds(n, occ, p);
  }

  /** In pygame, once L exceeds 2 the bonus is at least 1: the group that
      attains the maximum span is itself counted. */
  lemma CriticalsBonus(n: int, occ: Occupancy, p: Colour)
    requires CriticalLength(n, occ, p) > 2
    ensures Criticals(Pygame, n, occ, p) > CriticalLength(n, occ, p)
  {
    var C := Components(n, occ, p);
    var L := CriticalLength(n, occ, p);
    assert L in {0} + set g | g in C :: Span(g, p);
    var g :| g in C && L == Span(g, p);
    assert g in CriticalGroups(Pygame, n, occ, p);
  }

  /** The critical count never exceeds L plus the number of groups. */
  lemma CriticalsAtMost(v: Variant, n: int, occ: Occupancy, p: Colour)
    ensures CriticalLength(n, occ, p) <= Criticals(v, n, occ, p)
    ensures Criticals(v, n, occ, p) <= CriticalLength(n, occ, p) + |Components(n, occ, p)|
  {
    Queries.SubsetCard(CriticalGroups(v, n, occ, p), Components(n, occ, p));
  }

  // ---- Counting groups by index -------------------------------------------

  /** A list without repeats has as many cells as elements. */
  lemma {:induction false} DistinctCard(s: seq<Coord>)
    requires Distinct(s)
    ensures |Elems(s)| == |s|
  {
    if s != [] {
      var t := s[..|s| - 1];
      assert Distinct(t);
      DistinctCard(t);
      assert Elems(s) == Elems(t) + {s[|s| - 1]};
      assert s[|s| - 1] !in Elems(t);
    }
  }

  /** Indices of different groups name different cell sets, so counting
      indices counts cell sets. */
  lemma {:induction false} ImageCard(n: int, occ: Occupancy, p: Colour, groups: seq<seq<Coord>>, S: set<nat>)
    requires IsPartition(n, occ, p, groups)
    requires forall i :: i in S ==> i < |groups|
    ensures |set i | i in S :: Elems(groups[i])| == |S|
  {
    if S != {} {
      var k :| k in S;
      var S' := S - {k};
      ImageCard(n, occ, p, groups, S');
      var img' := set i | i in S' :: Elems(groups[i]);
      assert (set i | i in S :: Elems(groups[i])) == img' + {Elems(groups[k])};
      forall i | i in S' ensures Elems(groups[i]) != Elems(groups[k]) {
        if i < k {
          PartitionElemsInjective(n, occ, p, groups, i, k);
        } else {
          PartitionElemsInjective(n, occ, p, groups, k, i);
        }
      }
      assert Elems(groups[k]) !in img';
    }
  }

  /** The components with a property are the cell sets of the groups with
      it, and there are as many of them as such groups. */
  lemma CountMatching(n: int, occ: Occupancy, p: Colour, groups: seq<seq<Coord>>, P: set<Coord> -> bool)
    requires WellFormed(n, occ) && IsPartition(n, occ, p, groups)
    ensures |set C | C in Components(n, occ, p) && P(C)| ==
            |set i: nat | i < |groups| && P(Elems(groups[i]))|
  {
    var S := set i: nat | i < |groups| && P(Elems(groups[i]));
    PartitionIsComponents(n, occ, p, groups);
    assert (set C | C in Components(n, occ, p) && P(C)) == set i | i in S :: Elems(groups[i]) by {
      forall C | C in Components(n, occ, p) && P(C)
        ensures exists i :: i in S && C == Elems(groups[i])
      {
        assert C in (set g | g in groups :: Elems(g));
        var g :| g in groups && Elems(g) == C;
        var i :| 0 <= i < |groups| && groups[i] == g;
        assert i in S;
      }
      forall i | i in S ensures Elems(groups[i]) in Components(n, occ, p) {
        assert groups[i] in groups;
      }
    }
    ImageCard(n, occ, p, groups, S);
  }

  /** The spans of the groups are the spans of the components. */
  lemma SpansMatch(n: int, occ: Occupancy, p: Colour, groups: seq<seq<Coord>>)
    requires WellFormed(n, occ) && IsPartition(n, occ, p, groups)
    ensures (set C | C in Components(n, occ, p) :: Span(C, p)) ==
            (set i | 0 <= i < |groups| :: Span(Elems(groups[i]), p))
  {
    PartitionIsComponents(n, occ, p, groups);
    var spans := set C | C in Components(n, occ, p) :: Span(C, p);
    forall x | x in spans
      ensures exists i :: 0 <= i < |groups| && x == Span(Elems(groups[i]), p)
    {
      var C :| C in Components(n, occ, p) && x == Span(C, p);
      assert C in (set g | g in groups :: Elems(g));
      var g :| g in groups && Elems(g) == C;
      var i :| 0 <= i < |groups| && groups[i] == g;
    }
    forall i | 0 <= i < |groups| ensures Span(Elems(groups[i]), p) in spans {
      assert groups[i] in groups;
      assert Elems(groups[i]) in Components(n, occ, p);
    }
  }

  /** The loop of count_criticals that collects the distinct rows (Red) or
      columns (Blue) of one group; both variants have it. */
  method GroupSpan(group: seq<Coord>, p: Colour) returns (len: nat)
    ensures len == Span(Elems(group), p)
  {
    var critical: seq<int> := [];
    var j := 0;
    while j < |group|
      invariant 0 <= j <= |group|
      invariant forall a, b :: 0 <= a < b < |critical| ==> critical[a] != critical[b]
      invariant (set x | x in critical) == set c | c in group[..j] :: Axis(p, c)
    {
      var x := Axis(p, group[j]);
      assert group[..j + 1] == group[..j] + [group[j]];
      assert (set c | c in group[..j + 1] :: Axis(p, c)) == (set c | c in group[..j] :: Axis(p, c)) + {x};
      if x !in critical {
        assert (set y | y in critical + [x]) == (set y | y in critical) + {x};
        critical := critical + [x];
      }
      j := j + 1;
    }
    assert group[..j] == group;
    assert (set c | c in Elems(group) :: Axis(p, c)) == set x | x in critical;
    DistinctIntsCard(critical);
    len := |critical|;
  }

  lemma {:induction false} DistinctIntsCard(s: seq<int>)
    requires forall a, b :: 0 <= a < b < |s| ==> s[a] != s[b]
    ensures |set x | x in s| == |s|
  {
    if s != [] {
      var t := s[..|s| - 1];
      DistinctIntsCard(t);
      assert (set x | x in s) == (set x | x in t) + {s[|s| - 1]};
      assert s[|s| - 1] !in (set x | x in t);
    }
  }

  /** The largest span among the first k groups, 0 before any. */
  ghost function SpanPrefixMax(groups: seq<seq<Coord>>, p: Colour, k: int): nat
    requires 0 <= k <= |groups|
  {
    SetMax({0} + set i | 0 <= i < k :: Span(Elems(groups[i]), p))
  }

  /** Extending the prefix by one group maxes in its span. */
  lemma SpanPrefixStep(groups: seq<seq<Coord>>, p: Colour, k: int)
    requires 0 <= k < |groups|
    ensures SpanPrefixMax(groups, p, k + 1) ==
            if Span(Elems(groups[k]), p) > SpanPrefixMax(groups, p, k) then Span(Elems(groups[k]), p)
            else SpanPrefixMax(groups, p, k)
  {
    var s := {0} + set i | 0 <= i < k :: Span(Elems(groups[i]), p);
    assert {0} + (set i | 0 <= i < k + 1 :: Span(Elems(groups[i]), p)) == s + {Span(Elems(groups[k]), p)};
    SetMaxInsert(s, Span(Elems(groups[k]), p));
  }

  /** Over all groups of a partition, the prefix maximum is L. */
  lemma SpanPrefixAll(n: int, occ: Occupancy, p: Colour, groups: seq<seq<Coord>>)
    requires WellFormed(n, occ) && IsPartition(n, occ, p, groups)
    ensures SpanPrefixMax(groups, p, |groups|) == CriticalLength(n, occ, p)
  {
    SpansMatch(n, occ, p, groups);
  }
}
