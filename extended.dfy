/** Scores of the search: integers extended with the two infinities the
    agent writes as float('-inf') and float('inf'), the max/min it applies
    to them, and the "first maximal key" rule of Python's
    max(d, key=d.get). */
module Extended {
  import opened Hex

  datatype Ext = NegInf | Fin(v: int) | PosInf

  predicate Le(x: Ext, y: Ext) {
    match (x, y)
    case (NegInf, _) => true
    case (_, PosInf) => true
    case (Fin(a), Fin(b)) => a <= b
    case _ => false
  }

  predicate Lt(x: Ext, y: Ext) {
    !Le(y, x)
  }

  function Max(x: Ext, y: Ext): Ext {
    if Le(x, y) then y else x
  }

  function Min(x: Ext, y: Ext): Ext {
    if Le(x, y) then x else y
  }

  /** A value forced into the window [a, b]. */
  function Clamp(x: Ext, a: Ext, b: Ext): Ext {
    Max(a, Min(x, b))
  }

  lemma LeTotal(x: Ext, y: Ext)
    ensures Le(x, y) || Le(y, x)
    ensures Le(x, y) && Le(y, x) ==> x == y
  {
  }

  lemma LeTrans(x: Ext, y: Ext, z: Ext)
    requires Le(x, y) && Le(y, z)
    ensures Le(x, z)
  {
  }

  /** The window (−∞, +∞) of the root call clamps nothing. */
  lemma ClampFull(x: Ext)
    ensures Clamp(x, NegInf, PosInf) == x
  {
  }

  /** A clamped value lies in its window, and clamping twice changes nothing. */
  lemma ClampInWindow(x: Ext, a: Ext, b: Ext)
    requires Le(a, b)
    ensures Le(a, Clamp(x, a, b)) && Le(Clamp(x, a, b), b)
    ensures Clamp(Clamp(x, a, b), a, b) == Clamp(x, a, b)
    ensures Le(x, a) ==> Clamp(x, a, b) == a
    ensures Le(b, x) ==> Clamp(x, a, b) == b
    ensures Le(a, x) && Le(x, b) ==> Clamp(x, a, b) == x
  {
  }

  /** One child of a max node, fail-hard: w is what the child call returned
      under the window [a, b] and agrees with the child's value V once
      clamped.  Raising a to max(a, w) either closes the window (the node
      then returns b, which is already its clamped value whatever the other
      children R give) or leaves the clamped value unchanged. */
  lemma MaxStep(a: Ext, b: Ext, w: Ext, V: Ext, R: Ext)
    requires Le(a, b) && Clamp(w, a, b) == Clamp(V, a, b)
    ensures Le(a, Max(a, w))
    ensures Le(b, Max(a, w)) ==> Clamp(Max(V, R), a, b) == b
    ensures !Le(b, Max(a, w)) ==> Clamp(Max(V, R), a, b) == Clamp(R, Max(a, w), b)
  {
  }

  /** The mirror image for a min node: lowering b to min(b, w). */
  lemma MinStep(a: Ext, b: Ext, w: Ext, V: Ext, R: Ext)
    requires Le(a, b) && Clamp(w, a, b) == Clamp(V, a, b)
    ensures Le(Min(b, w), b)
    ensures Le(Min(b, w), a) ==> Clamp(Min(V, R), a, b) == a
    ensures !Le(Min(b, w), a) ==> Clamp(Min(V, R), a, b) == Clamp(R, a, Min(b, w))
  {
  }

  /** What max(d, key=d.get) returns when d's keys were inserted in the
      order `keys`: Python keeps the first key whose value no later key
      beats, i.e. the first key of maximal value. */
  function FirstMax(keys: seq<Coord>, vals: map<Coord, Ext>): (r: Coord)
    requires keys != []
    requires forall k :: k in keys ==> k in vals
    ensures r in keys && r in vals
    ensures forall k :: k in keys ==> Le(vals[k], vals[r])
    ensures exists i :: 0 <= i < |keys| && keys[i] == r &&
                  forall j :: 0 <= j < i ==> Lt(vals[keys[j]], vals[r])
  {
    if |keys| == 1 then keys[0]
    else
      var rest := FirstMax(keys[1..], vals);
      assert forall k :: k in keys ==> k == keys[0] || k in keys[1..];
      if Lt(vals[keys[0]], vals[rest]) then
        ghost var i :| 0 <= i < |keys[1..]| && keys[1..][i] == rest &&
                       forall j :: 0 <= j < i ==> Lt(vals[keys[1..][j]], vals[rest]);
        assert keys[i + 1] == rest;
        assert forall j :: 1 <= j < i + 1 ==> keys[j] == keys[1..][j - 1];
        rest
      else
        keys[0]
  }

  /** The integer scores of a tally, as extended values. */
  function Lift(m: map<Coord, int>): (r: map<Coord, Ext>)
    ensures r.Keys == m.Keys && forall k :: k in m ==> r[k] == Fin(m[k])
  {
    map k | k in m :: Fin(m[k])
  }

  /** What a child search returns agrees with the child's value once both
      are forced into the window. */
  lemma WindowAgrees(w: Ext, v: Ext, a: Ext, b: Ext, leaf: bool)
    requires leaf ==> w == v
    requires !leaf && Le(a, b) ==> w == Clamp(v, a, b)
    ensures Le(a, b) ==> Clamp(w, a, b) == Clamp(v, a, b)
  {
    if Le(a, b) {
      ClampInWindow(v, a, b);
    }
  }
}
