/**
 The index space an N-way array iterator walks: an extents value is an ordered
 sequence of per-dimension half-open ranges [lower, upper), and a coordinate
 tuple holds one index per dimension.
 */
module ArrayExtents {

  /** The bounds of one dimension, lower bound inclusive and upper bound exclusive. */
  datatype Bounds = Bounds(lower: int, upper: int)

  /** A well-formed dimension: it may be empty (lower == upper) but never negative. */
  type Range = b: Bounds | b.lower <= b.upper witness Bounds(0, 0)

  /** An N-dimensional axis-aligned box; N may be 0. */
  type Extents = seq<Range>

  /** One index per dimension. */
  type Coordinates = seq<int>

  /** Number of indices in one dimension. */
  function Size(r: Range): (n: nat) {
    r.upper - r.lower
  }

  /** Number of unique coordinate tuples in the box: the product of the sizes.
      The empty product is 1, so a 0-dimensional box holds exactly one tuple. */
  function Total(e: Extents): (t: nat)
    decreases |e|
  {
    if |e| == 0 then 1
    else
      var t := Total(e[..|e| - 1]);
      var s := Size(e[|e| - 1]);
      t * s
  }

  /** `c` is a member of the box `e`: one index per dimension, each in range. */
  predicate InBox(e: Extents, c: Coordinates) {
    && |c| == |e|
    && forall i :: 0 <= i < |e| ==> e[i].lower <= c[i] < e[i].upper
  }

  /** The first tuple of the box: every dimension at its lower bound. */
  function Lowers(e: Extents): (c: Coordinates)
    ensures |c| == |e|
    ensures forall i :: 0 <= i < |e| ==> c[i] == e[i].lower
    decreases |e|
  {
    if |e| == 0 then []
    else Lowers(e[..|e| - 1]) + [e[|e| - 1].lower]
  }

  /** A product of two naturals is positive exactly when both factors are. */
  lemma PositiveProduct(a: nat, b: nat)
    ensures a * b > 0 <==> a > 0 && b > 0
  {
    if a > 0 && b > 0 {
      assert a * b >= 1 * b;
    }
  }

  /** The count of a non-empty list of dimensions splits off its last dimension. */
  lemma TotalOfPrefix(e: Extents)
    requires |e| > 0
    ensures Total(e) == Total(e[..|e| - 1]) * Size(e[|e| - 1])
    ensures Total(e) > 0 <==> Total(e[..|e| - 1]) > 0 && Size(e[|e| - 1]) > 0
  {
    PositiveProduct(Total(e[..|e| - 1]), Size(e[|e| - 1]));
  }

  /** A box holds no tuple exactly when one of its dimensions is empty. */
  lemma {:induction false} TotalZeroIff(e: Extents)
    ensures Total(e) == 0 <==> exists d :: 0 <= d < |e| && Size(e[d]) == 0
    decreases |e|
  {
    if |e| > 0 {
      var n := |e| - 1;
      var p := e[..n];
      TotalZeroIff(p);
      if Total(e) == 0 {
        if Size(e[n]) != 0 {
          assert Total(p) == 0;
          var d :| 0 <= d < |p| && Size(p[d]) == 0;
          assert e[d] == p[d];
        }
      } else {
        assert Total(p) != 0 && Size(e[n]) != 0;
        forall d | 0 <= d < |e|
          ensures Size(e[d]) != 0
        {
          if d < n {
            assert e[d] == p[d];
          }
        }
      }
    }
  }

  /** A box holds a tuple exactly when its total count is positive. */
  lemma InBoxMeansNonEmpty(e: Extents, c: Coordinates)
    requires InBox(e, c)
    ensures Total(e) > 0
  {
    forall d | 0 <= d < |e|
      ensures Size(e[d]) != 0
    {
      assert e[d].lower <= c[d] < e[d].upper;
    }
    TotalZeroIff(e);
  }

  /** The lower corner is in the box whenever the box is non-empty. */
  lemma LowersInBox(e: Extents)
    requires Total(e) > 0
    ensures InBox(e, Lowers(e))
  {
    TotalZeroIff(e);
    forall i | 0 <= i < |e|
      ensures e[i].lower < e[i].upper
    {
      assert Size(e[i]) != 0;
    }
  }
}
