/**
 vtkArrayCoordinateIterator: a cursor that visits every unique coordinate
 tuple of an N-way array's extents exactly once.

 The object's state is its extents, the scratch tuple it will hand out next,
 and two linear counters `current` and `end`. The C++ class mutates itself;
 here each operation takes the old state and returns the new one.
 */
module CoordinateIterator {
  import opened ArrayExtents
  import opened MixedRadix
  import opened Odometer

  datatype Iterator = Iterator(
    extents: Extents,
    coordinates: Coordinates,
    current: int,
    end: int)

  /** The object invariant: the counters bracket the range of the extents, and
      while the range is not exhausted the scratch tuple is the tuple at the
      current linear position. */
  predicate Valid(it: Iterator) {
    && 0 <= it.current <= it.end
    && it.end == Total(it.extents)
    && (it.current < it.end ==> it.coordinates == Decompose(it.extents, it.current))
  }

  /** What `Next` produces: the tuple together with the advanced iterator, or
      the signal that the range was already exhausted. */
  datatype NextResult =
    | Advanced(coordinates: Coordinates, rest: Iterator)
    | IteratorExhausted

  /** Bind new extents and restart at the beginning of their range. Whatever
      `it` had done before is discarded. */
  function SetExtents(it: Iterator, e: Extents): (r: Iterator)
    ensures Valid(r)
    ensures r.extents == e && r.current == 0
    ensures r.end == Total(e)
  {
    var r := Iterator(e, Lowers(e), 0, Total(e));
    assert Valid(r) by {
      if Total(e) > 0 {
        DecomposeZero(e);
      }
    }
    r
  }

  /** True while the range of unique tuples has not been used up. */
  function HasNext(it: Iterator): (b: bool)
    ensures Valid(it) ==> (b <==> it.current < Total(it.extents))
  {
    it.current < it.end
  }

  /** Hand out the scratch tuple and advance it one odometer step. */
  function Next(it: Iterator): (r: NextResult)
    requires Valid(it)
    ensures r.IteratorExhausted? <==> !HasNext(it)
    ensures r.Advanced? ==>
      && Valid(r.rest)
      && r.rest.current == it.current + 1
      && r.rest.extents == it.extents
      && r.rest.end == it.end
      && InBox(it.extents, r.coordinates)
      && r.coordinates == Decompose(it.extents, it.current)
  {
    if it.current < it.end then
      var c := it.coordinates;
      var rest := it.(coordinates := Increment(it.extents, c), current := it.current + 1);
      assert Valid(rest) by {
        if rest.current < rest.end {
          IncrementIsSuccessor(it.extents, it.current);
        }
      }
      Advanced(c, rest)
    else
      IteratorExhausted
  }

  /** `r` lists the tuples of `e` at the consecutive linear positions
      `from`, `from + 1`, ..., all of them inside the range of `e`. */
  predicate ListsFrom(e: Extents, from: int, r: seq<Coordinates>) {
    && 0 <= from
    && from + |r| <= Total(e)
    && forall i :: 0 <= i < |r| ==> r[i] == Decompose(e, from + i)
  }

  /** A listing extended at the front by the tuple of the previous position. */
  lemma ListsFromCons(e: Extents, from: int, c: Coordinates, r: seq<Coordinates>)
    requires 0 <= from < Total(e) && c == Decompose(e, from)
    requires ListsFrom(e, from + 1, r)
    ensures ListsFrom(e, from, [c] + r)
  {
    var r' := [c] + r;
    forall i | 0 <= i < |r'|
      ensures r'[i] == Decompose(e, from + i)
    {
      if i > 0 {
        assert r'[i] == r[i - 1];
      }
    }
  }

  /** A listing extended at the back by the tuple of the following position. */
  lemma ListsFromSnoc(e: Extents, from: int, r: seq<Coordinates>, c: Coordinates)
    requires ListsFrom(e, from, r)
    requires from + |r| < Total(e) && c == Decompose(e, from + |r|)
    ensures ListsFrom(e, from, r + [c])
  {
    var r' := r + [c];
    forall i | 0 <= i < |r'|
      ensures r'[i] == Decompose(e, from + i)
    {
      if i < |r| {
        assert r'[i] == r[i];
      }
    }
  }

  /** The tuples handed out by calling `Next` until `HasNext` is false. */
  function Run(it: Iterator): (r: seq<Coordinates>)
    requires Valid(it)
    ensures |r| == it.end - it.current
    decreases it.end - it.current
  {
    var step := Next(it);
    if step.IteratorExhausted? then [] else [step.coordinates] + Run(step.rest)
  }

  /** The i-th tuple of a run is the one at linear position `current + i`. */
  lemma {:induction false} RunListsPositions(it: Iterator)
    requires Valid(it)
    ensures ListsFrom(it.extents, it.current, Run(it))
    decreases it.end - it.current
  {
    if HasNext(it) {
      var step := Next(it);
      var tail := Run(step.rest);
      assert Run(it) == [step.coordinates] + tail;
      RunListsPositions(step.rest);
      ListsFromCons(it.extents, it.current, step.coordinates, tail);
    }
  }

  /** All tuples of the box, in order of their linear position. */
  function Enumeration(e: Extents): (r: seq<Coordinates>)
    ensures |r| == Total(e)
    ensures forall k :: 0 <= k < |r| ==> InBox(e, r[k]) && Linearize(e, r[k]) == k
  {
    var r := seq(Total(e), k requires 0 <= k < Total(e) => Decompose(e, k));
    assert forall k :: 0 <= k < |r| ==> InBox(e, r[k]) && Linearize(e, r[k]) == k by {
      forall k | 0 <= k < |r|
        ensures InBox(e, r[k]) && Linearize(e, r[k]) == k
      {
        LinearizeDecompose(e, k);
      }
    }
    r
  }

  /** The enumeration lists the tuples of the box from position 0 on. */
  lemma EnumerationListsFromZero(e: Extents)
    ensures ListsFrom(e, 0, Enumeration(e))
  {
  }

  /** Two listings from the same position with the same length are equal. */
  lemma ListsFromUnique(e: Extents, from: int, r1: seq<Coordinates>, r2: seq<Coordinates>)
    requires ListsFrom(e, from, r1) && ListsFrom(e, from, r2) && |r1| == |r2|
    ensures r1 == r2
  {
    forall i | 0 <= i < |r1|
      ensures r1[i] == r2[i]
    {
    }
  }

  /** `HasNext` holds exactly when `Next` succeeds, and exactly when there is
      still something left to enumerate. */
  lemma HasNextIffNextAdvances(it: Iterator)
    requires Valid(it)
    ensures HasNext(it) <==> Next(it).Advanced?
    ensures HasNext(it) <==> Run(it) != []
  {
  }

  /** A full run after `SetExtents(it, e)` is the enumeration of `e`; it does
      not depend on anything `it` did before. */
  lemma RunAfterSetExtents(it: Iterator, e: Extents)
    ensures Run(SetExtents(it, e)) == Enumeration(e)
  {
    RunListsPositions(SetExtents(it, e));
    EnumerationListsFromZero(e);
    ListsFromUnique(e, 0, Run(SetExtents(it, e)), Enumeration(e));
  }

  /** The enumeration of a box lists no tuple twice. */
  lemma EnumerationDistinct(e: Extents)
    ensures forall i, j :: 0 <= i < j < |Enumeration(e)| ==> Enumeration(e)[i] != Enumeration(e)[j]
  {
    var r := Enumeration(e);
    forall i, j | 0 <= i < j < |r|
      ensures r[i] != r[j]
    {
      assert Linearize(e, r[i]) == i && Linearize(e, r[j]) == j;
    }
  }

  /** Every tuple of a box occurs in its enumeration. */
  lemma EnumerationCovers(e: Extents)
    ensures forall c :: InBox(e, c) ==> c in Enumeration(e)
  {
    var r := Enumeration(e);
    forall c | InBox(e, c)
      ensures c in r
    {
      DecomposeLinearize(e, c);
      var k := Linearize(e, c);
      assert r[k] == c;
    }
  }

  /** `r` lists every tuple of the box `e` exactly once and nothing else. */
  ghost predicate VisitsEachOnce(e: Extents, r: seq<Coordinates>) {
    && |r| == Total(e)
    && (forall i :: 0 <= i < |r| ==> InBox(e, r[i]))
    && (forall i, j :: 0 <= i < j < |r| ==> r[i] != r[j])
    && (forall c :: InBox(e, c) ==> c in r)
  }

  /** The enumeration lists every tuple of the box exactly once. */
  lemma EnumerationVisitsEachOnce(e: Extents)
    ensures VisitsEachOnce(e, Enumeration(e))
  {
    EnumerationDistinct(e);
    EnumerationCovers(e);
  }

  /** A full run visits every tuple of the box exactly once and nothing else. */
  lemma FullRunVisitsEachTupleOnce(it: Iterator, e: Extents)
    ensures VisitsEachOnce(e, Run(SetExtents(it, e)))
  {
    RunAfterSetExtents(it, e);
    EnumerationVisitsEachOnce(e);
  }

  /** A 0-dimensional box holds one tuple, the empty one. */
  lemma ZeroDimensional(it: Iterator, e: Extents)
    requires |e| == 0
    ensures Run(SetExtents(it, e)) == [[]]
  {
    var r := Run(SetExtents(it, e));
    assert |r| == 1;
  }

  /** A box holding a single tuple yields its lower corner and is then exhausted. */
  lemma SingleTupleBox(it: Iterator, e: Extents)
    requires Total(e) == 1
    ensures Run(SetExtents(it, e)) == [Lowers(e)]
    ensures Next(SetExtents(it, e)).Advanced?
    ensures !HasNext(Next(SetExtents(it, e)).rest)
  {
    var r := Run(SetExtents(it, e));
    RunListsPositions(SetExtents(it, e));
    DecomposeZero(e);
    assert r[0] == Decompose(e, 0);
  }

  /** A box with an empty dimension is exhausted right after `SetExtents`. */
  lemma EmptyDimensionExhausts(it: Iterator, e: Extents, d: int)
    requires 0 <= d < |e| && Size(e[d]) == 0
    ensures !HasNext(SetExtents(it, e))
    ensures Next(SetExtents(it, e)).IteratorExhausted?
  {
    TotalZeroIff(e);
  }

  /** In any listing, consecutive tuples are one odometer step apart. */
  lemma ListingStepsLikeOdometer(e: Extents, from: int, r: seq<Coordinates>)
    requires ListsFrom(e, from, r)
    ensures forall i :: 0 <= i < |r| - 1 ==> InBox(e, r[i]) && r[i + 1] == Increment(e, r[i])
  {
    forall i | 0 <= i < |r| - 1
      ensures InBox(e, r[i]) && r[i + 1] == Increment(e, r[i])
    {
      IncrementIsSuccessor(e, from + i);
    }
  }

  /** Any listing is strictly increasing in lexicographic order. */
  lemma ListingIsLexIncreasing(e: Extents, from: int, r: seq<Coordinates>)
    requires ListsFrom(e, from, r)
    ensures forall i, j :: 0 <= i < j < |r| ==> |r[i]| == |r[j]| && LexLess(r[i], r[j])
  {
    forall i, j | 0 <= i < j < |r|
      ensures |r[i]| == |r[j]| && LexLess(r[i], r[j])
    {
      DecomposeMonotone(e, from + i, from + j);
    }
  }

  /** Consecutive tuples of a run are one odometer step apart. */
  lemma RunStepsLikeOdometer(it: Iterator)
    requires Valid(it)
    ensures forall i :: 0 <= i < |Run(it)| - 1 ==>
      InBox(it.extents, Run(it)[i]) && Run(it)[i + 1] == Increment(it.extents, Run(it)[i])
  {
    RunListsPositions(it);
    ListingStepsLikeOdometer(it.extents, it.current, Run(it));
  }

  /** A run is strictly increasing in lexicographic order. */
  lemma RunIsLexIncreasing(it: Iterator)
    requires Valid(it)
    ensures forall i, j :: 0 <= i < j < |Run(it)| ==>
      |Run(it)[i]| == |Run(it)[j]| && LexLess(Run(it)[i], Run(it)[j])
  {
    RunListsPositions(it);
    ListingIsLexIncreasing(it.extents, it.current, Run(it));
  }

  /** In the 2-by-3 box, position k is row k / 3 and column k % 3. */
  lemma TwoByThreeDecompose(e: Extents, k: int)
    requires e == [Bounds(0, 2), Bounds(0, 3)]
    requires 0 <= k < 6
    ensures Total(e) == 6
    ensures Decompose(e, k) == [k / 3, k % 3]
  {
    var row: Extents := [Bounds(0, 2)];
    assert e[..1] == row;
    assert row[..0] == [];
    assert Total(row) == 2;
    assert Decompose(row, k / 3) == [] + [k / 3 % 2];
  }

  /** The 2-by-3 box lists its tuples row by row, the last index fastest. */
  lemma TwoByThreeEnumeration(e: Extents)
    requires e == [Bounds(0, 2), Bounds(0, 3)]
    ensures Enumeration(e) == [[0, 0], [0, 1], [0, 2], [1, 0], [1, 1], [1, 2]]
  {
    var expected := [[0, 0], [0, 1], [0, 2], [1, 0], [1, 1], [1, 2]];
    assert Total(e) == 6 by {
      TwoByThreeDecompose(e, 0);
    }
    forall k | 0 <= k < 6
      ensures expected[k] == Decompose(e, k)
    {
      TwoByThreeDecompose(e, k);
    }
    EnumerationListsFromZero(e);
    ListsFromUnique(e, 0, Enumeration(e), expected);
  }

  /** The 2-by-3 box is visited row by row, the last index fastest. */
  lemma TwoByThreeOrder(it: Iterator, e: Extents)
    requires e == [Bounds(0, 2), Bounds(0, 3)]
    ensures Run(SetExtents(it, e)) == [[0, 0], [0, 1], [0, 2], [1, 0], [1, 1], [1, 2]]
  {
    RunAfterSetExtents(it, e);
    TwoByThreeEnumeration(e);
  }

  /** A traversal client: `while (HasNext()) { Next(); }` from fresh extents
      collects the enumeration of the box. */
  method Traverse(it: Iterator, e: Extents) returns (visited: seq<Coordinates>)
    ensures visited == Enumeration(e)
  {
    var cur := SetExtents(it, e);
    visited := [];
    while HasNext(cur)
      invariant Valid(cur) && cur.extents == e && cur.end == Total(e)
      invariant |visited| == cur.current
      invariant ListsFrom(e, 0, visited)
      decreases cur.end - cur.current
    {
      var step := Next(cur);
      ListsFromSnoc(e, 0, visited, step.coordinates);
      visited := visited + [step.coordinates];
      cur := step.rest;
    }
    EnumerationListsFromZero(e);
    ListsFromUnique(e, 0, visited, Enumeration(e));
  }
}
