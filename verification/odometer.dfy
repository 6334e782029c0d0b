/**
 Order-specific facts about the enumeration: the last dimension varies
 fastest. Advancing the linear position by one is an odometer step on the
 tuple, and the tuples come out in strictly increasing lexicographic order.
 */
module Odometer {
  import opened ArrayExtents
  import opened MixedRadix

  /** One odometer step: bump the last index, and on overflow reset it to its
      lower bound and carry into the dimension before it. From the last tuple
      of the box the step wraps around to the lower corner. */
  function Increment(e: Extents, c: Coordinates): (d: Coordinates)
    requires InBox(e, c)
    ensures InBox(e, d)
  {
    Carry(e, c, |e|)
  }

  /** The carry loop over dimensions i - 1 down to 0: bump index i - 1 and stop
      if it stays below its upper bound, otherwise reset it to its lower bound
      and go on with the dimension before it. Indices from i on are untouched. */
  function Carry(e: Extents, c: Coordinates, i: nat): (d: Coordinates)
    requires InBox(e, c) && i <= |e|
    ensures InBox(e, d)
    decreases i
  {
    if i == 0 then c
    else if c[i - 1] + 1 < e[i - 1].upper then c[i - 1 := c[i - 1] + 1]
    else Carry(e, c[i - 1 := e[i - 1].lower], i - 1)
  }

  /** The carry loop never looks past dimension i: appending dimensions leaves
      its effect on the first ones unchanged. */
  lemma {:induction false} CarryAppend(e: Extents, c: Coordinates, f: Extents, g: Coordinates, i: nat)
    requires InBox(e, c) && InBox(f, g) && i <= |e|
    ensures InBox(e + f, c + g)
    ensures Carry(e + f, c + g, i) == Carry(e, c, i) + g
    decreases i
  {
    assert InBox(e + f, c + g) by {
      forall d | 0 <= d < |e + f|
        ensures (e + f)[d].lower <= (c + g)[d] < (e + f)[d].upper
      {
        if d >= |e| {
          assert (e + f)[d] == f[d - |e|] && (c + g)[d] == g[d - |e|];
        }
      }
    }
    if i > 0 {
      var j := i - 1;
      assert (e + f)[j] == e[j] && (c + g)[j] == c[j];
      if c[j] + 1 < e[j].upper {
        assert (c + g)[j := c[j] + 1] == c[j := c[j] + 1] + g;
      } else {
        assert (c + g)[j := e[j].lower] == c[j := e[j].lower] + g;
        CarryAppend(e, c[j := e[j].lower], f, g, j);
      }
    }
  }

  /** The odometer step on a non-empty box, split at its last dimension. */
  lemma IncrementUnfold(e: Extents, c: Coordinates)
    requires InBox(e, c) && |e| > 0
    ensures InBox(e[..|e| - 1], c[..|e| - 1])
    ensures c[|e| - 1] + 1 < e[|e| - 1].upper ==>
      Increment(e, c) == c[..|e| - 1] + [c[|e| - 1] + 1]
    ensures c[|e| - 1] + 1 >= e[|e| - 1].upper ==>
      Increment(e, c) == Increment(e[..|e| - 1], c[..|e| - 1]) + [e[|e| - 1].lower]
  {
    var n := |e| - 1;
    var p, last := e[..n], [e[n]];
    assert e == p + last;
    if c[n] + 1 < e[n].upper {
      assert c[n := c[n] + 1] == c[..n] + [c[n] + 1];
    } else {
      var low := [e[n].lower];
      assert c[n := e[n].lower] == c[..n] + low;
      CarryAppend(p, c[..n], last, low, n);
    }
  }

  /** Without a carry, the odometer step bumps the last index of the tuple at
      position k to that of position k + 1. */
  lemma IncrementWithoutCarry(e: Extents, k: int)
    requires |e| > 0 && 0 <= k && k + 1 < Total(e)
    requires k % Size(e[|e| - 1]) + 1 < Size(e[|e| - 1])
    ensures Increment(e, Decompose(e, k)) == Decompose(e, k + 1)
  {
    var n := |e| - 1;
    var p, s := e[..n], Size(e[n]);
    var q, m := k / s, k % s;
    DigitBounds(e, k);
    var c := Decompose(e, k);
    assert c == Decompose(p, q) + [e[n].lower + m] by {
      DecomposeStep(e, k);
    }
    assert (k + 1) / s == q && (k + 1) % s == m + 1 by {
      DivModIdentity(k, s);
      DivModOfDigits(q, s, m + 1);
    }
    assert Decompose(e, k + 1) == Decompose(p, q) + [e[n].lower + m + 1] by {
      DecomposeStep(e, k + 1);
    }
    IncrementUnfold(e, c);
  }

  /** Adding one to a number whose last digit is the largest one carries. */
  lemma CarryDigits(k: int, s: int)
    requires s > 0 && k % s + 1 == s
    ensures (k + 1) / s == k / s + 1 && (k + 1) % s == 0
  {
    DivModIdentity(k, s);
    assert k + 1 == (k / s + 1) * s + 0;
    DivModOfDigits(k / s + 1, s, 0);
  }

  /** With a carry, position k + 1 resets the last index and steps the
      quotient of the remaining dimensions. */
  lemma DecomposeCarry(e: Extents, k: int)
    requires |e| > 0 && 0 <= k && k + 1 < Total(e)
    requires k % Size(e[|e| - 1]) + 1 == Size(e[|e| - 1])
    ensures 0 <= k / Size(e[|e| - 1]) && k / Size(e[|e| - 1]) + 1 < Total(e[..|e| - 1])
    ensures Decompose(e, k + 1)
         == Decompose(e[..|e| - 1], k / Size(e[|e| - 1]) + 1) + [e[|e| - 1].lower]
  {
    var s := Size(e[|e| - 1]);
    DigitBounds(e, k);
    CarryDigits(k, s);
    DecomposeStep(e, k + 1);
  }

  /** With a carry, the odometer step resets the last index and steps the
      remaining dimensions of the tuple at position k. */
  lemma IncrementWithCarry(e: Extents, k: int)
    requires |e| > 0 && 0 <= k && k + 1 < Total(e)
    requires k % Size(e[|e| - 1]) + 1 == Size(e[|e| - 1])
    ensures InBox(e[..|e| - 1], Decompose(e, k)[..|e| - 1])
    ensures Increment(e, Decompose(e, k))
         == Increment(e[..|e| - 1], Decompose(e, k)[..|e| - 1]) + [e[|e| - 1].lower]
  {
    var n := |e| - 1;
    var c := Decompose(e, k);
    assert c[n] + 1 == e[n].upper by {
      DecomposeStep(e, k);
    }
    IncrementUnfold(e, c);
  }

  /** The odometer step moves a tuple to the one at the next linear position. */
  lemma {:induction false} IncrementIsSuccessor(e: Extents, k: int)
    requires 0 <= k && k + 1 < Total(e)
    ensures Increment(e, Decompose(e, k)) == Decompose(e, k + 1)
    decreases |e|
  {
    if |e| > 0 {
      var s := Size(e[|e| - 1]);
      DigitBounds(e, k);
      if k % s + 1 < s {
        IncrementWithoutCarry(e, k);
      } else {
        var n := |e| - 1;
        DecomposeCarry(e, k);
        IncrementWithCarry(e, k);
        assert Decompose(e, k)[..n] == Decompose(e[..n], k / s) by {
          DecomposeStep(e, k);
        }
        IncrementIsSuccessor(e[..n], k / s);
      }
    }
  }

  /** Strict lexicographic order on tuples of equal length, decided from the
      last index backwards: either the prefixes already differ in order, or
      they are equal and the last index is smaller. */
  predicate LexLess(c: Coordinates, d: Coordinates)
    requires |c| == |d|
    decreases |c|
  {
    && |c| > 0
    && var n := |c| - 1;
       || LexLess(c[..n], d[..n])
       || (c[..n] == d[..n] && c[n] < d[n])
  }

  /** Lexicographic order is a strict order: it never relates a tuple to
      itself, and it is transitive. */
  lemma {:induction false} LexLessIsStrictOrder(a: Coordinates, b: Coordinates, c: Coordinates)
    requires |a| == |b| == |c|
    ensures !LexLess(a, a)
    ensures LexLess(a, b) && LexLess(b, c) ==> LexLess(a, c)
    decreases |a|
  {
    if |a| > 0 {
      var n := |a| - 1;
      LexLessIsStrictOrder(a[..n], b[..n], c[..n]);
    }
  }

  /** A later linear position gives a lexicographically greater tuple. */
  lemma {:induction false} DecomposeMonotone(e: Extents, k1: int, k2: int)
    requires 0 <= k1 < k2 < Total(e)
    ensures LexLess(Decompose(e, k1), Decompose(e, k2))
    decreases |e|
  {
    var n := |e| - 1;
    var p, s := e[..n], Size(e[n]);
    DigitBounds(e, k1);
    DigitBounds(e, k2);
    var q1, q2 := k1 / s, k2 / s;
    var c1, c2 := Decompose(e, k1), Decompose(e, k2);
    assert c1 == Decompose(p, q1) + [e[n].lower + k1 % s] by {
      DecomposeStep(e, k1);
    }
    assert c2 == Decompose(p, q2) + [e[n].lower + k2 % s] by {
      DecomposeStep(e, k2);
    }
    assert c1[..n] == Decompose(p, q1) && c2[..n] == Decompose(p, q2);
    assert q1 <= q2 by {
      QuotientMonotone(k1, k2, s);
    }
    if q1 < q2 {
      DecomposeMonotone(p, q1, q2);
    } else {
      assert k1 % s < k2 % s by {
        DivModIdentity(k1, s);
        DivModIdentity(k2, s);
      }
    }
  }
}
