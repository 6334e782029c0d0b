/**
 The correspondence between a linear position in [0, Total(e)) and a tuple of
 the box `e`: a mixed-radix number whose digit for dimension d has radix
 Size(e[d]), the last dimension being the least significant digit.
 */
module MixedRadix {
  import opened ArrayExtents

  /** Multiplying by a non-negative factor preserves order. */
  lemma MulMonotone(a: int, b: int, s: int)
    requires s >= 0 && a <= b
    ensures a * s <= b * s
  {
    assert b * s - a * s == (b - a) * s;
  }

  /** A multiple of s strictly between -s and s is zero. */
  lemma SmallMultiple(x: int, s: int)
    requires s > 0 && -s < x * s < s
    ensures x == 0
  {
    if x >= 1 {
      MulMonotone(1, x, s);
    }
    if x <= -1 {
      MulMonotone(x, -1, s);
    }
  }

  /** Euclidean division splits a number into quotient and remainder. */
  lemma DivModIdentity(k: int, s: int)
    requires s > 0
    ensures k == k / s * s + k % s
  {
  }

  /** Euclidean division recovers the quotient and digit it was built from. */
  lemma DivModOfDigits(q: int, s: int, m: int)
    requires s > 0 && 0 <= m < s
    ensures (q * s + m) / s == q
    ensures (q * s + m) % s == m
  {
    var k := q * s + m;
    var q', m' := k / s, k % s;
    assert k == q' * s + m';
    assert (q - q') * s == m' - m;
    SmallMultiple(q - q', s);
  }

  /** A position below t * s has a quotient below t. */
  lemma QuotientBound(k: int, s: int, t: int)
    requires s > 0 && 0 <= k < t * s
    ensures 0 <= k / s < t
  {
    var q := k / s;
    assert k == q * s + k % s;
    if q >= t {
      MulMonotone(t, q, s);
    }
    if q < 0 {
      MulMonotone(q, -1, s);
    }
  }

  /** Appending a digit below s to a number below t gives a number below t * s. */
  lemma DigitsBound(q: int, s: int, m: int, t: int)
    requires s > 0 && 0 <= m < s && 0 <= q < t
    ensures 0 <= q * s + m < t * s
  {
    MulMonotone(q, t - 1, s);
    MulMonotone(0, q, s);
    assert (t - 1) * s == t * s - s;
  }

  /** Euclidean division by a positive radix is monotone. */
  lemma QuotientMonotone(k1: int, k2: int, s: int)
    requires s > 0 && 0 <= k1 <= k2
    ensures k1 / s <= k2 / s
  {
    var q1, q2 := k1 / s, k2 / s;
    assert k1 == q1 * s + k1 % s;
    assert k2 == q2 * s + k2 % s;
    if q1 > q2 {
      MulMonotone(q2 + 1, q1, s);
    }
  }

  /** The tuple at linear position k, the last dimension varying fastest. */
  function Decompose(e: Extents, k: int): (c: Coordinates)
    requires 0 <= k < Total(e)
    ensures InBox(e, c)
    decreases |e|
  {
    if |e| == 0 then []
    else
      var n := |e| - 1;
      var s := Size(e[n]);
      TotalOfPrefix(e);
      QuotientBound(k, s, Total(e[..n]));
      Decompose(e[..n], k / s) + [e[n].lower + k % s]
  }

  /** The linear position of a tuple of the box. */
  function Linearize(e: Extents, c: Coordinates): (k: int)
    requires InBox(e, c)
    ensures 0 <= k < Total(e)
    decreases |e|
  {
    if |e| == 0 then 0
    else
      var n := |e| - 1;
      var s := Size(e[n]);
      var q := Linearize(e[..n], c[..n]);
      TotalOfPrefix(e);
      DigitsBound(q, s, c[n] - e[n].lower, Total(e[..n]));
      q * s + (c[n] - e[n].lower)
  }

  /** The digit radix of the last dimension is positive, and the quotient by
      it is a position of the remaining dimensions. */
  lemma DigitBounds(e: Extents, k: int)
    requires |e| > 0 && 0 <= k < Total(e)
    ensures Size(e[|e| - 1]) > 0
    ensures 0 <= k / Size(e[|e| - 1]) < Total(e[..|e| - 1])
  {
    TotalOfPrefix(e);
    QuotientBound(k, Size(e[|e| - 1]), Total(e[..|e| - 1]));
  }

  /** One unfolding of Decompose: the last index is the least significant digit. */
  lemma DecomposeStep(e: Extents, k: int)
    requires |e| > 0 && 0 <= k < Total(e)
    ensures Size(e[|e| - 1]) > 0 && 0 <= k / Size(e[|e| - 1]) < Total(e[..|e| - 1])
    ensures Decompose(e, k)
         == Decompose(e[..|e| - 1], k / Size(e[|e| - 1])) + [e[|e| - 1].lower + k % Size(e[|e| - 1])]
  {
    DigitBounds(e, k);
  }

  /** Decomposing a position and linearizing the tuple gives the position back. */
  lemma {:induction false} LinearizeDecompose(e: Extents, k: int)
    requires 0 <= k < Total(e)
    ensures Linearize(e, Decompose(e, k)) == k
    decreases |e|
  {
    if |e| > 0 {
      var n := |e| - 1;
      var p, s := e[..n], Size(e[n]);
      DecomposeStep(e, k);
      var q, m := k / s, k % s;
      var c := Decompose(e, k);
      assert c[..n] == Decompose(p, q);
      assert c[n] - e[n].lower == m;
      LinearizeDecompose(p, q);
      assert Linearize(e, c) == Linearize(p, c[..n]) * s + (c[n] - e[n].lower);
      DivModIdentity(k, s);
    }
  }

  /** Linearizing a tuple and decomposing the position gives the tuple back. */
  lemma {:induction false} DecomposeLinearize(e: Extents, c: Coordinates)
    requires InBox(e, c)
    ensures Decompose(e, Linearize(e, c)) == c
    decreases |e|
  {
    if |e| > 0 {
      var n := |e| - 1;
      var p, s, m := e[..n], Size(e[n]), c[n] - e[n].lower;
      var q := Linearize(p, c[..n]);
      var k := Linearize(e, c);
      assert k / s == q && k % s == m by {
        assert k == q * s + m;
        DivModOfDigits(q, s, m);
      }
      assert Decompose(e, k) == Decompose(p, q) + [c[n]] by {
        DecomposeStep(e, k);
      }
      DecomposeLinearize(p, c[..n]);
      assert c == c[..n] + [c[n]];
    }
  }

  /** Distinct positions give distinct tuples. */
  lemma {:induction false} DecomposeInjective(e: Extents, k1: int, k2: int)
    requires 0 <= k1 < Total(e) && 0 <= k2 < Total(e)
    requires Decompose(e, k1) == Decompose(e, k2)
    ensures k1 == k2
  {
    LinearizeDecompose(e, k1);
    LinearizeDecompose(e, k2);
  }

  /** Every tuple of the box is the decomposition of some position. */
  lemma DecomposeSurjective(e: Extents, c: Coordinates)
    requires InBox(e, c)
    ensures exists k :: 0 <= k < Total(e) && Decompose(e, k) == c
  {
    DecomposeLinearize(e, c);
  }

  /** Position 0 is the lower corner of the box. */
  lemma {:induction false} DecomposeZero(e: Extents)
    requires Total(e) > 0
    ensures Decompose(e, 0) == Lowers(e)
    decreases |e|
  {
    if |e| > 0 {
      var n := |e| - 1;
      DecomposeStep(e, 0);
      DivModOfDigits(0, Size(e[n]), 0);
      DecomposeZero(e[..n]);
    }
  }
}
