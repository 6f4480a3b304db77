/** calculate_f_value and get_f_score of evaluation.py: each (recall, precision) pair is
    folded into one F value, and the five F values are weighted together with the cosine
    similarity of the two answers. */
module Scoring {
  import opened Rouge

  /** calculate_f_value divides by recall + beta^2 * precision, which is zero exactly when
      both inputs are non-zero and precision == -recall. */
  predicate FDefined(recall: real, precision: real) {
    recall == 0.0 || precision == 0.0 || recall + precision != 0.0
  }

  /** calculate_f_value: 0 when either input is 0, otherwise (1 + b^2) r p / (r + b^2 p)
      with b = p / r (FValueClosedForm states what that is). */
  function FValue(recall: real, precision: real): real
    requires FDefined(recall, precision)
  {
    if recall != 0.0 && precision != 0.0 then
      var beta := precision / recall;
      var betaSquare := beta * beta;
      DenominatorNonZero(recall, precision);
      (1.0 + betaSquare) * recall * precision / (recall + betaSquare * precision)
    else 0.0
  }

  function CubeSum(r: real, p: real): real {
    r * r * r + p * p * p
  }

  lemma SquareNonNegative(x: real)
    ensures 0.0 <= x * x
  {
  }

  lemma ProductNonZero(x: real, y: real)
    requires x != 0.0 && y != 0.0
    ensures x * y != 0.0
  {
  }

  /** r^3 + p^3 = (r + p)(r^2 - r p + p^2), and the second factor is positive unless both
      are 0. */
  lemma CubeSumNonZero(r: real, p: real)
    requires p != 0.0 && r + p != 0.0
    ensures CubeSum(r, p) != 0.0
  {
    var h := r - p / 2.0;
    var q := r * r - r * p + p * p;
    assert q == h * h + 3.0 * (p * p) / 4.0;
    SquareNonNegative(h);
    assert 0.0 < p * p;
    assert CubeSum(r, p) == (r + p) * q;
    ProductNonZero(r + p, q);
  }

  /** The denominator of calculate_f_value, times r^2. */
  lemma DenominatorScaled(r: real, p: real)
    requires r != 0.0
    ensures (r + (p / r) * (p / r) * p) * (r * r) == CubeSum(r, p)
  {
    var b := p / r;
    assert b * r == p;
    assert (r + b * b * p) * (r * r) == r * r * r + (b * r) * (b * r) * p;
  }

  /** The numerator of calculate_f_value, times r^2. */
  lemma NumeratorScaled(r: real, p: real)
    requires r != 0.0
    ensures (1.0 + (p / r) * (p / r)) * r * p * (r * r) == r * p * (r * r + p * p)
  {
    var b := p / r;
    assert b * r == p;
    assert (1.0 + b * b) * r * p * (r * r) == (r * r + (b * r) * (b * r)) * r * p;
  }

  /** calculate_f_value divides by zero only when precision == -recall != 0. */
  lemma DenominatorNonZero(r: real, p: real)
    requires r != 0.0 && p != 0.0 && r + p != 0.0
    ensures r + (p / r) * (p / r) * p != 0.0
  {
    DenominatorScaled(r, p);
    CubeSumNonZero(r, p);
  }

  /** A quotient times d k is the numerator times k. */
  lemma ScaledQuotient(num: real, d: real, k: real)
    requires d != 0.0
    ensures (num / d) * (d * k) == num * k
  {
    assert (num / d) * d == num;
    assert (num / d) * (d * k) == ((num / d) * d) * k;
  }

  /** For non-zero inputs, calculate_f_value times r^3 + p^3 is r p (r^2 + p^2). */
  lemma FValueProduct(r: real, p: real)
    requires r != 0.0 && p != 0.0 && r + p != 0.0
    ensures CubeSum(r, p) != 0.0
    ensures FValue(r, p) * CubeSum(r, p) == r * p * (r * r + p * p)
  {
    var d := r + (p / r) * (p / r) * p;
    var num := (1.0 + (p / r) * (p / r)) * r * p;
    DenominatorScaled(r, p);
    NumeratorScaled(r, p);
    DenominatorNonZero(r, p);
    CubeSumNonZero(r, p);
    ScaledQuotient(num, d, r * r);
    assert FValue(r, p) == num / d;
  }

  /** calculate_f_value is 0 when either input is 0, and r p (r^2 + p^2) / (r^3 + p^3)
      otherwise. */
  lemma FValueClosedForm(recall: real, precision: real)
    requires FDefined(recall, precision)
    ensures recall == 0.0 || precision == 0.0 ==> FValue(recall, precision) == 0.0
    ensures recall != 0.0 && precision != 0.0 ==>
              CubeSum(recall, precision) != 0.0 &&
              FValue(recall, precision)
              == recall * precision * (recall * recall + precision * precision) / CubeSum(recall, precision)
  {
    var r, p := recall, precision;
    if r != 0.0 && p != 0.0 {
      FValueProduct(r, p);
      var num, c := r * p * (r * r + p * p), CubeSum(r, p);
      assert (num / c) * c == num;
      CancelFactor(FValue(r, p), num / c, c);
    }
  }

  /** Two values whose products with the same non-zero number agree are equal. */
  lemma CancelFactor(x: real, y: real, c: real)
    requires c != 0.0 && x * c == y * c
    ensures x == y
  {
    assert (x - y) * c == 0.0;
  }

  /** Swapping recall and precision does not change the F value. */
  lemma FValueSymmetric(recall: real, precision: real)
    requires FDefined(recall, precision)
    ensures FDefined(precision, recall)
    ensures FValue(recall, precision) == FValue(precision, recall)
  {
    FValueClosedForm(recall, precision);
    FValueClosedForm(precision, recall);
    if recall != 0.0 && precision != 0.0 {
      assert CubeSum(precision, recall) == CubeSum(recall, precision);
      assert precision * recall * (precision * precision + recall * recall)
          == recall * precision * (recall * recall + precision * precision);
    }
  }

  /** On the diagonal the closed form gives x back. */
  lemma DiagonalArithmetic(x: real, f: real)
    requires CubeSum(x, x) != 0.0
    requires f * CubeSum(x, x) == x * x * (x * x + x * x)
    ensures f == x
  {
    assert x * x * (x * x + x * x) == x * CubeSum(x, x);
    CancelFactor(f, x, CubeSum(x, x));
  }

  /** Equal recall and precision give that value back. */
  lemma FValueDiagonal(x: real)
    ensures FValue(x, x) == x
  {
    if x != 0.0 {
      FValueProduct(x, x);
      DiagonalArithmetic(x, FValue(x, x));
    }
  }

  /** Multiplying by a positive number keeps the sign, so x s == y t with s, t positive
      gives x and y the same sign. */
  lemma SameSign(x: real, s: real, y: real, t: real)
    requires 0.0 < s && 0.0 < t && x * s == y * t
    ensures 0.0 <= x <==> 0.0 <= y
    ensures x <= 0.0 <==> y <= 0.0
  {
    if 0.0 < x {
      assert 0.0 < x * s;
    } else if x < 0.0 {
      assert x * s < 0.0;
    }
  }

  /** With f (r^3 + p^3) = r p (r^2 + p^2), the distances of f to r and to p. */
  lemma DistanceArithmetic(r: real, p: real, f: real)
    requires f * CubeSum(r, p) == r * p * (r * r + p * p)
    ensures (f - r) * CubeSum(r, p) == (p - r) * (r * r * r)
    ensures (f - p) * CubeSum(r, p) == (r - p) * (p * p * p)
  {
  }

  lemma CubePositive(x: real)
    requires 0.0 < x
    ensures 0.0 < x * x * x
  {
    assert 0.0 < x * x;
  }

  /** With f (r^3 + p^3) = r p (r^2 + p^2), f lies between positive r and p. */
  lemma BetweenArithmetic(r: real, p: real, f: real)
    requires 0.0 < r && 0.0 < p
    requires f * CubeSum(r, p) == r * p * (r * r + p * p)
    ensures r <= p ==> r <= f <= p
    ensures p <= r ==> p <= f <= r
  {
    CubePositive(r);
    CubePositive(p);
    DistanceArithmetic(r, p, f);
    SameSign(f - r, CubeSum(r, p), p - r, r * r * r);
    SameSign(f - p, CubeSum(r, p), r - p, p * p * p);
  }

  /** The F value lies between recall and precision when both are positive. */
  lemma FValueBetween(recall: real, precision: real)
    requires 0.0 < recall && 0.0 < precision
    ensures recall <= precision ==> recall <= FValue(recall, precision) <= precision
    ensures precision <= recall ==> precision <= FValue(recall, precision) <= recall
  {
    FValueProduct(recall, precision);
    BetweenArithmetic(recall, precision, FValue(recall, precision));
  }

  /** Recall and precision in [0, 1] give an F value in [0, 1]. */
  lemma FValueUnit(recall: real, precision: real)
    requires 0.0 <= recall <= 1.0 && 0.0 <= precision <= 1.0
    ensures 0.0 <= FValue(recall, precision) <= 1.0
  {
    if recall != 0.0 && precision != 0.0 {
      FValueBetween(recall, precision);
    }
  }

  /** The F value is not the harmonic mean 2 r p / (r + p): recall 1 and precision 1/2 give
      5/9, not 2/3. */
  lemma FValueNotHarmonicMean()
    ensures FValue(1.0, 0.5) == 5.0 / 9.0
    ensures FValue(1.0, 0.5) != 2.0 * 1.0 * 0.5 / (1.0 + 0.5)
  {
    FValueProduct(1.0, 0.5);
    var f := FValue(1.0, 0.5);
    assert f * 1.125 == 0.625;
  }

  /** Non-negative recall and precision give a non-negative F value. */
  lemma FValueNonNegative(recall: real, precision: real)
    requires 0.0 <= recall && 0.0 <= precision
    ensures 0.0 <= FValue(recall, precision)
  {
    if recall != 0.0 && precision != 0.0 {
      FValueBetween(recall, precision);
    }
  }

  /** The F value of a non-negative pair. */
  function PairF(s: ScorePair): (f: real)
    requires NonNegative(s)
    ensures 0.0 <= f
  {
    FValueNonNegative(s.recall, s.precision);
    FValue(s.recall, s.precision)
  }

  /** Sum of the F values of the pairs. */
  function SumF(pairs: seq<ScorePair>): real
    requires forall k :: 0 <= k < |pairs| ==> NonNegative(pairs[k])
  {
    if pairs == [] then 0.0 else SumF(pairs[..|pairs| - 1]) + PairF(pairs[|pairs| - 1])
  }

  /** Adding the F value of the n-th pair to the sum over the first n - 1. */
  lemma SumFStep(pairs: seq<ScorePair>, n: nat, s: ScorePair)
    requires 0 < n <= |pairs| && s == pairs[n - 1]
    requires forall k :: 0 <= k < |pairs| ==> NonNegative(pairs[k])
    ensures FDefined(s.recall, s.precision)
    ensures SumF(pairs[..n]) == SumF(pairs[..n - 1]) + FValue(s.recall, s.precision)
  {
    assert pairs[..n][..n - 1] == pairs[..n - 1];
  }

  /** The weighting of get_f_score: 0.25 for the cosine similarity, 0.15 for each F value. */
  function Aggregate(cosine: real, pairs: seq<ScorePair>): real
    requires forall k :: 0 <= k < |pairs| ==> NonNegative(pairs[k])
  {
    0.25 * cosine + 0.15 * SumF(pairs)
  }

  /** The five pairs get_f_score folds: ROUGE-1, ROUGE-2, ROUGE-3, ROUGE-L, ROUGE-S. */
  function RougePairs(system: string, ref: string): seq<ScorePair> {
    [RougeNScores(system, ref, 1), RougeNScores(system, ref, 2), RougeNScores(system, ref, 3),
     RougeLScores(system, ref), RougeSScores(system, ref)]
  }

  /** All five pairs are non-negative, so every F value is defined. */
  lemma RougePairsNonNegative(system: string, ref: string)
    ensures |RougePairs(system, ref)| == 5
    ensures forall k :: 0 <= k < |RougePairs(system, ref)| ==> NonNegative(RougePairs(system, ref)[k])
  {
    var pairs := RougePairs(system, ref);
    forall k | 0 <= k < 5 ensures NonNegative(pairs[k]) {
      if k < 3 {
        RougeNBounds(system, ref, k + 1);
      } else if k == 3 {
        RougeLBounds(system, ref);
      } else {
        RougeSRecallBounds(system, ref);
      }
    }
  }

  /** get_f_score as a value: the weighted sum over the five pairs. */
  function FScore(cosine: real, system: string, ref: string): real {
    RougePairsNonNegative(system, ref);
    Aggregate(cosine, RougePairs(system, ref))
  }

  /** get_f_score on answers already filtered of stopwords, with the cosine similarity of the
      unfiltered answers as a parameter. */
  method GetFScore(cosine: real, system: string, ref: string) returns (fScore: real)
    ensures fScore == FScore(cosine, system, ref)
  {
    ghost var pairs := RougePairs(system, ref);
    RougePairsNonNegative(system, ref);
    fScore := 0.0;
    fScore := fScore + 0.25 * cosine;
    for n := 1 to 4
      invariant fScore == 0.25 * cosine + 0.15 * SumF(pairs[..n - 1])
    {
      var rougeNScore := RougeN(system, ref, n);
      SumFStep(pairs, n, rougeNScore);
      fScore := fScore + 0.15 * FValue(rougeNScore.recall, rougeNScore.precision);
    }
    var rougeLScore := RougeL(system, ref);
    SumFStep(pairs, 4, rougeLScore);
    fScore := fScore + 0.15 * FValue(rougeLScore.recall, rougeLScore.precision);
    var rougeSScore := RougeS(system, ref);
    SumFStep(pairs, 5, rougeSScore);
    fScore := fScore + 0.15 * FValue(rougeSScore.recall, rougeSScore.precision);
    assert pairs[..5] == pairs;
  }

  /** Each F value of pairs in the unit square is at most 1, so the sum is at most the count. */
  lemma {:induction false} SumFUnit(pairs: seq<ScorePair>)
    requires forall k :: 0 <= k < |pairs| ==> NonNegative(pairs[k])
    requires forall k :: 0 <= k < |pairs| ==> pairs[k].recall <= 1.0 && pairs[k].precision <= 1.0
    ensures 0.0 <= SumF(pairs) <= |pairs| as real
  {
    if pairs != [] {
      var last := pairs[|pairs| - 1];
      SumFUnit(pairs[..|pairs| - 1]);
      FValueUnit(last.recall, last.precision);
    }
  }

  /** With a cosine similarity in [0, 1] and five pairs in the unit square, the weights
      0.25 + 5 * 0.15 keep the aggregate in [0, 1]. */
  lemma AggregateUnit(cosine: real, pairs: seq<ScorePair>)
    requires 0.0 <= cosine <= 1.0 && |pairs| == 5
    requires forall k :: 0 <= k < |pairs| ==> NonNegative(pairs[k])
    requires forall k :: 0 <= k < |pairs| ==> pairs[k].recall <= 1.0 && pairs[k].precision <= 1.0
    ensures 0.0 <= Aggregate(cosine, pairs) <= 1.0
  {
    SumFUnit(pairs);
  }

  /** get_f_score stays in [0, 1] for a cosine similarity in [0, 1] as long as ROUGE-S
      precision does not exceed 1, the one ratio that can. */
  lemma FScoreUnit(cosine: real, system: string, ref: string)
    requires 0.0 <= cosine <= 1.0
    requires RougeSScores(system, ref).precision <= 1.0
    ensures 0.0 <= FScore(cosine, system, ref) <= 1.0
  {
    var pairs := RougePairs(system, ref);
    RougePairsNonNegative(system, ref);
    forall k | 0 <= k < 5 ensures pairs[k].recall <= 1.0 && pairs[k].precision <= 1.0 {
      if k < 3 {
        RougeNBounds(system, ref, k + 1);
      } else if k == 3 {
        RougeLBounds(system, ref);
      } else {
        RougeSRecallBounds(system, ref);
      }
    }
    AggregateUnit(cosine, pairs);
  }
}
