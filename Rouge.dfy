/** rouge_n, rouge_l and rouge_s of evaluation.py: overlap counts turned into
    (recall, precision) pairs, each guarded against a zero denominator. Scores are exact
    ratios; the rounding to four places is not modelled. */
module Rouge {
  import opened Text
  import opened NGrams
  import opened Lcs
  import opened SkipBigrams

  /** (recall, precision) */
  datatype ScorePair = ScorePair(recall: real, precision: real)

  /** count / total, left at 0 when total is 0. */
  function Ratio(count: nat, total: nat): (r: real)
    ensures 0.0 <= r
    ensures total == 0 ==> r == 0.0
    ensures total != 0 ==> r * total as real == count as real
  {
    if total == 0 then 0.0 else count as real / total as real
  }

  /** Dividing r * t <= b * t by a positive t. */
  lemma ScaleBelow(r: real, t: real, b: real)
    requires 0.0 < t && r * t <= b * t
    ensures r <= b
  {
  }

  /** A positive product with a positive factor has a positive other factor. */
  lemma ScaleAbove(r: real, t: real)
    requires 0.0 < t && 0.0 < r * t
    ensures 0.0 < r
  {
  }

  /** A ratio of a count to a total at least twice as large is at most 1/2. */
  lemma RatioAtMostHalf(count: nat, total: nat)
    requires 2 * count <= total
    ensures Ratio(count, total) <= 0.5
  {
    if total != 0 {
      var r, t, c := Ratio(count, total), total as real, count as real;
      assert r * t == c;
      assert (2 * count) as real == 2.0 * c;
      assert c <= 0.5 * t;
      ScaleBelow(r, t, 0.5);
    }
  }

  /** A ratio of a count to a total at least as large is at most 1. */
  lemma RatioAtMostOne(count: nat, total: nat)
    requires count <= total
    ensures Ratio(count, total) <= 1.0
  {
    if total != 0 {
      ScaleBelow(Ratio(count, total), total as real, 1.0);
    }
  }

  /** Nothing over a non-zero total is 0. */
  lemma RatioOfZero(total: nat)
    ensures Ratio(0, total) == 0.0
  {
  }

  /** A positive count over a total at least as large is positive. */
  lemma RatioPositive(count: nat, total: nat)
    requires 0 < count <= total
    ensures 0.0 < Ratio(count, total)
  {
    ScaleAbove(Ratio(count, total), total as real);
  }

  /** A positive count over itself is 1, over twice itself 1/2. */
  lemma RatioOfWhole(count: nat)
    requires 0 < count
    ensures Ratio(count, count) == 1.0
    ensures Ratio(count, 2 * count) == 0.5
  {
    var c := count as real;
    assert Ratio(count, count) == c / c == 1.0;
    assert (2 * count) as real == 2.0 * c;
    assert c / (2.0 * c) == 0.5;
  }

  /** Every score pair this module produces is non-negative. */
  predicate NonNegative(s: ScorePair) {
    0.0 <= s.recall && 0.0 <= s.precision
  }

  // ---------------------------------------------------------------- ROUGE-N

  /** rouge_n: shared distinct n-grams over the length of each side's n_split_answer list. */
  function RougeNScores(system: string, ref: string, n: int): ScorePair {
    var overlap := |CommonNGrams(system, ref, n)|;
    ScorePair(Ratio(overlap, |NSplit(ref, n)|), Ratio(overlap, |NSplit(system, n)|))
  }

  /** rouge_n */
  method RougeN(system: string, ref: string, n: int) returns (scores: ScorePair)
    ensures scores == RougeNScores(system, ref, n)
  {
    var recall, precision := 0.0, 0.0;
    var common := Ngram(system, ref, n);
    assert common == CommonNGrams(system, ref, n);
    var overlap := |common|;
    var refStrings := NSplitAnswer(ref, n);
    var systemStrings := NSplitAnswer(system, n);
    if |refStrings| != 0 {
      recall := overlap as real / |refStrings| as real;
    }
    if |systemStrings| != 0 {
      precision := overlap as real / |systemStrings| as real;
    }
    scores := ScorePair(recall, precision);
  }

  /** Each side's list holds every window twice while the overlap counts each shared
      n-gram once, so neither ratio exceeds 1/2. */
  lemma RougeNBounds(system: string, ref: string, n: int)
    ensures 0.0 <= RougeNScores(system, ref, n).recall <= 0.5
    ensures 0.0 <= RougeNScores(system, ref, n).precision <= 0.5
  {
    var overlap := |CommonNGrams(system, ref, n)|;
    CommonNGramsBound(system, ref, n);
    NSplitShape(ref, n);
    NSplitShape(system, n);
    RatioAtMostHalf(overlap, |NSplit(ref, n)|);
    RatioAtMostHalf(overlap, |NSplit(system, n)|);
  }

  /** When n exceeds either answer's token count, that side has no window, nothing is
      shared, and both ratios are 0. */
  lemma RougeNTooLong(system: string, ref: string, n: int)
    requires n > |Split(system)| || n > |Split(ref)|
    ensures RougeNScores(system, ref, n) == ScorePair(0.0, 0.0)
  {
    CommonNGramsBound(system, ref, n);
    assert |CommonNGrams(system, ref, n)| == 0;
    RatioOfZero(|NSplit(ref, n)|);
    RatioOfZero(|NSplit(system, n)|);
  }

  /** Pairwise distinct entries. */
  predicate Distinct(q: seq<string>) {
    forall i, j :: 0 <= i < j < |q| ==> q[i] != q[j]
  }

  /** A sequence without repeats has as many distinct elements as entries. */
  lemma {:induction false} DistinctCount(q: seq<string>)
    requires Distinct(q)
    ensures |set x | x in q| == |q|
  {
    if q != [] {
      DistinctCount(q[1..]);
      assert q[0] !in q[1..];
      assert (set x | x in q) == (set x | x in q[1..]) + {q[0]};
    }
  }

  /** An answer scored against itself shares exactly its distinct windows. */
  lemma CommonNGramsSelf(a: string, n: int)
    ensures CommonNGrams(a, a, n) == set x | x in AllWindows(Split(a), n)
  {
    forall s ensures s in CommonNGrams(a, a, n) <==> s in AllWindows(Split(a), n) {
      NSplitMembers(a, n, s);
    }
  }

  /** As written, an answer scored against itself gets 1/2, not 1, whenever its n-grams are
      distinct: both copies of the loop count in the denominators. For example "cat"
      against "cat" with n = 1 gives (0.5, 0.5). */
  lemma RougeNSelfIsHalf(a: string, n: int)
    requires NGramCount(|Split(a)|, n) > 0
    requires Distinct(AllWindows(Split(a), n))
    ensures RougeNScores(a, a, n) == ScorePair(0.5, 0.5)
  {
    var w := AllWindows(Split(a), n);
    CommonNGramsSelf(a, n);
    DistinctCount(w);
    AllWindowsLength(Split(a), n);
    NSplitShape(a, n);
    RatioOfWhole(|w|);
  }

  /** rouge_n as it reads with a single copy of the loop in n_split_answer. */
  function RougeNSinglePassScores(system: string, ref: string, n: int): ScorePair {
    var overlap := |CommonNGrams(system, ref, n)|;
    ScorePair(Ratio(overlap, |AllWindows(Split(ref), n)|),
              Ratio(overlap, |AllWindows(Split(system), n)|))
  }

  /** With a single copy of the loop both ratios lie in [0, 1], and an answer with distinct
      n-grams scored against itself gets (1, 1). */
  lemma RougeNSinglePassSelf(a: string, n: int)
    requires NGramCount(|Split(a)|, n) > 0
    requires Distinct(AllWindows(Split(a), n))
    ensures RougeNSinglePassScores(a, a, n) == ScorePair(1.0, 1.0)
  {
    var w := AllWindows(Split(a), n);
    CommonNGramsSelf(a, n);
    DistinctCount(w);
    AllWindowsLength(Split(a), n);
    RatioOfWhole(|w|);
  }

  /** With a single copy of the loop neither ratio exceeds 1. */
  lemma RougeNSinglePassBounds(system: string, ref: string, n: int)
    ensures 0.0 <= RougeNSinglePassScores(system, ref, n).recall <= 1.0
    ensures 0.0 <= RougeNSinglePassScores(system, ref, n).precision <= 1.0
  {
    var overlap := |CommonNGrams(system, ref, n)|;
    CommonNGramsBound(system, ref, n);
    AllWindowsLength(Split(ref), n);
    AllWindowsLength(Split(system), n);
    RatioAtMostOne(overlap, |AllWindows(Split(ref), n)|);
    RatioAtMostOne(overlap, |AllWindows(Split(system), n)|);
  }

  // ---------------------------------------------------------------- ROUGE-L

  /** The LCS rouge_l computes: lcs over the two unigram lists, system answer first. */
  function LcsOfAnswers(system: string, ref: string): seq<string> {
    Backtrack(NSplit(system, 1), NSplit(ref, 1), |NSplit(system, 1)|, |NSplit(ref, 1)|)
  }

  /** rouge_l: (0, 0) for an empty LCS, otherwise its length over each side's unigram list. */
  function RougeLScores(system: string, ref: string): ScorePair {
    var common := LcsOfAnswers(system, ref);
    if common == [] then ScorePair(0.0, 0.0)
    else ScorePair(Ratio(|common|, |NSplit(ref, 1)|), Ratio(|common|, |NSplit(system, 1)|))
  }

  /** rouge_l */
  method RougeL(system: string, ref: string) returns (scores: ScorePair)
    ensures scores == RougeLScores(system, ref)
  {
    var recall, precision := 0.0, 0.0;
    var systemList := NSplitAnswer(system, 1);
    var refList := NSplitAnswer(ref, 1);
    var common := Lcs.Lcs(systemList, refList);
    if common != [] {
      var lcsLength := |common|;
      if |refList| != 0 {
        recall := lcsLength as real / |refList| as real;
      }
      if |systemList| != 0 {
        precision := lcsLength as real / |systemList| as real;
      }
    }
    scores := ScorePair(recall, precision);
  }

  /** The LCS is no longer than either unigram list, so both ratios lie in [0, 1]. */
  lemma RougeLBounds(system: string, ref: string)
    ensures 0.0 <= RougeLScores(system, ref).recall <= 1.0
    ensures 0.0 <= RougeLScores(system, ref).precision <= 1.0
  {
    var a, b := NSplit(system, 1), NSplit(ref, 1);
    BacktrackLength(a, b, |a|, |b|);
    var l := |LcsOfAnswers(system, ref)|;
    RatioAtMostOne(l, |b|);
    RatioAtMostOne(l, |a|);
  }

  /** rouge_l is (0, 0) exactly when the LCS is empty; in particular when either answer
      has no tokens. */
  lemma RougeLZero(system: string, ref: string)
    ensures RougeLScores(system, ref) == ScorePair(0.0, 0.0) <==> LcsOfAnswers(system, ref) == []
    ensures Split(system) == [] || Split(ref) == [] ==> RougeLScores(system, ref) == ScorePair(0.0, 0.0)
  {
    var a, b := NSplit(system, 1), NSplit(ref, 1);
    var common := LcsOfAnswers(system, ref);
    BacktrackLength(a, b, |a|, |b|);
    if common != [] {
      RatioPositive(|common|, |b|);
    }
    if Split(system) == [] || Split(ref) == [] {
      NSplitShape(system, 1);
      NSplitShape(ref, 1);
      assert |a| == 0 || |b| == 0;
    }
  }

  /** An answer with at least one token scored against itself gets (1, 1). */
  lemma RougeLSelf(a: string)
    requires Split(a) != []
    ensures RougeLScores(a, a) == ScorePair(1.0, 1.0)
  {
    var l := NSplit(a, 1);
    NSplitShape(a, 1);
    BacktrackSelf(l, |l|);
    assert l[..|l|] == l;
    RatioOfWhole(|l|);
  }

  // ---------------------------------------------------------------- ROUGE-S

  /** The entries of refList, with multiplicity and in order, that occur in systemList. */
  function Matches(refList: seq<string>, systemList: seq<string>): (m: seq<string>)
    ensures |m| <= |refList|
    ensures forall k :: 0 <= k < |m| ==> m[k] in refList && m[k] in systemList
  {
    if refList == [] then []
    else
      var last := refList[|refList| - 1];
      Matches(refList[..|refList| - 1], systemList) + (if last in systemList then [last] else [])
  }

  /** Every reference entry that occurs in systemList is kept as often as refList holds
      it, and no other string is kept. */
  lemma {:induction false} MatchesMultiplicity(refList: seq<string>, systemList: seq<string>)
    ensures forall x :: multiset(Matches(refList, systemList))[x]
                        == if x in systemList then multiset(refList)[x] else 0
  {
    if refList != [] {
      var init, last := refList[..|refList| - 1], refList[|refList| - 1];
      MatchesMultiplicity(init, systemList);
      assert refList == init + [last];
      assert multiset(refList) == multiset(init) + multiset([last]);
    }
  }

  /** rouge_s: matched reference entries over each side's skip_words list. */
  function RougeSScores(system: string, ref: string): ScorePair {
    var systemList, refList := SkipList(system), SkipList(ref);
    var count := |Matches(refList, systemList)|;
    ScorePair(Ratio(count, |refList|), Ratio(count, |systemList|))
  }

  /** rouge_s */
  method RougeS(system: string, ref: string) returns (scores: ScorePair)
    ensures scores == RougeSScores(system, ref)
  {
    var recall, precision := 0.0, 0.0;
    var skipWordsSystem := SkipWords(system);
    var skipWordsRef := SkipWords(ref);
    var intersection: seq<string> := [];
    for k := 0 to |skipWordsRef|
      invariant intersection == Matches(skipWordsRef[..k], skipWordsSystem)
    {
      assert skipWordsRef[..k + 1][..k] == skipWordsRef[..k];
      if skipWordsRef[k] in skipWordsSystem {
        intersection := intersection + [skipWordsRef[k]];
      }
    }
    assert skipWordsRef[..|skipWordsRef|] == skipWordsRef;
    if |skipWordsRef| != 0 {
      recall := |intersection| as real / |skipWordsRef| as real;
    }
    if |skipWordsSystem| != 0 {
      precision := |intersection| as real / |skipWordsSystem| as real;
    }
    scores := ScorePair(recall, precision);
  }

  /** Nothing matches an empty system list. */
  lemma {:induction false} MatchesNothing(refList: seq<string>)
    ensures Matches(refList, []) == []
  {
    if refList != [] {
      MatchesNothing(refList[..|refList| - 1]);
    }
  }

  /** An answer of at most one token has no pairs of positions, so skip_words is empty. */
  lemma NoPairs(answer: string)
    requires |Split(answer)| <= 1
    ensures SkipList(answer) == []
  {
    var l := |Split(answer)|;
    SkipListLength(answer);
    assert l * (l - 1) == 0 by {
      assert l == 0 || l == 1;
    }
  }

  /** When either answer has at most one token, nothing matches and both ROUGE-S
      scores are 0. */
  lemma RougeSShort(system: string, ref: string)
    requires |Split(system)| <= 1 || |Split(ref)| <= 1
    ensures RougeSScores(system, ref) == ScorePair(0.0, 0.0)
  {
    var systemList, refList := SkipList(system), SkipList(ref);
    if |Split(system)| <= 1 {
      NoPairs(system);
      MatchesNothing(refList);
    } else {
      NoPairs(ref);
    }
    assert |Matches(refList, systemList)| == 0;
    RatioOfZero(|refList|);
    RatioOfZero(|systemList|);
  }

  /** Recall lies in [0, 1]; precision is only known to be non-negative. */
  lemma RougeSRecallBounds(system: string, ref: string)
    ensures 0.0 <= RougeSScores(system, ref).recall <= 1.0
    ensures 0.0 <= RougeSScores(system, ref).precision
  {
    var systemList, refList := SkipList(system), SkipList(ref);
    RatioAtMostOne(|Matches(refList, systemList)|, |refList|);
  }

  /** When every entry of refList occurs in systemList, all of them match. */
  lemma {:induction false} MatchesAll(refList: seq<string>, systemList: seq<string>)
    requires forall k :: 0 <= k < |refList| ==> refList[k] in systemList
    ensures Matches(refList, systemList) == refList
  {
    if refList != [] {
      var init := refList[..|refList| - 1];
      MatchesAll(init, systemList);
      assert refList == init + [refList[|refList| - 1]];
    }
  }

  /** The pair of two copies of the word a. */
  lemma PairOfA(ts: seq<string>, i: nat, j: nat)
    requires i < j < |ts| && ts[i] == "a" && ts[j] == "a"
    ensures SkipEntry(ts, i, j) == "a a"
  {
    StripNoEdges("a", IsPunct);
    assert ts[i] + " " + Strip(ts[j], IsPunct) == "a a";
    StripNoEdges("a a", IsSpace);
  }

  /** The pairs of "a a" and of "a a a". */
  lemma SkipPairsOfA(two: seq<string>, three: seq<string>)
    requires two == ["a", "a"] && three == ["a", "a", "a"]
    ensures SkipPairs(two) == ["a a"]
    ensures SkipPairs(three) == ["a a", "a a", "a a"]
  {
    PairOfA(two, 0, 1);
    PairOfA(three, 0, 1);
    PairOfA(three, 0, 2);
    PairOfA(three, 1, 2);
    assert Row(two, 0, 2) == ["a a"];
    assert Row(two, 1, 2) == [];
    assert Rows(two, 1) == ["a a"];
    assert Rows(two, 2) == Rows(two, 1) + Row(two, 1, 2);
    assert Row(three, 0, 2) == ["a a"];
    assert Row(three, 0, 3) == ["a a", "a a"];
    assert Row(three, 1, 3) == ["a a"];
    assert Row(three, 2, 3) == [];
    assert Rows(three, 1) == ["a a", "a a"];
    assert Rows(three, 2) == ["a a", "a a", "a a"];
    assert Rows(three, 3) == Rows(three, 2) + Row(three, 2, 3);
  }

  /** "a a" and "a a a" split into two and three copies of "a". */
  lemma SplitsOfA()
    ensures Split("a a") == ["a", "a"]
    ensures Split("a a a") == ["a", "a", "a"]
  {
    var two, three := ["a", "a"], ["a", "a", "a"];
    assert JoinWords(two) == "a a";
    assert JoinWords(three) == "a a a";
    SplitJoin(two);
    SplitJoin(three);
  }

  /** skip_words of "a a" and of "a a a": every entry is "a a". */
  lemma SkipListsOfA()
    ensures SkipList("a a") == ["a a", "a a"]
    ensures SkipList("a a a") == ["a a", "a a", "a a", "a a", "a a", "a a"]
  {
    SplitsOfA();
    SkipPairsOfA(Split("a a"), Split("a a a"));
  }

  /** As written, rouge_s precision can exceed 1: every one of the six reference entries
      "a a" of "a a a" occurs among the two system entries of "a a", so precision is 6 / 2. */
  lemma RougeSPrecisionAboveOne()
    ensures RougeSScores("a a", "a a a") == ScorePair(1.0, 3.0)
  {
    SkipListsOfA();
    var systemList, refList := SkipList("a a"), SkipList("a a a");
    MatchesAll(refList, systemList);
    assert Ratio(6, 6) == 1.0 && Ratio(6, 2) == 3.0;
  }

  /** rouge_s with precision counting the system entries that occur in the reference list. */
  function RougeSSymmetricScores(system: string, ref: string): ScorePair {
    var systemList, refList := SkipList(system), SkipList(ref);
    ScorePair(Ratio(|Matches(refList, systemList)|, |refList|),
              Ratio(|Matches(systemList, refList)|, |systemList|))
  }

  /** Counting each side's own matched entries keeps both ratios in [0, 1]. */
  lemma RougeSSymmetricBounds(system: string, ref: string)
    ensures 0.0 <= RougeSSymmetricScores(system, ref).recall <= 1.0
    ensures 0.0 <= RougeSSymmetricScores(system, ref).precision <= 1.0
  {
    var systemList, refList := SkipList(system), SkipList(ref);
    RatioAtMostOne(|Matches(refList, systemList)|, |refList|);
    RatioAtMostOne(|Matches(systemList, refList)|, |systemList|);
  }

  /** With the corrected precision, system "a a" against reference "a a a" scores (1, 1). */
  lemma RougeSSymmetricOfA()
    ensures RougeSSymmetricScores("a a", "a a a") == ScorePair(1.0, 1.0)
  {
    SkipListsOfA();
    var systemList, refList := SkipList("a a"), SkipList("a a a");
    MatchesAll(refList, systemList);
    MatchesAll(systemList, refList);
    assert Ratio(6, 6) == 1.0 && Ratio(2, 2) == 1.0;
  }
}
