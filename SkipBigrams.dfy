/** skip_words of evaluation.py: every ordered pair of token positions i < j of an
    answer, as one string. */
module SkipBigrams {
  import opened Text

  /** The entry for positions i < j: the raw token i, a space and token j stripped of
      punctuation, with outer whitespace stripped. */
  function SkipEntry(ts: seq<string>, i: nat, j: nat): string
    requires i < j < |ts|
  {
    Strip(ts[i] + " " + Strip(ts[j], IsPunct), IsSpace)
  }

  /** [f(lo), f(lo + 1), ..., f(hi - 1)] */
  function Tabulate(f: nat --> string, lo: nat, hi: nat): seq<string>
    requires forall j :: lo <= j < hi ==> f.requires(j)
  {
    if hi <= lo then [] else Tabulate(f, lo, hi - 1) + [f(hi - 1)]
  }

  lemma {:induction false} TabulateMembers(f: nat --> string, lo: nat, hi: nat, s: string)
    requires forall j :: lo <= j < hi ==> f.requires(j)
    ensures s in Tabulate(f, lo, hi) <==> exists j :: lo <= j < hi && s == f(j)
  {
    if lo < hi {
      TabulateMembers(f, lo, hi - 1, s);
      if s == f(hi - 1) {
        assert lo <= hi - 1 < hi && s == f(hi - 1);
      }
      if exists j :: lo <= j < hi && s == f(j) {
        var j :| lo <= j < hi && s == f(j);
        if j < hi - 1 {
          assert lo <= j < hi - 1 && s == f(j);
        }
      }
    }
  }

  lemma {:induction false} TabulateLength(f: nat --> string, lo: nat, hi: nat)
    requires forall j :: lo <= j < hi ==> f.requires(j)
    ensures |Tabulate(f, lo, hi)| == if hi <= lo then 0 else hi - lo
  {
    if lo < hi {
      TabulateLength(f, lo, hi - 1);
    }
  }

  /** The entries of row i, as a function of j. */
  function RowEntry(ts: seq<string>, i: nat): nat --> string {
    j requires i < j < |ts| => SkipEntry(ts, i, j)
  }

  /** What the inner loop appends for row i after visiting j = i+1 .. e-1. */
  function Row(ts: seq<string>, i: nat, e: nat): seq<string>
    requires i < |ts| && e <= |ts|
  {
    Tabulate(RowEntry(ts, i), i + 1, e)
  }

  /** What one copy of the outer loop appends after visiting rows 0 .. u-1. */
  function Rows(ts: seq<string>, u: nat): seq<string>
    requires u <= |ts|
  {
    if u == 0 then [] else Rows(ts, u - 1) + Row(ts, u - 1, |ts|)
  }

  /** What one copy of the loop of skip_words appends. */
  function SkipPairs(ts: seq<string>): seq<string> {
    Rows(ts, |ts|)
  }

  /** skip_words(answer): the guarded copy of the loop runs for a non-empty answer, the
      unguarded copy always. */
  function SkipList(answer: string): seq<string> {
    var p := SkipPairs(Split(answer));
    (if answer != "" then p else []) + p
  }

  /** The inner loop of skip_words for row i, appending to acc. */
  method AppendRow(acc: seq<string>, words: seq<string>, i: nat) returns (out: seq<string>)
    requires i < |words|
    ensures out == acc + Row(words, i, |words|)
  {
    out := acc;
    var size := |words|;
    var current := words[i];
    for j := i + 1 to size
      invariant out == acc + Row(words, i, j)
    {
      if j < size {
        var entry := Strip(current + " " + Strip(words[j], IsPunct), IsSpace);
        assert entry == RowEntry(words, i)(j);
        AppendAssoc(acc, Row(words, i, j), [entry]);
        out := out + [entry];
      }
    }
  }

  /** One copy of the loop of skip_words, appending to acc. */
  method AppendSkipPairs(acc: seq<string>, words: seq<string>) returns (out: seq<string>)
    ensures out == acc + SkipPairs(words)
  {
    out := acc;
    var size := |words|;
    for i := 0 to size
      invariant out == acc + Rows(words, i)
    {
      AppendAssoc(acc, Rows(words, i), Row(words, i, size));
      out := AppendRow(out, words, i);
    }
  }

  /** skip_words: both copies of the loop append, so every pair is listed twice. */
  method SkipWords(answer: string) returns (wordsWithGaps: seq<string>)
    ensures wordsWithGaps == SkipList(answer)
  {
    wordsWithGaps := [];
    if answer != "" {
      var answerString := Split(answer);
      wordsWithGaps := AppendSkipPairs(wordsWithGaps, answerString);
    }
    var answerString := Split(answer);
    wordsWithGaps := AppendSkipPairs(wordsWithGaps, answerString);
  }

  /** Row i holds one entry per j with i < j < e. */
  lemma RowLength(ts: seq<string>, i: nat, e: nat)
    requires i < |ts| && e <= |ts|
    ensures |Row(ts, i, e)| == if e <= i + 1 then 0 else e - i - 1
  {
    TabulateLength(RowEntry(ts, i), i + 1, e);
  }

  /** Rows 0 .. u-1 hold (L-1) + (L-2) + ... + (L-u) entries. */
  lemma {:induction false} RowsLength(ts: seq<string>, u: nat)
    requires u <= |ts|
    ensures 2 * |Rows(ts, u)| == u * (2 * |ts| - u - 1)
  {
    if u > 0 {
      RowsLength(ts, u - 1);
      RowLength(ts, u - 1, |ts|);
      TriangleStep(|ts|, u);
    }
  }

  /** Adding row u-1, of L-u entries, to rows 0 .. u-2. */
  lemma TriangleStep(l: int, u: int)
    ensures (u - 1) * (2 * l - u) + 2 * (l - u) == u * (2 * l - u - 1)
  {
  }

  /** One copy of the loop lists L * (L - 1) / 2 pairs for L tokens. */
  lemma SkipPairsLength(ts: seq<string>)
    ensures 2 * |SkipPairs(ts)| == |ts| * (|ts| - 1)
  {
    RowsLength(ts, |ts|);
  }

  /** skip_words on an answer of L tokens returns L * (L - 1) strings. */
  lemma SkipListLength(answer: string)
    ensures |SkipList(answer)| == |Split(answer)| * (|Split(answer)| - 1)
  {
    SkipPairsLength(Split(answer));
    if answer == "" {
      assert Split(answer) == [];
    }
  }

  /** Row i lists the entries for exactly the positions j with i < j < e. */
  lemma RowMembers(ts: seq<string>, i: nat, e: nat, s: string)
    requires i < |ts| && e <= |ts|
    ensures s in Row(ts, i, e) <==> exists j :: i < j < e && s == SkipEntry(ts, i, j)
  {
    var f := RowEntry(ts, i);
    TabulateMembers(f, i + 1, e, s);
    if exists j :: i + 1 <= j < e && s == f(j) {
      var j :| i + 1 <= j < e && s == f(j);
      assert i < j < e && s == SkipEntry(ts, i, j);
    }
    if exists j :: i < j < e && s == SkipEntry(ts, i, j) {
      var j :| i < j < e && s == SkipEntry(ts, i, j);
      assert i + 1 <= j < e && s == f(j);
    }
  }

  /** Rows 0 .. u-1 list the entries for exactly the pairs i < j with i < u. */
  lemma {:induction false} RowsMembers(ts: seq<string>, u: nat, s: string)
    requires u <= |ts|
    ensures s in Rows(ts, u) <==> exists i, j :: 0 <= i < u && i < j < |ts| && s == SkipEntry(ts, i, j)
  {
    if u > 0 {
      var last := u - 1;
      RowsMembers(ts, last, s);
      RowMembers(ts, last, |ts|, s);
      assert Rows(ts, u) == Rows(ts, last) + Row(ts, last, |ts|);
      if s in Row(ts, last, |ts|) {
        var j :| last < j < |ts| && s == SkipEntry(ts, last, j);
        assert 0 <= last < u && last < j < |ts| && s == SkipEntry(ts, last, j);
      }
      if exists i, j :: 0 <= i < u && i < j < |ts| && s == SkipEntry(ts, i, j) {
        var i, j :| 0 <= i < u && i < j < |ts| && s == SkipEntry(ts, i, j);
        if i == last {
          assert last < j < |ts| && s == SkipEntry(ts, last, j);
        } else {
          assert 0 <= i < last && i < j < |ts| && s == SkipEntry(ts, i, j);
        }
      }
    }
  }

  /** One copy of the loop lists the entry of every ordered pair of positions i < j, and
      nothing else. */
  lemma SkipPairsMembers(ts: seq<string>, s: string)
    ensures s in SkipPairs(ts) <==> exists i, j :: 0 <= i < j < |ts| && s == SkipEntry(ts, i, j)
  {
    RowsMembers(ts, |ts|, s);
    if s in SkipPairs(ts) {
      var i, j :| 0 <= i < |ts| && i < j < |ts| && s == SkipEntry(ts, i, j);
      assert 0 <= i < j < |ts| && s == SkipEntry(ts, i, j);
    }
    if exists i, j :: 0 <= i < j < |ts| && s == SkipEntry(ts, i, j) {
      var i, j :| 0 <= i < j < |ts| && s == SkipEntry(ts, i, j);
      assert 0 <= i < |ts| && i < j < |ts| && s == SkipEntry(ts, i, j);
    }
  }

  /** skip_words lists the entry of every ordered pair of positions i < j, and nothing else. */
  lemma SkipListMembers(answer: string, s: string)
    ensures s in SkipList(answer) <==>
              exists i, j :: 0 <= i < j < |Split(answer)| && s == SkipEntry(Split(answer), i, j)
  {
    SkipPairsMembers(Split(answer), s);
    if answer == "" {
      assert Split(answer) == [];
    }
  }

  /** An entry is the raw token i, one space and the stripped token j; when token j is
      punctuation only, the trailing space is stripped and the entry is token i alone. */
  lemma SkipEntryForm(ts: seq<string>, i: nat, j: nat)
    requires i < j < |ts|
    requires forall k :: 0 <= k < |ts| ==> IsWord(ts[k])
    ensures Strip(ts[j], IsPunct) == [] ==> SkipEntry(ts, i, j) == ts[i]
    ensures Strip(ts[j], IsPunct) != [] ==> SkipEntry(ts, i, j) == ts[i] + " " + Strip(ts[j], IsPunct)
  {
    var t := Strip(ts[j], IsPunct);
    StripSlice(ts[j], IsPunct);
    StripEdges(ts[j], IsPunct);
    if t == [] {
      StripTrailingSpace(ts[i], ' ');
      assert ts[i] + " " + t == ts[i] + [' '];
      StripNoEdges(ts[i], IsSpace);
    } else {
      var e := ts[i] + " " + t;
      assert e[0] == ts[i][0];
      assert e[|e| - 1] == t[|t| - 1] == ts[j][LeadLen(ts[j], IsPunct) + |t| - 1];
      StripNoEdges(e, IsSpace);
    }
  }

  /** Entry j - lo of Tabulate(f, lo, hi) is f(j). */
  lemma {:induction false} TabulateIndex(f: nat --> string, lo: nat, hi: nat, j: nat)
    requires forall j :: lo <= j < hi ==> f.requires(j)
    requires lo <= j < hi
    ensures |Tabulate(f, lo, hi)| == hi - lo
    ensures Tabulate(f, lo, hi)[j - lo] == f(j)
  {
    TabulateLength(f, lo, hi);
    if j < hi - 1 {
      TabulateIndex(f, lo, hi - 1, j);
    }
  }

  /** Where row i starts in one copy of the loop for l tokens: rows 0 .. i-1 hold
      (l-1) + (l-2) + ... + (l-i) entries. */
  function RowStart(l: nat, i: nat): nat
    requires i <= l
  {
    if i == 0 then 0 else RowStart(l, i - 1) + (l - i)
  }

  /** The position of the entry for i < j in one copy of the loop, row by row. */
  function PairIndex(l: nat, i: nat, j: nat): nat
    requires i < j < l
  {
    RowStart(l, i) + (j - i - 1)
  }

  /** Rows 0 .. u-1 end where row u starts. */
  lemma {:induction false} RowsStart(ts: seq<string>, u: nat)
    requires u <= |ts|
    ensures |Rows(ts, u)| == RowStart(|ts|, u)
  {
    if u > 0 {
      RowsStart(ts, u - 1);
      RowLength(ts, u - 1, |ts|);
    }
  }

  /** Indexing into a concatenation, for any element type. */
  lemma AppendIndex<T>(a: seq<T>, b: seq<T>, k: nat)
    requires k < |a| + |b|
    ensures k < |a| ==> (a + b)[k] == a[k]
    ensures |a| <= k ==> (a + b)[k] == b[k - |a|]
  {
  }

  /** Adding row u-1 keeps the entries of rows 0 .. u-2 where they were. */
  lemma RowsKeep(ts: seq<string>, u: nat, p: nat)
    requires 0 < u <= |ts| && p < |Rows(ts, u - 1)|
    ensures p < |Rows(ts, u)| && Rows(ts, u)[p] == Rows(ts, u - 1)[p]
  {
    var pre, row := Rows(ts, u - 1), Row(ts, u - 1, |ts|);
    assert Rows(ts, u) == pre + row;
    AppendIndex(pre, row, p);
  }

  /** Row i holds the entry for i < j at position j - i - 1. */
  lemma RowAt(ts: seq<string>, i: nat, j: nat)
    requires i < j < |ts|
    ensures j - (i + 1) < |Row(ts, i, |ts|)|
    ensures Row(ts, i, |ts|)[j - (i + 1)] == SkipEntry(ts, i, j)
  {
    var f := RowEntry(ts, i);
    TabulateIndex(f, i + 1, |ts|, j);
    assert f(j) == SkipEntry(ts, i, j);
  }

  /** Row i, added after rows 0 .. i-1, holds the entry for i < j at PairIndex. */
  lemma RowsLast(ts: seq<string>, i: nat, j: nat)
    requires i < j < |ts|
    ensures PairIndex(|ts|, i, j) < |Rows(ts, i + 1)|
    ensures Rows(ts, i + 1)[PairIndex(|ts|, i, j)] == SkipEntry(ts, i, j)
  {
    var p := PairIndex(|ts|, i, j);
    var pre, row := Rows(ts, i), Row(ts, i, |ts|);
    assert Rows(ts, i + 1) == pre + row;
    RowsStart(ts, i);
    RowAt(ts, i, j);
    assert p == |pre| + (j - (i + 1));
    AppendIndex(pre, row, p);
  }

  /** Rows 0 .. u-1 hold the entry for i < j at PairIndex, for every row i < u. */
  lemma {:induction false} RowsIndex(ts: seq<string>, u: nat, i: nat, j: nat)
    requires u <= |ts| && i < u && i < j < |ts|
    ensures PairIndex(|ts|, i, j) < |Rows(ts, u)|
    ensures Rows(ts, u)[PairIndex(|ts|, i, j)] == SkipEntry(ts, i, j)
  {
    if i < u - 1 {
      RowsIndex(ts, u - 1, i, j);
      RowsKeep(ts, u, PairIndex(|ts|, i, j));
    } else {
      RowsLast(ts, i, j);
    }
  }

  /** skip_words lists the entry for i < j at its row-by-row position in the first copy
      of the loop, and again at the same position of the second copy. */
  lemma SkipListShape(answer: string)
    ensures |SkipList(answer)| == 2 * |SkipPairs(Split(answer))|
    ensures forall k :: 0 <= k < |SkipPairs(Split(answer))| ==>
              SkipList(answer)[k] == SkipList(answer)[k + |SkipPairs(Split(answer))|]
    ensures forall i, j :: 0 <= i < j < |Split(answer)| ==>
              PairIndex(|Split(answer)|, i, j) < |SkipPairs(Split(answer))| &&
              SkipList(answer)[PairIndex(|Split(answer)|, i, j)] == SkipEntry(Split(answer), i, j)
  {
    var ts := Split(answer);
    if answer == "" {
      assert ts == [];
    }
    forall i, j | 0 <= i < j < |ts|
      ensures PairIndex(|ts|, i, j) < |SkipPairs(ts)|
      ensures SkipList(answer)[PairIndex(|ts|, i, j)] == SkipEntry(ts, i, j)
    {
      RowsIndex(ts, |ts|, i, j);
    }
  }
}
