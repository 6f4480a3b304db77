/** n_split_answer and ngram of evaluation.py: contiguous n-token windows of an answer
    and the n-grams two answers share. */
module NGrams {
  import opened Text

  /** What the inner loop of n_split_answer leaves in n_size_string after visiting the
      tokens ws: each token stripped of punctuation and followed by one space. */
  function Padded(ws: seq<string>): string {
    if ws == [] then "" else Padded(ws[..|ws| - 1]) + Strip(ws[|ws| - 1], IsPunct) + " "
  }

  /** Number of tokens the inner loop visits: Python's range(n) is empty for n <= 0. */
  function Width(n: int): nat {
    if n > 0 then n else 0
  }

  /** Number of start positions i of a size-token answer that pass the test i + n <= size. */
  function NGramCount(size: nat, n: int): (c: nat)
    ensures c <= size
  {
    if n <= 0 then size else if n <= size then size - n + 1 else 0
  }

  /** The n-gram starting at token i: the padded window with outer whitespace stripped. */
  function Window(ts: seq<string>, i: nat, n: int): string
    requires i <= |ts| && i + n <= |ts|
  {
    Strip(Padded(ts[i..i + Width(n)]), IsSpace)
  }

  /** The strings one copy of the outer loop appends after visiting start positions 0 .. u-1. */
  function Windows(ts: seq<string>, n: int, u: nat): seq<string>
    requires u <= |ts|
  {
    if u == 0 then []
    else Windows(ts, n, u - 1) + (if u - 1 + n <= |ts| then [Window(ts, u - 1, n)] else [])
  }

  /** The strings one copy of the outer loop appends. */
  function AllWindows(ts: seq<string>, n: int): seq<string> {
    Windows(ts, n, |ts|)
  }

  /** n_split_answer(answer, n): the guarded copy of the loop runs for a non-empty answer,
      the unguarded copy always. */
  function NSplit(answer: string, n: int): seq<string> {
    var w := AllWindows(Split(answer), n);
    (if answer != "" then w else []) + w
  }

  /** Punctuation-stripped tokens. */
  function StripAll(ws: seq<string>): (r: seq<string>)
    ensures |r| == |ws|
    ensures forall k :: 0 <= k < |ws| ==> r[k] == Strip(ws[k], IsPunct)
  {
    if ws == [] then [] else [Strip(ws[0], IsPunct)] + StripAll(ws[1..])
  }

  /** The inner loop appends one padded token at a time. */
  lemma PaddedSnoc(ws: seq<string>, w: string)
    ensures Padded(ws + [w]) == Padded(ws) + Strip(w, IsPunct) + " "
  {
    assert (ws + [w])[..|ws|] == ws;
  }

  /** The inner loop of n_split_answer: n_size_string for the window starting at token i. */
  method PadWindow(words: seq<string>, i: nat, n: int) returns (s: string)
    requires i <= |words| && i + n <= |words|
    ensures s == Padded(words[i..i + Width(n)])
  {
    s := "";
    var j := 0;
    while j < n
      invariant 0 <= j <= Width(n)
      invariant s == Padded(words[i..i + j])
    {
      assert words[i..i + j + 1] == words[i..i + j] + [words[i + j]];
      PaddedSnoc(words[i..i + j], words[i + j]);
      s := s + Strip(words[i + j], IsPunct) + " ";
      j := j + 1;
    }
  }

  /** One copy of the loop of n_split_answer over the tokens words, appending to acc. */
  method AppendWindows(acc: seq<string>, words: seq<string>, n: int) returns (out: seq<string>)
    ensures out == acc + AllWindows(words, n)
  {
    out := acc;
    var size := |words|;
    for i := 0 to size
      invariant out == acc + Windows(words, n, i)
    {
      if i + n <= size {
        var s := PadWindow(words, i, n);
        AppendAssoc(acc, Windows(words, n, i), [Window(words, i, n)]);
        out := out + [Strip(s, IsSpace)];
      }
    }
  }

  /** n_split_answer: both copies of the loop append, so every window is listed twice. */
  method NSplitAnswer(answer: string, n: int) returns (strings: seq<string>)
    ensures strings == NSplit(answer, n)
  {
    strings := [];
    if answer != "" {
      var answerString := Split(answer);
      strings := AppendWindows(strings, answerString, n);
    }
    var answerString := Split(answer);
    strings := AppendWindows(strings, answerString, n);
  }

  /** The n-grams of the reference that also occur in the system answer, without duplicates. */
  function CommonNGrams(system: string, ref: string, n: int): set<string> {
    set s | s in NSplit(ref, n) && s in NSplit(system, n)
  }

  /** ngram: the n-grams that occur in both answers, each once. */
  method Ngram(system: string, ref: string, n: int) returns (common: set<string>)
    ensures forall s :: s in common <==> s in NSplit(ref, n) && s in NSplit(system, n)
  {
    var commonStrings: seq<string> := [];
    var systemStrings := NSplitAnswer(system, n);
    var refStrings := NSplitAnswer(ref, n);
    for k := 0 to |refStrings|
      invariant forall s :: s in commonStrings <==> s in refStrings[..k] && s in systemStrings
    {
      assert refStrings[..k + 1] == refStrings[..k] + [refStrings[k]];
      if refStrings[k] in systemStrings {
        commonStrings := commonStrings + [refStrings[k]];
      }
    }
    assert refStrings[..|refStrings|] == refStrings;
    common := set s | s in commonStrings;
  }

  /** One copy of the loop lists window k at position k, for every start k that passes the test. */
  lemma {:induction false} WindowsShape(ts: seq<string>, n: int, u: nat)
    requires u <= |ts|
    ensures |Windows(ts, n, u)| == if u <= NGramCount(|ts|, n) then u else NGramCount(|ts|, n)
    ensures forall k :: 0 <= k < |Windows(ts, n, u)| ==>
              k + n <= |ts| && Windows(ts, n, u)[k] == Window(ts, k, n)
  {
    if u > 0 {
      WindowsShape(ts, n, u - 1);
    }
  }

  /** n_split_answer on L tokens returns 2 * NGramCount(L, n) strings (2 * max(0, L - n + 1)
      for n >= 1): window k at position k and again at position k + NGramCount(L, n). */
  lemma NSplitShape(answer: string, n: int)
    ensures |NSplit(answer, n)| == 2 * NGramCount(|Split(answer)|, n)
    ensures forall k :: 0 <= k < NGramCount(|Split(answer)|, n) ==>
              NSplit(answer, n)[k] == Window(Split(answer), k, n)
              && NSplit(answer, n)[k + NGramCount(|Split(answer)|, n)] == Window(Split(answer), k, n)
  {
    var ts := Split(answer);
    WindowsShape(ts, n, |ts|);
    if answer == "" {
      assert ts == [];
    }
  }

  /** The doubling does not change which strings n_split_answer lists. */
  lemma NSplitMembers(answer: string, n: int, s: string)
    ensures s in NSplit(answer, n) <==> s in AllWindows(Split(answer), n)
  {
    if answer == "" {
      assert Split(answer) == [];
    }
  }

  /** A shared n-gram is a window of both answers, and conversely. */
  lemma CommonNGramsWindows(system: string, ref: string, n: int, s: string)
    ensures s in CommonNGrams(system, ref, n) <==>
              s in AllWindows(Split(ref), n) && s in AllWindows(Split(system), n)
  {
    NSplitMembers(ref, n, s);
    NSplitMembers(system, n, s);
  }

  /** A sequence has at most as many distinct elements as entries. */
  lemma {:induction false} DistinctAtMost<T>(q: seq<T>)
    ensures |set x | x in q| <= |q|
  {
    if q != [] {
      DistinctAtMost(q[1..]);
      assert (set x | x in q) == (set x | x in q[1..]) + {q[0]};
    }
  }

  /** A subset is no larger than its superset. */
  lemma SubsetAtMost<T>(a: set<T>, b: set<T>)
    requires a <= b
    ensures |a| <= |b|
  {
    assert b == a + (b - a);
  }

  /** The shared n-grams are among the distinct windows of the reference. */
  lemma CommonInRefWindows(system: string, ref: string, n: int)
    ensures CommonNGrams(system, ref, n) <= set x | x in AllWindows(Split(ref), n)
  {
    forall s | s in CommonNGrams(system, ref, n) ensures s in AllWindows(Split(ref), n) {
      CommonNGramsWindows(system, ref, n, s);
    }
  }

  /** The shared n-grams are among the distinct windows of the system answer. */
  lemma CommonInSystemWindows(system: string, ref: string, n: int)
    ensures CommonNGrams(system, ref, n) <= set x | x in AllWindows(Split(system), n)
  {
    forall s | s in CommonNGrams(system, ref, n) ensures s in AllWindows(Split(system), n) {
      CommonNGramsWindows(system, ref, n, s);
    }
  }

  /** One copy of the loop appends NGramCount(L, n) strings. */
  lemma AllWindowsLength(ts: seq<string>, n: int)
    ensures |AllWindows(ts, n)| == NGramCount(|ts|, n)
  {
    WindowsShape(ts, n, |ts|);
  }

  /** The number of shared n-grams is at most the number of windows of either answer. */
  lemma CommonNGramsBound(system: string, ref: string, n: int)
    ensures |CommonNGrams(system, ref, n)| <= NGramCount(|Split(ref)|, n)
    ensures |CommonNGrams(system, ref, n)| <= NGramCount(|Split(system)|, n)
  {
    var wr, ws := AllWindows(Split(ref), n), AllWindows(Split(system), n);
    CommonInRefWindows(system, ref, n);
    CommonInSystemWindows(system, ref, n);
    SubsetAtMost(CommonNGrams(system, ref, n), set x | x in wr);
    SubsetAtMost(CommonNGrams(system, ref, n), set x | x in ws);
    DistinctAtMost(wr);
    DistinctAtMost(ws);
    AllWindowsLength(Split(ref), n);
    AllWindowsLength(Split(system), n);
  }

  /** Python's " ".join appends one word at a time. */
  lemma {:induction false} JoinWordsSnoc(xs: seq<string>, y: string)
    requires xs != []
    ensures JoinWords(xs + [y]) == JoinWords(xs) + " " + y
  {
    if |xs| > 1 {
      JoinWordsSnoc(xs[1..], y);
      assert (xs + [y])[1..] == xs[1..] + [y];
    } else {
      assert (xs + [y])[1..] == [y];
    }
  }

  /** The padded string is the space-joined stripped tokens plus one trailing space. */
  lemma {:induction false} PaddedIsJoin(ws: seq<string>)
    requires ws != []
    ensures Padded(ws) == JoinWords(StripAll(ws)) + " "
  {
    var last := ws[|ws| - 1];
    var init := ws[..|ws| - 1];
    assert ws == init + [last];
    PaddedSnoc(init, last);
    if |ws| == 1 {
      assert StripAll(ws) == [Strip(last, IsPunct)];
    } else {
      PaddedIsJoin(init);
      assert StripAll(ws) == StripAll(init) + [Strip(last, IsPunct)];
      JoinWordsSnoc(StripAll(init), Strip(last, IsPunct));
    }
  }

  /** Joining non-empty words starts with the first word's first character and ends
      with the last word's last character. */
  lemma {:induction false} JoinWordsEdges(xs: seq<string>)
    requires xs != []
    requires forall k :: 0 <= k < |xs| ==> xs[k] != []
    ensures JoinWords(xs) != []
    ensures JoinWords(xs)[0] == xs[0][0]
    ensures JoinWords(xs)[|JoinWords(xs)| - 1] == xs[|xs| - 1][|xs[|xs| - 1]| - 1]
  {
    if |xs| > 1 {
      JoinWordsEdges(xs[1..]);
    }
  }

  /** A token with no whitespace keeps none after punctuation is stripped. */
  lemma StripWordNoSpace(w: string)
    requires forall k :: 0 <= k < |w| ==> !IsSpace(w[k])
    ensures forall k :: 0 <= k < |Strip(w, IsPunct)| ==> !IsSpace(Strip(w, IsPunct)[k])
  {
    var r, i := Strip(w, IsPunct), LeadLen(w, IsPunct);
    StripSlice(w, IsPunct);
    forall k | 0 <= k < |r| ensures !IsSpace(r[k]) {
      assert r[k] == w[i + k];
    }
  }

  /** Window k is tokens k .. k+n-1, each stripped of !.,;:'" at both ends, joined by
      single spaces, with outer whitespace stripped; a punctuation-only token leaves an
      empty word, so ["sat", "."] gives "sat". */
  lemma WindowStripped(ts: seq<string>, i: nat, n: int)
    requires 1 <= n && i + n <= |ts|
    ensures Window(ts, i, n) == Strip(JoinWords(StripAll(ts[i..i + n])), IsSpace)
  {
    var ws := ts[i..i + n];
    var joined := JoinWords(StripAll(ws));
    PaddedIsJoin(ws);
    StripTrailingSpace(joined, ' ');
    assert joined + [' '] == joined + " ";
    assert Width(n) == n;
  }

  /** Joined words need no whitespace stripped when they are non-empty and the outer
      ones do not start or end in whitespace. */
  lemma JoinedNoEdges(st: seq<string>)
    requires st != []
    requires forall k :: 0 <= k < |st| ==> st[k] != []
    requires !IsSpace(st[0][0]) && !IsSpace(st[|st| - 1][|st[|st| - 1]| - 1])
    ensures Strip(JoinWords(st), IsSpace) == JoinWords(st)
  {
    JoinWordsEdges(st);
    StripNoEdges(JoinWords(st), IsSpace);
  }

  /** When no token is punctuation only, every stripped token is non-empty, and the
      first and last ones neither start nor end in whitespace. */
  lemma StripAllEdges(ws: seq<string>)
    requires ws != []
    requires forall k :: 0 <= k < |ws| ==> IsWord(ws[k]) && Strip(ws[k], IsPunct) != []
    ensures StripAll(ws) != []
    ensures forall k :: 0 <= k < |StripAll(ws)| ==> StripAll(ws)[k] != []
    ensures !IsSpace(StripAll(ws)[0][0])
    ensures !IsSpace(StripAll(ws)[|ws| - 1][|StripAll(ws)[|ws| - 1]| - 1])
  {
    var first, last := ws[0], ws[|ws| - 1];
    assert IsWord(first) && IsWord(last);
    StripWordNoSpace(first);
    StripWordNoSpace(last);
  }

  /** Window k is tokens k .. k+n-1, each stripped of !.,;:'" at both ends, joined by
      single spaces, when no token is punctuation only. */
  lemma WindowJoined(ts: seq<string>, i: nat, n: int)
    requires 1 <= n && i + n <= |ts|
    requires forall k :: 0 <= k < |ts| ==> IsWord(ts[k])
    requires forall k :: i <= k < i + n ==> Strip(ts[k], IsPunct) != []
    ensures Window(ts, i, n) == JoinWords(StripAll(ts[i..i + n]))
  {
    var ws := ts[i..i + n];
    forall k | 0 <= k < |ws| ensures IsWord(ws[k]) && Strip(ws[k], IsPunct) != [] {
      assert ws[k] == ts[i + k];
    }
    WindowStripped(ts, i, n);
    StripAllEdges(ws);
    JoinedNoEdges(StripAll(ws));
  }

  /** A token made only of punctuation strips to the empty word. */
  lemma PunctuationStripsToEmpty()
    ensures Strip(".", IsPunct) == ""
  {
    var dot := ".";
    assert LeadLen(dot, IsPunct) == 1 by {
      assert dot[1..] == [];
    }
  }

  /** At the end of a window, the empty word vanishes with the outer whitespace. */
  lemma WindowPunctuationAtEnd()
    ensures Window(["sat", "."], 0, 2) == "sat"
  {
    var ws := ["sat", "."];
    PunctuationStripsToEmpty();
    StripNoEdges("sat", IsPunct);
    WindowStripped(ws, 0, 2);
    assert ws[0..2] == ws;
    assert StripAll(ws) == ["sat", ""];
    assert JoinWords(["sat", ""]) == "sat" + [' '] by {
      assert ["sat", ""][1..] == [""];
    }
    StripTrailingSpace("sat", ' ');
    StripNoEdges("sat", IsSpace);
  }

  /** Joining around an empty word puts two spaces between its neighbours. */
  lemma JoinAroundEmpty(a: string, b: string)
    ensures JoinWords([a, "", b]) == a + "  " + b
  {
    var ws, tail := [a, "", b], ["", b];
    assert ws[1..] == tail;
    assert tail[1..] == [b];
    assert JoinWords(tail) == "" + " " + b;
    assert JoinWords(ws) == a + " " + (" " + b);
    AppendAssoc(a, " ", " " + b);
    AppendAssoc(" ", " ", b);
    AppendAssoc(a, "  ", b);
  }

  /** A window of three tokens whose middle one strips to the empty word. */
  lemma WindowAroundEmpty(a: string, p: string, b: string)
    requires Strip(a, IsPunct) == a && Strip(p, IsPunct) == "" && Strip(b, IsPunct) == b
    requires a != [] && !IsSpace(a[0]) && b != [] && !IsSpace(b[|b| - 1])
    ensures Window([a, p, b], 0, 3) == a + "  " + b
  {
    var ws := [a, p, b];
    WindowStripped(ws, 0, 3);
    assert ws[0..3] == ws;
    assert StripAll(ws) == [a, "", b];
    JoinAroundEmpty(a, b);
    var joined := a + "  " + b;
    assert joined[0] == a[0] && joined[|joined| - 1] == b[|b| - 1];
    StripNoEdges(joined, IsSpace);
  }

  /** In the middle of a window, the empty word leaves two spaces between its neighbours. */
  lemma WindowPunctuationInMiddle()
    ensures Window(["sat", ".", "on"], 0, 3) == "sat  on"
  {
    PunctuationStripsToEmpty();
    StripNoEdges("sat", IsPunct);
    StripNoEdges("on", IsPunct);
    WindowAroundEmpty("sat", ".", "on");
    assert "sat" + "  " + "on" == "sat  on";
  }

  /** A punctuation-only token leaves an empty word: at the end of a window it vanishes
      with the outer whitespace, in the middle it leaves two spaces. */
  lemma WindowPunctuationExamples()
    ensures Window(["sat", "."], 0, 2) == "sat"
    ensures Window(["sat", ".", "on"], 0, 3) == "sat  on"
  {
    WindowPunctuationAtEnd();
    WindowPunctuationInMiddle();
  }
}
