/** Tokenising as evaluation.py does it: Python's str.split() with no argument,
    str.strip(chars) for the punctuation !.,;:'" and str.strip() for outer whitespace. */
module Text {

  /** The code points Python's str.isspace() accepts; str.split() and str.strip()
      without an argument use exactly these. */
  predicate IsSpace(c: char) {
    var k := c as int;
    (0x09 <= k <= 0x0D) || (0x1C <= k <= 0x20) || k == 0x85 || k == 0xA0 || k == 0x1680
    || (0x2000 <= k <= 0x200A) || k == 0x2028 || k == 0x2029 || k == 0x202F
    || k == 0x205F || k == 0x3000
  }

  predicate IsNotSpace(c: char) {
    !IsSpace(c)
  }

  /** The characters stripped from both ends of every token: ! . , ; : ' " */
  predicate IsPunct(c: char) {
    c == '!' || c == '.' || c == ',' || c == ';' || c == ':' || c == '\'' || c == '"'
  }

  /** A token as str.split() produces it: non-empty and free of whitespace. */
  predicate IsWord(w: string) {
    w != [] && forall k :: 0 <= k < |w| ==> !IsSpace(w[k])
  }

  /** Length of the longest prefix of s whose characters all satisfy drop
      (LeadLenSpec states what it is). */
  function LeadLen(s: string, drop: char -> bool): (i: nat)
    ensures i <= |s|
  {
    if s == [] || !drop(s[0]) then 0 else 1 + LeadLen(s[1..], drop)
  }

  /** Start of the longest suffix of s whose characters all satisfy drop
      (TrailStartSpec states what it is). */
  function TrailStart(s: string, drop: char -> bool): (j: nat)
    ensures j <= |s|
  {
    if s == [] || !drop(s[|s| - 1]) then |s| else TrailStart(s[..|s| - 1], drop)
  }

  /** LeadLen(s, drop) characters of s are dropped ones, and the next one is not. */
  lemma {:induction false} LeadLenSpec(s: string, drop: char -> bool)
    ensures forall k :: 0 <= k < LeadLen(s, drop) ==> drop(s[k])
    ensures LeadLen(s, drop) < |s| ==> !drop(s[LeadLen(s, drop)])
  {
    if s != [] && drop(s[0]) {
      LeadLenSpec(s[1..], drop);
    }
  }

  /** From TrailStart(s, drop) on, every character of s is a dropped one, and the one
      before is not. */
  lemma {:induction false} TrailStartSpec(s: string, drop: char -> bool)
    ensures forall k :: TrailStart(s, drop) <= k < |s| ==> drop(s[k])
    ensures 0 < TrailStart(s, drop) ==> !drop(s[TrailStart(s, drop) - 1])
  {
    if s != [] && drop(s[|s| - 1]) {
      TrailStartSpec(s[..|s| - 1], drop);
    }
  }

  /** s.strip(chars) where drop says which characters are in chars: the leading run
      of dropped characters goes first, then the trailing run of what is left. */
  function Strip(s: string, drop: char -> bool): string {
    var t := s[LeadLen(s, drop)..];
    t[..TrailStart(t, drop)]
  }

  /** Concatenation regrouped, for any element type, so that the proof never compares
      the elements themselves. */
  lemma AppendAssoc<T>(a: seq<T>, b: seq<T>, c: seq<T>)
    ensures (a + b) + c == a + (b + c)
  {
  }

  /** " ".join(ws) */
  function JoinWords(ws: seq<string>): string {
    if ws == [] then "" else if |ws| == 1 then ws[0] else ws[0] + " " + JoinWords(ws[1..])
  }

  /** s.split(): the maximal runs of non-whitespace characters of s, in order. */
  function Split(s: string): seq<string>
    decreases |s|
  {
    if s == [] then []
    else if IsSpace(s[0]) then Split(s[1..])
    else
      var i := LeadLen(s, IsNotSpace);
      [s[..i]] + Split(s[i..])
  }

  /** The three facts LeadLen promises determine it. */
  lemma LeadLenUnique(s: string, drop: char -> bool, i: nat)
    requires i <= |s|
    requires forall k :: 0 <= k < i ==> drop(s[k])
    requires i < |s| ==> !drop(s[i])
    ensures LeadLen(s, drop) == i
  {
    LeadLenSpec(s, drop);
  }

  /** A stripped string neither starts nor ends with a character that drop accepts. */
  lemma StripEdges(s: string, drop: char -> bool)
    ensures Strip(s, drop) == [] || (!drop(Strip(s, drop)[0]) && !drop(Strip(s, drop)[|Strip(s, drop)| - 1]))
  {
    var t := s[LeadLen(s, drop)..];
    LeadLenSpec(s, drop);
    TrailStartSpec(t, drop);
  }

  /** Every entry of s.split() is a word: non-empty and free of whitespace. */
  lemma {:induction false} SplitWords(s: string)
    ensures forall k :: 0 <= k < |Split(s)| ==> IsWord(Split(s)[k])
    decreases |s|
  {
    if s != [] {
      if IsSpace(s[0]) {
        SplitWords(s[1..]);
      } else {
        var i := LeadLen(s, IsNotSpace);
        LeadLenSpec(s, IsNotSpace);
        SplitWords(s[i..]);
      }
    }
  }

  /** What s.strip(chars) removes: the leading run of dropped characters, and every
      character after the kept slice, which are all dropped ones. */
  lemma StripSlice(s: string, drop: char -> bool)
    ensures LeadLen(s, drop) + |Strip(s, drop)| <= |s|
    ensures Strip(s, drop) == s[LeadLen(s, drop)..LeadLen(s, drop) + |Strip(s, drop)|]
    ensures forall k :: LeadLen(s, drop) + |Strip(s, drop)| <= k < |s| ==> drop(s[k])
  {
    var i := LeadLen(s, drop);
    var t := s[i..];
    var j := TrailStart(t, drop);
    TrailStartSpec(t, drop);
    forall k | i + j <= k < |s| ensures drop(s[k]) {
      assert s[k] == t[k - i];
    }
  }

  /** A string that neither starts nor ends with a dropped character is left as it is. */
  lemma StripNoEdges(s: string, drop: char -> bool)
    requires s == [] || (!drop(s[0]) && !drop(s[|s| - 1]))
    ensures Strip(s, drop) == s
  {
    LeadLenUnique(s, drop, 0);
    assert s[0..] == s;
  }

  /** Stripping twice is stripping once. */
  lemma StripIdempotent(s: string, drop: char -> bool)
    ensures Strip(Strip(s, drop), drop) == Strip(s, drop)
  {
    StripEdges(s, drop);
    StripNoEdges(Strip(s, drop), drop);
  }

  /** A single trailing whitespace character makes no difference to str.strip(). */
  lemma StripTrailingSpace(x: string, c: char)
    requires IsSpace(c)
    ensures Strip(x + [c], IsSpace) == Strip(x, IsSpace)
  {
    var s := x + [c];
    var i := LeadLen(x, IsSpace);
    LeadLenSpec(x, IsSpace);
    if i < |x| {
      LeadLenUnique(s, IsSpace, i);
      var t := s[i..];
      assert t == x[i..] + [c];
      assert TrailStart(t, IsSpace) == TrailStart(x[i..], IsSpace);
    } else {
      LeadLenUnique(s, IsSpace, |s|);
    }
  }

  /** A whitespace character separates: the words of x, c and y are the words of x
      followed by the words of y. */
  lemma {:induction false} SplitSpace(x: string, c: char, y: string)
    requires IsSpace(c)
    ensures Split(x + [c] + y) == Split(x) + Split(y)
    decreases |x|
  {
    var s := x + [c] + y;
    if x == [] {
      assert s[1..] == y;
    } else if IsSpace(x[0]) {
      assert s[1..] == x[1..] + [c] + y;
      SplitSpace(x[1..], c, y);
    } else {
      var i := LeadLen(x, IsNotSpace);
      LeadLenSpec(x, IsNotSpace);
      assert 0 < i;
      forall k | 0 <= k < i ensures IsNotSpace(s[k]) {
        assert s[k] == x[k];
      }
      assert s[i] == if i < |x| then x[i] else c;
      LeadLenUnique(s, IsNotSpace, i);
      assert s[..i] == x[..i];
      assert s[i..] == x[i..] + [c] + y;
      SplitSpace(x[i..], c, y);
      AppendAssoc([x[..i]], Split(x[i..]), Split(y));
    }
  }

  /** Only whitespace, and nothing else, splits into no words. */
  lemma {:induction false} SplitEmpty(s: string)
    ensures Split(s) == [] <==> forall k :: 0 <= k < |s| ==> IsSpace(s[k])
    decreases |s|
  {
    if s != [] && IsSpace(s[0]) {
      SplitEmpty(s[1..]);
      if forall k :: 0 <= k < |s[1..]| ==> IsSpace(s[1..][k]) {
        assert forall k :: 0 <= k < |s| ==> IsSpace(s[k]) by {
          forall k | 0 < k < |s| ensures IsSpace(s[k]) {
            assert s[k] == s[1..][k - 1];
          }
        }
      }
    }
  }

  /** Round trip: splitting words joined by single spaces gives the words back. */
  lemma {:induction false} SplitJoin(ws: seq<string>)
    requires forall k :: 0 <= k < |ws| ==> IsWord(ws[k])
    ensures Split(JoinWords(ws)) == ws
  {
    if |ws| == 1 {
      var w := ws[0];
      LeadLenUnique(w, IsNotSpace, |w|);
      assert w[..|w|] == w && w[|w|..] == [];
    } else if |ws| > 1 {
      var w, rest := ws[0], JoinWords(ws[1..]);
      var s := w + " " + rest;
      assert s[|w|] == ' ';
      LeadLenUnique(s, IsNotSpace, |w|);
      assert s[..|w|] == w;
      assert s[|w|..][1..] == rest;
      SplitJoin(ws[1..]);
      assert ws == [w] + ws[1..];
    }
  }
}
