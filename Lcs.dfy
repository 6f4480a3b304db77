/** lcs of evaluation.py: a longest common subsequence of two token lists, by filling a
    dynamic-programming table and walking back through it. */
module Lcs {

  /** Python's max on two table entries. */
  function Max(x: nat, y: nat): (m: nat)
    ensures x <= m && y <= m && (m == x || m == y)
  {
    if x >= y then x else y
  }

  /** lcs_table[i][j] as the recurrence defines it, for the first i entries of a and the
      first j entries of b. */
  function Table(a: seq<string>, b: seq<string>, i: nat, j: nat): (t: nat)
    requires i <= |a| && j <= |b|
    ensures t <= i && t <= j
  {
    if i == 0 || j == 0 then 0
    else if a[i - 1] == b[j - 1] then 1 + Table(a, b, i - 1, j - 1)
    else Max(Table(a, b, i - 1, j), Table(a, b, i, j - 1))
  }

  /** The walk back from cell (i, j), read in original order: a match is kept and both
      indices step back; otherwise i steps back only when the cell above is strictly
      larger than the cell to the left, so on a tie j steps back. */
  function Backtrack(a: seq<string>, b: seq<string>, i: nat, j: nat): seq<string>
    requires i <= |a| && j <= |b|
  {
    if i == 0 || j == 0 then []
    else if a[i - 1] == b[j - 1] then Backtrack(a, b, i - 1, j - 1) + [a[i - 1]]
    else if Table(a, b, i - 1, j) > Table(a, b, i, j - 1) then Backtrack(a, b, i - 1, j)
    else Backtrack(a, b, i, j - 1)
  }

  /** s occurs in t in order, not necessarily contiguously. */
  predicate IsSubseq(s: seq<string>, t: seq<string>)
    decreases |t|
  {
    if s == [] then true
    else if t == [] then false
    else (s[|s| - 1] == t[|t| - 1] && IsSubseq(s[..|s| - 1], t[..|t| - 1]))
         || IsSubseq(s, t[..|t| - 1])
  }

  /** lcs_result[::-1] */
  function Reversed(s: seq<string>): (r: seq<string>)
    ensures |r| == |s|
    ensures forall k :: 0 <= k < |s| ==> r[k] == s[|s| - 1 - k]
  {
    if s == [] then [] else [s[|s| - 1]] + Reversed(s[..|s| - 1])
  }

  /** The first half of lcs: lcs_table, zero-initialised and filled row by row. */
  method FillTable(a: seq<string>, b: seq<string>) returns (table: array2<nat>)
    ensures fresh(table)
    ensures table.Length0 == |a| + 1 && table.Length1 == |b| + 1
    ensures forall p, q {:trigger table[p, q]} :: 0 <= p <= |a| && 0 <= q <= |b| ==> table[p, q] == Table(a, b, p, q)
  {
    var m, n := |a|, |b|;
    table := new nat[m + 1, n + 1]((_, _) => 0);
    for i := 1 to m + 1
      invariant forall p, q {:trigger table[p, q]} :: 0 <= p < i && 0 <= q <= n ==> table[p, q] == Table(a, b, p, q)
      invariant forall p :: i <= p <= m ==> table[p, 0] == 0
    {
      for j := 1 to n + 1
        invariant forall p, q {:trigger table[p, q]} :: 0 <= p < i && 0 <= q <= n ==> table[p, q] == Table(a, b, p, q)
        invariant forall q {:trigger table[i, q]} :: 0 <= q < j ==> table[i, q] == Table(a, b, i, q)
        invariant forall p :: i < p <= m ==> table[p, 0] == 0
      {
        if a[i - 1] == b[j - 1] {
          table[i, j] := 1 + table[i - 1, j - 1];
        } else {
          table[i, j] := Max(table[i - 1, j], table[i, j - 1]);
        }
      }
    }
  }

  /** lcs: the table is filled, then walked back from its last cell. The result is a
      common subsequence of a and b, in their order, of the largest possible length. */
  method Lcs(a: seq<string>, b: seq<string>) returns (r: seq<string>)
    ensures r == Backtrack(a, b, |a|, |b|)
    ensures |r| == Table(a, b, |a|, |b|)
    ensures IsSubseq(r, a) && IsSubseq(r, b)
    ensures forall s :: IsSubseq(s, a) && IsSubseq(s, b) ==> |s| <= |r|
  {
    var table := FillTable(a, b);
    var result := WalkBack(a, b, table);
    r := Reversed(result);
    BacktrackOptimal(a, b);
  }

  /** The second half of lcs: the walk back through the filled table, collecting the
      matched entries last to first. */
  method WalkBack(a: seq<string>, b: seq<string>, table: array2<nat>) returns (result: seq<string>)
    requires table.Length0 == |a| + 1 && table.Length1 == |b| + 1
    requires forall p, q {:trigger table[p, q]} :: 0 <= p <= |a| && 0 <= q <= |b| ==> table[p, q] == Table(a, b, p, q)
    ensures Reversed(result) == Backtrack(a, b, |a|, |b|)
  {
    var m, n := |a|, |b|;
    result := [];
    ghost var kept: seq<string> := [];
    var i, j := m, n;
    while i > 0 && j > 0
      invariant 0 <= i <= m && 0 <= j <= n
      invariant kept == Reversed(result)
      invariant Backtrack(a, b, m, n) == Backtrack(a, b, i, j) + kept
      decreases i + j
    {
      if a[i - 1] == b[j - 1] {
        ReversedSnoc(result, a[i - 1]);
        BacktrackMatch(a, b, i, j, kept);
        result := result + [a[i - 1]];
        kept := [a[i - 1]] + kept;
        i, j := i - 1, j - 1;
      } else {
        BacktrackSkip(a, b, i, j);
        if table[i - 1, j] > table[i, j - 1] {
          i := i - 1;
        } else {
          j := j - 1;
        }
      }
    }
  }

  /** The walk from the last cell yields a common subsequence whose length is the last
      table entry, and no common subsequence is longer. */
  lemma BacktrackOptimal(a: seq<string>, b: seq<string>)
    ensures |Backtrack(a, b, |a|, |b|)| == Table(a, b, |a|, |b|)
    ensures IsSubseq(Backtrack(a, b, |a|, |b|), a) && IsSubseq(Backtrack(a, b, |a|, |b|), b)
    ensures forall s :: IsSubseq(s, a) && IsSubseq(s, b) ==> |s| <= |Backtrack(a, b, |a|, |b|)|
  {
    var m, n := |a|, |b|;
    assert a[..m] == a && b[..n] == b;
    BacktrackLength(a, b, m, n);
    BacktrackCommon(a, b, m, n);
    forall s | IsSubseq(s, a) && IsSubseq(s, b) ensures |s| <= Table(a, b, m, n) {
      TableOptimal(a, b, m, n, s);
    }
  }

  /** A match at (i, j) moves the matched entry from the walk onto the kept tail. */
  lemma BacktrackMatch(a: seq<string>, b: seq<string>, i: nat, j: nat, kept: seq<string>)
    requires 0 < i <= |a| && 0 < j <= |b| && a[i - 1] == b[j - 1]
    ensures Backtrack(a, b, i, j) + kept == Backtrack(a, b, i - 1, j - 1) + ([a[i - 1]] + kept)
  {
  }

  /** Without a match at (i, j) the walk continues from the larger neighbour, from the
      left one on a tie. */
  lemma BacktrackSkip(a: seq<string>, b: seq<string>, i: nat, j: nat)
    requires 0 < i <= |a| && 0 < j <= |b| && a[i - 1] != b[j - 1]
    ensures Backtrack(a, b, i, j) == if Table(a, b, i - 1, j) > Table(a, b, i, j - 1)
                                     then Backtrack(a, b, i - 1, j) else Backtrack(a, b, i, j - 1)
  {
  }

  /** Appending to lcs_result puts the new entry first in the reversed list. */
  lemma ReversedSnoc(s: seq<string>, x: string)
    ensures Reversed(s + [x]) == [x] + Reversed(s)
  {
    assert (s + [x])[..|s|] == s;
  }

  /** One step back in either index changes a table entry by at most one, never downward. */
  lemma {:induction false} TableSteps(a: seq<string>, b: seq<string>, i: nat, j: nat)
    requires i <= |a| && j <= |b|
    ensures 0 < i ==> Table(a, b, i - 1, j) <= Table(a, b, i, j) <= Table(a, b, i - 1, j) + 1
    ensures 0 < j ==> Table(a, b, i, j - 1) <= Table(a, b, i, j) <= Table(a, b, i, j - 1) + 1
    decreases i + j
  {
    if 0 < i && 0 < j {
      TableSteps(a, b, i - 1, j);
      TableSteps(a, b, i, j - 1);
    }
  }

  /** The walk keeps exactly as many entries as the table cell it starts from holds. */
  lemma {:induction false} BacktrackLength(a: seq<string>, b: seq<string>, i: nat, j: nat)
    requires i <= |a| && j <= |b|
    ensures |Backtrack(a, b, i, j)| == Table(a, b, i, j)
    decreases i + j
  {
    if 0 < i && 0 < j {
      if a[i - 1] == b[j - 1] {
        BacktrackLength(a, b, i - 1, j - 1);
      } else if Table(a, b, i - 1, j) > Table(a, b, i, j - 1) {
        BacktrackLength(a, b, i - 1, j);
      } else {
        BacktrackLength(a, b, i, j - 1);
      }
    }
  }

  /** A subsequence of t is one of t extended by one more entry. */
  lemma SubseqExtend(s: seq<string>, t: seq<string>, x: string)
    requires IsSubseq(s, t)
    ensures IsSubseq(s, t + [x])
  {
    assert (t + [x])[..|t|] == t;
  }

  /** The walk from (i, j) is a subsequence of both prefixes a[..i] and b[..j]. */
  lemma {:induction false} BacktrackCommon(a: seq<string>, b: seq<string>, i: nat, j: nat)
    requires i <= |a| && j <= |b|
    ensures IsSubseq(Backtrack(a, b, i, j), a[..i]) && IsSubseq(Backtrack(a, b, i, j), b[..j])
    decreases i + j
  {
    if 0 < i && 0 < j {
      assert a[..i] == a[..i - 1] + [a[i - 1]];
      assert b[..j] == b[..j - 1] + [b[j - 1]];
      if a[i - 1] == b[j - 1] {
        BacktrackCommon(a, b, i - 1, j - 1);
        var s := Backtrack(a, b, i, j);
        assert s[..|s| - 1] == Backtrack(a, b, i - 1, j - 1);
      } else if Table(a, b, i - 1, j) > Table(a, b, i, j - 1) {
        BacktrackCommon(a, b, i - 1, j);
        SubseqExtend(Backtrack(a, b, i, j), a[..i - 1], a[i - 1]);
      } else {
        BacktrackCommon(a, b, i, j - 1);
        SubseqExtend(Backtrack(a, b, i, j), b[..j - 1], b[j - 1]);
      }
    }
  }

  /** Every common subsequence of a[..i] and b[..j] is at most Table(a, b, i, j) long. */
  lemma {:induction false} TableOptimal(a: seq<string>, b: seq<string>, i: nat, j: nat, s: seq<string>)
    requires i <= |a| && j <= |b|
    requires IsSubseq(s, a[..i]) && IsSubseq(s, b[..j])
    ensures |s| <= Table(a, b, i, j)
    decreases i + j
  {
    if s != [] {
      assert 0 < i && 0 < j;
      assert a[..i][..i - 1] == a[..i - 1];
      assert b[..j][..j - 1] == b[..j - 1];
      TableSteps(a, b, i, j);
      if IsSubseq(s, a[..i - 1]) {
        TableOptimal(a, b, i - 1, j, s);
      } else if IsSubseq(s, b[..j - 1]) {
        TableOptimal(a, b, i, j - 1, s);
      } else {
        TableOptimal(a, b, i - 1, j - 1, s[..|s| - 1]);
      }
    }
  }

  /** The LCS length does not depend on the order of the two lists. */
  lemma LcsLengthSymmetric(a: seq<string>, b: seq<string>)
    ensures |Backtrack(a, b, |a|, |b|)| == |Backtrack(b, a, |b|, |a|)|
  {
    assert a[..|a|] == a && b[..|b|] == b;
    BacktrackLength(a, b, |a|, |b|);
    BacktrackLength(b, a, |b|, |a|);
    BacktrackCommon(a, b, |a|, |b|);
    BacktrackCommon(b, a, |b|, |a|);
    TableOptimal(a, b, |a|, |b|, Backtrack(b, a, |b|, |a|));
    TableOptimal(b, a, |b|, |a|, Backtrack(a, b, |a|, |b|));
  }

  /** A list's LCS with itself is the whole list. */
  lemma {:induction false} BacktrackSelf(a: seq<string>, i: nat)
    requires i <= |a|
    ensures Table(a, a, i, i) == i
    ensures Backtrack(a, a, i, i) == a[..i]
  {
    if 0 < i {
      BacktrackSelf(a, i - 1);
      assert a[..i] == a[..i - 1] + [a[i - 1]];
    }
  }

  /** On a tie the walk steps back in the second list: for x y against y x the cell above
      and the cell to the left both hold 1, j steps back, and y is kept rather than x. */
  lemma TieBreak()
    ensures Backtrack(["x", "y"], ["y", "x"], 2, 2) == ["y"]
  {
    var a, b := ["x", "y"], ["y", "x"];
    assert Table(a, b, 1, 2) == 1;
    assert Table(a, b, 2, 1) == 1;
    assert Backtrack(a, b, 2, 1) == ["y"];
  }
}
