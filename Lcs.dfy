/**
 * Longest common subsequence of two sequences: the textbook recurrence over prefixes (the
 * table the line counter's dynamic program fills in), and the proof that it computes the
 * length of a longest common subsequence.
 */
module LongestCommonSubsequence {

  function Max(x: nat, y: nat): nat {
    if x >= y then x else y
  }

  /** The recurrence for the LCS length of `a[..i]` and `b[..j]`. */
  function LcsPrefix<T(==)>(a: seq<T>, b: seq<T>, i: nat, j: nat): (r: nat)
    requires i <= |a| && j <= |b|
    ensures r <= i && r <= j
    decreases i + j
  {
    if i == 0 || j == 0 then 0
    else if a[i - 1] == b[j - 1] then LcsPrefix(a, b, i - 1, j - 1) + 1
    else Max(LcsPrefix(a, b, i - 1, j), LcsPrefix(a, b, i, j - 1))
  }

  /** The LCS length of `a` and `b`; never more than the shorter of the two. */
  function Lcs<T(==)>(a: seq<T>, b: seq<T>): (r: nat)
    ensures r <= |a| && r <= |b|
  {
    LcsPrefix(a, b, |a|, |b|)
  }

  lemma {:induction false} LcsPrefixSymmetric<T>(a: seq<T>, b: seq<T>, i: nat, j: nat)
    requires i <= |a| && j <= |b|
    ensures LcsPrefix(a, b, i, j) == LcsPrefix(b, a, j, i)
    decreases i + j
  {
    if i > 0 && j > 0 {
      if a[i - 1] == b[j - 1] {
        LcsPrefixSymmetric(a, b, i - 1, j - 1);
      } else {
        LcsPrefixSymmetric(a, b, i - 1, j);
        LcsPrefixSymmetric(a, b, i, j - 1);
      }
    }
  }

  /** The order of the two sequences does not matter. */
  lemma LcsSymmetric<T>(a: seq<T>, b: seq<T>)
    ensures Lcs(a, b) == Lcs(b, a)
  {
    LcsPrefixSymmetric(a, b, |a|, |b|);
  }

  /** One more element of `b` never lowers the length; one more element of `a` raises it
      by at most one. */
  lemma {:induction false} LcsPrefixSteps<T>(a: seq<T>, b: seq<T>, i: nat, j: nat)
    requires i <= |a| && j <= |b|
    ensures j >= 1 ==> LcsPrefix(a, b, i, j - 1) <= LcsPrefix(a, b, i, j)
    ensures i >= 1 ==> LcsPrefix(a, b, i, j) <= LcsPrefix(a, b, i - 1, j) + 1
    decreases i + j
  {
    if i >= 1 && j >= 1 {
      LcsPrefixSteps(a, b, i, j - 1);
      LcsPrefixSteps(a, b, i - 1, j);
    }
  }

  /** The same two facts with the roles of `a` and `b` exchanged. */
  lemma LcsPrefixStepsOther<T>(a: seq<T>, b: seq<T>, i: nat, j: nat)
    requires i <= |a| && j <= |b|
    ensures i >= 1 ==> LcsPrefix(a, b, i - 1, j) <= LcsPrefix(a, b, i, j)
    ensures j >= 1 ==> LcsPrefix(a, b, i, j) <= LcsPrefix(a, b, i, j - 1) + 1
  {
    LcsPrefixSteps(b, a, j, i);
    LcsPrefixSymmetric(a, b, i, j);
    if i >= 1 {
      LcsPrefixSymmetric(a, b, i - 1, j);
    }
    if j >= 1 {
      LcsPrefixSymmetric(a, b, i, j - 1);
    }
  }

  /** `z` is obtained from `s` by deleting some of its elements. */
  ghost predicate IsSubsequence<T>(z: seq<T>, s: seq<T>)
    decreases |s|
  {
    |z| == 0 ||
    (|s| > 0 &&
     ((z[|z| - 1] == s[|s| - 1] && IsSubsequence(z[..|z| - 1], s[..|s| - 1]))
      || IsSubsequence(z, s[..|s| - 1])))
  }

  /** A common subsequence of `a[..i]` and `b[..j]` as long as the recurrence says. */
  ghost function LcsWitness<T>(a: seq<T>, b: seq<T>, i: nat, j: nat): (z: seq<T>)
    requires i <= |a| && j <= |b|
    ensures |z| == LcsPrefix(a, b, i, j)
    ensures IsSubsequence(z, a[..i]) && IsSubsequence(z, b[..j])
    decreases i + j
  {
    if i == 0 || j == 0 then []
    else if a[i - 1] == b[j - 1] then
      var w := LcsWitness(a, b, i - 1, j - 1);
      var z := w + [a[i - 1]];
      assert z[..|z| - 1] == w;
      assert a[..i][..i - 1] == a[..i - 1] && b[..j][..j - 1] == b[..j - 1];
      z
    else if LcsPrefix(a, b, i - 1, j) >= LcsPrefix(a, b, i, j - 1) then
      var z := LcsWitness(a, b, i - 1, j);
      assert a[..i][..i - 1] == a[..i - 1];
      z
    else
      var z := LcsWitness(a, b, i, j - 1);
      assert b[..j][..j - 1] == b[..j - 1];
      z
  }

  /** No common subsequence of `a[..i]` and `b[..j]` is longer than the recurrence says. */
  lemma {:induction false} CommonSubsequenceBound<T>(z: seq<T>, a: seq<T>, b: seq<T>, i: nat, j: nat)
    requires i <= |a| && j <= |b|
    requires IsSubsequence(z, a[..i]) && IsSubsequence(z, b[..j])
    ensures |z| <= LcsPrefix(a, b, i, j)
    decreases i + j
  {
    if |z| > 0 {
      assert i > 0 && j > 0;
      assert a[..i][..i - 1] == a[..i - 1] && b[..j][..j - 1] == b[..j - 1];
      LcsPrefixSteps(a, b, i, j);
      LcsPrefixStepsOther(a, b, i, j);
      if IsSubsequence(z, a[..i - 1]) {
        CommonSubsequenceBound(z, a, b, i - 1, j);
      } else if IsSubsequence(z, b[..j - 1]) {
        CommonSubsequenceBound(z, a, b, i, j - 1);
      } else {
        CommonSubsequenceBound(z[..|z| - 1], a, b, i - 1, j - 1);
      }
    }
  }

  /** `Lcs(a, b)` is the length of a longest common subsequence of `a` and `b`. */
  lemma LcsIsLongest<T>(a: seq<T>, b: seq<T>)
    ensures exists z :: IsSubsequence(z, a) && IsSubsequence(z, b) && |z| == Lcs(a, b)
    ensures forall z :: IsSubsequence(z, a) && IsSubsequence(z, b) ==> |z| <= Lcs(a, b)
  {
    assert a[..|a|] == a && b[..|b|] == b;
    var w := LcsWitness(a, b, |a|, |b|);
    forall z | IsSubsequence(z, a) && IsSubsequence(z, b) ensures |z| <= Lcs(a, b) {
      CommonSubsequenceBound(z, a, b, |a|, |b|);
    }
  }

  lemma {:induction false} SubsequenceOfItself<T>(s: seq<T>)
    ensures IsSubsequence(s, s)
    decreases |s|
  {
    if |s| > 0 {
      SubsequenceOfItself(s[..|s| - 1]);
    }
  }

  lemma {:induction false} SubsequenceOfExtension<T>(z: seq<T>, s: seq<T>, t: seq<T>)
    requires IsSubsequence(z, s)
    ensures IsSubsequence(z, s + t)
    decreases |t|
  {
    if |t| > 0 {
      SubsequenceOfExtension(z, s, t[..|t| - 1]);
      assert (s + t)[..|s + t| - 1] == s + t[..|t| - 1];
    } else {
      assert s + t == s;
    }
  }

  /** When `a` is a subsequence of `b` (b only inserts elements), the whole of `a` is common. */
  lemma LcsOfSubsequence<T>(a: seq<T>, b: seq<T>)
    requires IsSubsequence(a, b)
    ensures Lcs(a, b) == |a|
  {
    SubsequenceOfItself(a);
    LcsIsLongest(a, b);
  }

  /** Appending elements keeps the whole original as common subsequence. */
  lemma LcsOfAppended<T>(a: seq<T>, t: seq<T>)
    ensures Lcs(a, a + t) == |a|
  {
    SubsequenceOfItself(a);
    SubsequenceOfExtension(a, a, t);
    LcsOfSubsequence(a, a + t);
  }
}
