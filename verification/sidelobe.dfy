/**
 * The peak sidelobe level of a sequence, as a specification shared by the
 * two programs that compute it: for every shift k in [1, n), the aperiodic
 * autocorrelation C(k) is the sum over i < n - k of +1 when s[i] and
 * s[i + k] agree and -1 when they differ; the peak sidelobe is the largest
 * |C(k)|, or 0 when there is no shift.
 */
module Sidelobe {
  import opened Bits

  function Sum(t: seq<int>): int
  {
    if t == [] then 0 else t[0] + Sum(t[1..])
  }

  function Abs(x: int): nat { if x < 0 then -x else x }

  function Max(a: int, b: int): int { if a < b then b else a }

  /** The sequence read backwards; ReverseAt gives its elements. */
  function Reverse<T>(s: seq<T>): (r: seq<T>)
    ensures |r| == |s|
  {
    seq(|s|, i requires 0 <= i < |s| => s[|s| - 1 - i])
  }

  /** +1 for agreeing characters, -1 for differing ones. */
  function Agreement(a: char, b: char): int { if a == b then 1 else -1 }

  /** The terms of C(shift), in the order the loops add them. */
  function Terms(s: seq<char>, shift: nat): (t: seq<int>)
    requires shift <= |s|
    ensures |t| == |s| - shift
  {
    seq(|s| - shift, i requires 0 <= i < |s| - shift => Agreement(s[i], s[i + shift]))
  }

  function Correlation(s: seq<char>, shift: nat): int
    requires shift <= |s|
  {
    Sum(Terms(s, shift))
  }

  /** Largest |C(k)| over the shifts 1 <= k < n (0 when there is none). */
  function PeakUpTo(s: seq<char>, n: nat): nat
    requires n <= |s| || n == 1
  {
    if n <= 1 then 0 else Max(PeakUpTo(s, n - 1), Abs(Correlation(s, n - 1)))
  }

  function PeakSidelobe(s: seq<char>): nat
  {
    PeakUpTo(s, |s|)
  }

  // ---------------------------------------------------------------- sums

  lemma {:induction false} SumConcat(a: seq<int>, b: seq<int>)
    ensures Sum(a + b) == Sum(a) + Sum(b)
  {
    if a == [] {
      assert a + b == b;
    } else {
      assert (a + b)[1..] == a[1..] + b;
      SumConcat(a[1..], b);
    }
  }

  /** Adding the terms one at a time, as the loops do. */
  lemma SumPrefixStep(t: seq<int>, i: nat)
    requires i < |t|
    ensures Sum(t[..i + 1]) == Sum(t[..i]) + t[i]
  {
    assert t[..i + 1] == t[..i] + [t[i]];
    SumConcat(t[..i], [t[i]]);
  }

  /** A sequence and its mirror image have the same sum. */
  lemma {:induction false} SumMirror(a: seq<int>, b: seq<int>)
    requires |a| == |b| && forall i :: 0 <= i < |a| ==> a[i] == b[|b| - 1 - i]
    ensures Sum(a) == Sum(b)
  {
    if a != [] {
      var n := |b|;
      forall i | 0 <= i < |a[1..]| ensures a[1..][i] == b[..n - 1][n - 2 - i] {
        assert a[1..][i] == a[i + 1];
      }
      SumMirror(a[1..], b[..n - 1]);
      assert b == b[..n - 1] + [b[n - 1]];
      SumConcat(b[..n - 1], [b[n - 1]]);
    }
  }

  /** A sum of terms each +1 or -1 is bounded by the number of terms. */
  lemma {:induction false} SumOfSignsBound(t: seq<int>)
    requires forall i :: 0 <= i < |t| ==> t[i] == 1 || t[i] == -1
    ensures Abs(Sum(t)) <= |t|
  {
    if t != [] {
      SumOfSignsBound(t[1..]);
    }
  }

  lemma {:induction false} SumOfOnes(t: seq<int>)
    requires forall i :: 0 <= i < |t| ==> t[i] == 1
    ensures Sum(t) == |t|
  {
    if t != [] {
      SumOfOnes(t[1..]);
    }
  }

  // ------------------------------------------------- properties of the peak

  /** Every sidelobe is at most the number of overlapping positions. */
  lemma CorrelationBound(s: seq<char>, shift: nat)
    requires shift <= |s|
    ensures Abs(Correlation(s, shift)) <= |s| - shift
  {
    SumOfSignsBound(Terms(s, shift));
  }

  lemma {:induction false} PeakUpToBound(s: seq<char>, n: nat)
    requires 1 <= n <= |s|
    ensures PeakUpTo(s, n) <= |s| - 1
  {
    if n > 1 {
      PeakUpToBound(s, n - 1);
      CorrelationBound(s, n - 1);
      assert PeakUpTo(s, n) == Max(PeakUpTo(s, n - 1), Abs(Correlation(s, n - 1)));
    }
  }

  /** The peak sidelobe lies in [0, n - 1], and is 0 when n <= 1. */
  lemma PeakSidelobeRange(s: seq<char>)
    ensures |s| <= 1 ==> PeakSidelobe(s) == 0
    ensures |s| >= 1 ==> PeakSidelobe(s) <= |s| - 1
  {
    if |s| >= 1 {
      PeakUpToBound(s, |s|);
    }
  }

  predicate Constant(s: seq<char>) { forall i :: 0 <= i < |s| ==> s[i] == s[0] }

  lemma {:induction false} PeakUpToConstant(s: seq<char>, n: nat)
    requires Constant(s) && 2 <= n <= |s|
    ensures PeakUpTo(s, n) == |s| - 1
  {
    SumOfOnes(Terms(s, n - 1));
    if n > 2 {
      PeakUpToConstant(s, n - 1);
    } else {
      assert PeakUpTo(s, 1) == 0;
    }
  }

  /** A constant sequence of length n >= 2 has the worst possible peak, n - 1. */
  lemma PeakSidelobeConstant(s: seq<char>)
    requires Constant(s) && |s| >= 2
    ensures PeakSidelobe(s) == |s| - 1
  {
    PeakUpToConstant(s, |s|);
  }

  lemma ReverseAt<T>(s: seq<T>, i: nat)
    requires i < |s|
    ensures Reverse(s)[i] == s[|s| - 1 - i]
  {
  }

  lemma TermsAt(s: seq<char>, shift: nat, i: nat)
    requires shift <= |s| && i < |s| - shift
    ensures Terms(s, shift)[i] == Agreement(s[i], s[i + shift])
  {
  }

  /** Term i of r's sum is the mirrored term of s's when r holds s's characters mirrored. */
  lemma MirroredTerm(s: seq<char>, r: seq<char>, shift: nat, i: nat)
    requires |r| == |s| && shift <= |s| && i < |s| - shift
    requires r[i] == s[|s| - 1 - i] && r[i + shift] == s[|s| - 1 - (i + shift)]
    ensures Terms(r, shift)[i] == Terms(s, shift)[|Terms(s, shift)| - 1 - i]
  {
    var j := |s| - shift - 1 - i;
    TermsAt(r, shift, i);
    TermsAt(s, shift, j);
    assert |s| - 1 - i == j + shift && |s| - 1 - (i + shift) == j;
  }

  /** A sequence holding s's characters mirrored has s's sidelobes. */
  lemma CorrelationMirror(s: seq<char>, r: seq<char>, shift: nat)
    requires |r| == |s| && shift <= |s|
    requires forall j :: 0 <= j < |s| ==> r[j] == s[|s| - 1 - j]
    ensures Correlation(r, shift) == Correlation(s, shift)
  {
    var a, b := Terms(r, shift), Terms(s, shift);
    forall i | 0 <= i < |a| ensures Terms(r, shift)[i] == Terms(s, shift)[|Terms(s, shift)| - 1 - i] {
      MirroredTerm(s, r, shift, i);
    }
    SumMirror(a, b);
  }

  /** Reading a sequence backwards keeps every sidelobe. */
  lemma CorrelationReverse(s: seq<char>, shift: nat)
    requires shift <= |s|
    ensures Correlation(Reverse(s), shift) == Correlation(s, shift)
  {
    forall j | 0 <= j < |s| ensures Reverse(s)[j] == s[|s| - 1 - j] {
      ReverseAt(s, j);
    }
    CorrelationMirror(s, Reverse(s), shift);
  }

  lemma {:induction false} PeakUpToReverse(s: seq<char>, n: nat)
    requires n <= |s|
    ensures PeakUpTo(Reverse(s), n) == PeakUpTo(s, n)
  {
    if n > 1 {
      PeakUpToReverse(s, n - 1);
      CorrelationReverse(s, n - 1);
    }
  }

  /** Reading a sequence backwards does not change its peak sidelobe. */
  lemma PeakSidelobeReverse(s: seq<char>)
    ensures PeakSidelobe(Reverse(s)) == PeakSidelobe(s)
  {
    PeakUpToReverse(s, |s|);
  }

  /** The shift-1 sum of a lone '1' before m zeros: one disagreement, m - 1 agreements. */
  lemma LoneOneFirstShift(m: nat)
    requires m >= 1
    ensures Correlation(['1'] + Zeros(m), 1) == m - 2
  {
    var s := ['1'] + Zeros(m);
    var t := Terms(s, 1);
    assert t[0] == Agreement('1', '0') == -1;
    forall i | 0 <= i < |t[1..]| ensures t[1..][i] == 1 {
      assert s[i + 1] == '0' && s[i + 2] == '0';
    }
    SumOfOnes(t[1..]);
  }

  /** When the shift-1 sidelobe is below n - 1, so is the whole peak. */
  lemma {:induction false} PeakUpToFirstShift(s: seq<char>, n: nat)
    requires 2 <= n <= |s| && Abs(Correlation(s, 1)) <= |s| - 2
    ensures PeakUpTo(s, n) <= |s| - 2
  {
    if n == 2 {
      assert PeakUpTo(s, 1) == 0;
    } else {
      PeakUpToFirstShift(s, n - 1);
      CorrelationBound(s, n - 1);
    }
  }

  /** A lone '1' before m zeros lowers the peak below the constant sequence's m. */
  lemma LoneLeadingOne(m: nat)
    requires m >= 2
    ensures PeakSidelobe(['1'] + Zeros(m)) <= m - 1
  {
    var s := ['1'] + Zeros(m);
    assert |s| == m + 1;
    LoneOneFirstShift(m);
    PeakUpToFirstShift(s, m + 1);
  }
}
