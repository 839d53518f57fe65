/** Sums, means, extremes and sorting of sequences of exact reals: the
    arithmetic underneath the statistics engine. JavaScript's
    `reduce((sum, t) => sum + t, 0)`, `Math.min(...xs)`, `Math.max(...xs)` and
    `sort((a, b) => a - b)` are modelled here without floating-point rounding. */
module SeqMath {

  function Sum(s: seq<real>): real
  {
    if |s| == 0 then 0.0 else s[0] + Sum(s[1..])
  }

  /** The arithmetic mean of a non-empty sequence. */
  function Mean(s: seq<real>): real
    requires |s| > 0
  {
    Sum(s) / (|s| as real)
  }

  /** The least element, as `Math.min(...s)` returns it. */
  function Min(s: seq<real>): (m: real)
    requires |s| > 0
    ensures m in s
    ensures forall x :: x in s ==> m <= x
  {
    if |s| == 1 then s[0]
    else
      var rest := Min(s[1..]);
      assert forall x :: x in s ==> x == s[0] || x in s[1..];
      if s[0] <= rest then s[0] else rest
  }

  /** The greatest element, as `Math.max(...s)` returns it. */
  function Max(s: seq<real>): (m: real)
    requires |s| > 0
    ensures m in s
    ensures forall x :: x in s ==> x <= m
  {
    if |s| == 1 then s[0]
    else
      var rest := Max(s[1..]);
      assert forall x :: x in s ==> x == s[0] || x in s[1..];
      if s[0] >= rest then s[0] else rest
  }

  /** The least of a sequence is the element below or equal to all others. */
  lemma {:induction false} MinIs(s: seq<real>, m: real)
    requires m in s && forall x :: x in s ==> m <= x
    ensures Min(s) == m
  {
  }

  /** The least after appending one value. */
  lemma {:induction false} MinAppend(p: seq<real>, x: real)
    requires |p| > 0
    ensures Min(p + [x]) == if x < Min(p) then x else Min(p)
  {
    var q := p + [x];
    var m := if x < Min(p) then x else Min(p);
    assert forall y :: y in q ==> y in p || y == x;
    assert Min(p) in q && x in q;
    MinIs(q, m);
  }

  ghost predicate Sorted(s: seq<real>)
  {
    forall i, j :: 0 <= i < j < |s| ==> s[i] <= s[j]
  }

  /** Inserts `x` into a sorted sequence, before the first element not below it. */
  function Insert(x: real, s: seq<real>): (r: seq<real>)
    requires Sorted(s)
    ensures |r| == |s| + 1
    ensures Sorted(r)
    ensures multiset(r) == multiset(s) + multiset{x}
  {
    if |s| == 0 then [x]
    else if x <= s[0] then [x] + s
    else
      var tail := Insert(x, s[1..]);
      assert s == [s[0]] + s[1..];
      InsertAfterHead(s[0], tail, x, s[1..]);
      [s[0]] + tail
  }

  /** Putting the smallest element in front of a sorted sequence keeps it sorted. */
  lemma {:induction false} InsertAfterHead(h: real, tail: seq<real>, x: real, rest: seq<real>)
    requires Sorted(tail) && h < x
    requires forall i :: 0 <= i < |rest| ==> h <= rest[i]
    requires multiset(tail) == multiset(rest) + multiset{x}
    ensures Sorted([h] + tail)
  {
    var r := [h] + tail;
    forall i, j | 0 <= i < j < |r|
      ensures r[i] <= r[j]
    {
      if i == 0 {
        var y := tail[j - 1];
        assert y in multiset(tail);
        if y != x {
          assert y in multiset(rest);
          var k :| 0 <= k < |rest| && rest[k] == y;
        }
      } else {
        assert r[i] == tail[i - 1] && r[j] == tail[j - 1];
      }
    }
  }

  /** Ascending sort: the result is ordered and is a permutation of the input,
      so it is the one sequence any correct numeric sort returns
      (see SortedUnique). */
  function Sort(s: seq<real>): (r: seq<real>)
    ensures Sorted(r)
    ensures multiset(r) == multiset(s)
    ensures |r| == |s|
  {
    if |s| == 0 then []
    else
      assert s == [s[0]] + s[1..];
      Insert(s[0], Sort(s[1..]))
  }

  /** Two sorted permutations of one multiset are the same sequence. */
  lemma {:induction false} SortedUnique(a: seq<real>, b: seq<real>)
    requires Sorted(a) && Sorted(b)
    requires multiset(a) == multiset(b)
    ensures a == b
  {
    assert |a| == |multiset(a)| == |multiset(b)| == |b|;
    if |a| > 0 {
      SortedStep(a, b);
      SortedUnique(a[1..], b[1..]);
      SameHeadSameTail(a, b);
    }
  }

  /** The induction step of SortedUnique: equal heads, and tails that are
      again sorted permutations of one multiset. */
  lemma {:induction false} SortedStep(a: seq<real>, b: seq<real>)
    requires Sorted(a) && Sorted(b) && multiset(a) == multiset(b) && |a| > 0 && |b| > 0
    ensures a[0] == b[0]
    ensures Sorted(a[1..]) && Sorted(b[1..])
    ensures multiset(a[1..]) == multiset(b[1..])
  {
    SortedHeads(a, b);
    TailMultiset(a);
    TailMultiset(b);
    SortedTail(a);
    SortedTail(b);
  }

  lemma {:induction false} SameHeadSameTail(a: seq<real>, b: seq<real>)
    requires |a| > 0 && |b| > 0 && a[0] == b[0] && a[1..] == b[1..]
    ensures a == b
  {
    assert a == [a[0]] + a[1..];
    assert b == [b[0]] + b[1..];
  }

  /** Two sorted permutations of one multiset start with the same least
      element. */
  lemma {:induction false} SortedHeads(a: seq<real>, b: seq<real>)
    requires Sorted(a) && Sorted(b) && multiset(a) == multiset(b) && |a| > 0 && |b| > 0
    ensures a[0] == b[0]
  {
    assert a[0] in multiset(b);
    assert b[0] in multiset(a);
    var i :| 0 <= i < |b| && b[i] == a[0];
    var j :| 0 <= j < |a| && a[j] == b[0];
    assert b[0] <= a[0] && a[0] <= b[0];
  }

  lemma {:induction false} TailMultiset(s: seq<real>)
    requires |s| > 0
    ensures multiset(s[1..]) == multiset(s) - multiset{s[0]}
  {
    assert s == [s[0]] + s[1..];
  }

  lemma {:induction false} SortedTail(s: seq<real>)
    requires Sorted(s) && |s| > 0
    ensures Sorted(s[1..])
  {
    assert forall i :: 0 <= i < |s[1..]| ==> s[1..][i] == s[i + 1];
  }

  /** Sorting forgets the order of its input. */
  lemma {:induction false} SortPermutationInvariant(a: seq<real>, b: seq<real>)
    requires multiset(a) == multiset(b)
    ensures Sort(a) == Sort(b)
  {
    SortedUnique(Sort(a), Sort(b));
  }

  /** Sorting an already sorted sequence changes nothing. */
  lemma {:induction false} SortOfSorted(s: seq<real>)
    requires Sorted(s)
    ensures Sort(s) == s
  {
    SortedUnique(Sort(s), s);
  }

  /** The ends of a sorted permutation are the minimum and the maximum. */
  lemma {:induction false} SortedPermutationEnds(s: seq<real>, r: seq<real>)
    requires |s| > 0 && Sorted(r) && multiset(r) == multiset(s)
    ensures |r| == |s| && r[0] == Min(s) && r[|s| - 1] == Max(s)
  {
    assert |r| == |multiset(r)| == |s|;
    var lo, hi := Min(s), Max(s);
    assert r[0] in multiset(r) && r[|s| - 1] in multiset(r);
    assert r[0] in s && r[|s| - 1] in s;
    assert lo in multiset(s) && hi in multiset(s);
    var i :| 0 <= i < |r| && r[i] == lo;
    var j :| 0 <= j < |r| && r[j] == hi;
    assert r[0] <= r[i] && r[j] <= r[|s| - 1];
  }

  /** The ends of the sorted sequence are the input's minimum and maximum. */
  lemma {:induction false} SortEnds(s: seq<real>)
    requires |s| > 0
    ensures Sort(s)[0] == Min(s)
    ensures Sort(s)[|s| - 1] == Max(s)
  {
    SortedPermutationEnds(s, Sort(s));
  }

  /** Every element of a sorted permutation lies between the extremes. */
  lemma {:induction false} SortedPermutationBounds(s: seq<real>, r: seq<real>)
    requires |s| > 0 && Sorted(r) && multiset(r) == multiset(s)
    ensures |r| == |s|
    ensures forall i :: 0 <= i < |r| ==> Min(s) <= r[i] <= Max(s)
  {
    SortedPermutationEnds(s, r);
  }

  /** Every element of the sorted sequence lies between the input's extremes. */
  lemma {:induction false} SortBounds(s: seq<real>)
    requires |s| > 0
    ensures forall i :: 0 <= i < |s| ==> Min(s) <= Sort(s)[i] <= Max(s)
  {
    SortedPermutationBounds(s, Sort(s));
  }

  /** Without its two ends, a sorted permutation sums to the total less the
      minimum and the maximum. */
  lemma {:induction false} SortedPermutationWithoutEnds(s: seq<real>, r: seq<real>)
    requires |s| >= 2 && Sorted(r) && multiset(r) == multiset(s)
    ensures |r| == |s|
    ensures Sum(r[1..|s| - 1]) == Sum(s) - Min(s) - Max(s)
  {
    SortedPermutationEnds(s, r);
    SumPermutationInvariant(r, s);
    var k := |r|;
    var middle := r[1..k - 1];
    assert r == ([r[0]] + middle) + [r[k - 1]];
    SumConcat([r[0]] + middle, [r[k - 1]]);
    SumConcat([r[0]], middle);
  }

  lemma {:induction false} SumWithoutEnds(s: seq<real>)
    requires |s| >= 2
    ensures Sum(Sort(s)[1..|s| - 1]) == Sum(s) - Min(s) - Max(s)
  {
    SortedPermutationWithoutEnds(s, Sort(s));
  }

  lemma {:induction false} MeanWithoutEnds(s: seq<real>)
    requires |s| >= 3
    ensures Mean(Sort(s)[1..|s| - 1]) == (Sum(s) - Min(s) - Max(s)) / ((|s| - 2) as real)
  {
    SortedPermutationMeanWithoutEnds(s, Sort(s));
  }

  lemma {:induction false} SortedPermutationMeanWithoutEnds(s: seq<real>, r: seq<real>)
    requires |s| >= 3 && Sorted(r) && multiset(r) == multiset(s)
    ensures |r| == |s|
    ensures Mean(r[1..|s| - 1]) == (Sum(s) - Min(s) - Max(s)) / ((|s| - 2) as real)
  {
    SortedPermutationWithoutEnds(s, r);
    assert |r[1..|s| - 1]| == |s| - 2;
  }

  lemma {:induction false} SumOfThree(s: seq<real>)
    requires |s| == 3
    ensures Sum(s) == s[0] + s[1] + s[2]
  {
    assert s[2..][1..] == [];
    assert Sum(s[2..]) == s[2];
    assert s[1..][1..] == s[2..];
    assert Sum(s[1..]) == s[1] + s[2];
  }

  lemma {:induction false} SumConcat(a: seq<real>, b: seq<real>)
    ensures Sum(a + b) == Sum(a) + Sum(b)
  {
    if |a| == 0 {
      assert a + b == b;
    } else {
      assert (a + b)[1..] == a[1..] + b;
      SumConcat(a[1..], b);
    }
  }

  /** Permuting the values does not change their sum. */
  lemma {:induction false} SumPermutationInvariant(a: seq<real>, b: seq<real>)
    requires multiset(a) == multiset(b)
    ensures Sum(a) == Sum(b)
  {
    if |a| == 0 {
      assert |b| == |multiset(b)| == 0;
    } else {
      assert a[0] in multiset(b);
      var i :| 0 <= i < |b| && b[i] == a[0];
      TailMultiset(a);
      RemoveAt(b, i);
      SumPermutationInvariant(a[1..], b[..i] + b[i + 1..]);
    }
  }

  /** Taking out the element at index i. */
  lemma {:induction false} RemoveAt(b: seq<real>, i: nat)
    requires i < |b|
    ensures multiset(b[..i] + b[i + 1..]) == multiset(b) - multiset{b[i]}
    ensures Sum(b) == b[i] + Sum(b[..i] + b[i + 1..])
  {
    assert b == b[..i] + [b[i]] + b[i + 1..];
    assert multiset(b) == multiset(b[..i]) + multiset{b[i]} + multiset(b[i + 1..]);
    SumConcat(b[..i] + [b[i]], b[i + 1..]);
    SumConcat(b[..i], [b[i]]);
    SumConcat(b[..i], b[i + 1..]);
  }

  lemma {:induction false} SumBounds(s: seq<real>, lo: real, hi: real)
    requires forall i :: 0 <= i < |s| ==> lo <= s[i] <= hi
    ensures (|s| as real) * lo <= Sum(s) <= (|s| as real) * hi
  {
    if |s| > 0 {
      SumBounds(s[1..], lo, hi);
      var k := (|s| - 1) as real;
      assert |s| as real == k + 1.0;
      assert (k + 1.0) * lo == k * lo + lo;
      assert (k + 1.0) * hi == k * hi + hi;
    }
  }

  lemma {:induction false} ScaleCancel(a: real, b: real, n: real)
    requires n > 0.0 && a * n <= b * n
    ensures a <= b
  {
  }

  /** A mean lies within any bounds that hold of every value. */
  lemma {:induction false} MeanBounds(s: seq<real>, lo: real, hi: real)
    requires |s| > 0
    requires forall i :: 0 <= i < |s| ==> lo <= s[i] <= hi
    ensures lo <= Mean(s) <= hi
  {
    SumBounds(s, lo, hi);
    var n := |s| as real;
    var m := Mean(s);
    assert m * n == Sum(s);
    ScaleCancel(lo, m, n);
    ScaleCancel(m, hi, n);
  }

  /** A mean lies between the least and the greatest value. */
  lemma {:induction false} MeanBetweenMinMax(s: seq<real>)
    requires |s| > 0
    ensures Min(s) <= Mean(s) <= Max(s)
  {
    assert forall i :: 0 <= i < |s| ==> s[i] in s;
    MeanBounds(s, Min(s), Max(s));
  }
}
