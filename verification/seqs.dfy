/** Order-preserving selection from a sequence, the shape of JavaScript's `Array.prototype.filter`
    and of an SQL `WHERE` / `DELETE ... WHERE` over the rows of a table. */
module Seqs {

  /** `a` can be obtained from `b` by deleting elements, keeping the order of the rest. */
  ghost predicate IsSubsequence<T>(a: seq<T>, b: seq<T>)
    decreases |b|
  {
    |a| == 0 || (|b| > 0 && (if a[0] == b[0] then IsSubsequence(a[1..], b[1..]) else IsSubsequence(a, b[1..])))
  }

  /** The elements of `s` satisfying `keep`, in their original order and with their multiplicities. */
  function Filter<T(!new)>(s: seq<T>, keep: T -> bool): (r: seq<T>)
    ensures |r| <= |s|
    ensures forall x :: x in r <==> x in s && keep(x)
  {
    if |s| == 0 then []
    else
      var rest := Filter(s[1..], keep);
      assert s == [s[0]] + s[1..];
      if keep(s[0]) then [s[0]] + rest else rest
  }

  /** The filter keeps every kept element as often as it occurs, drops the rest, and keeps the order. */
  lemma {:induction false} FilterMultiset<T(!new)>(s: seq<T>, keep: T -> bool)
    ensures forall x :: multiset(Filter(s, keep))[x] == if keep(x) then multiset(s)[x] else 0
    ensures IsSubsequence(Filter(s, keep), s)
  {
    if |s| > 0 {
      FilterMultiset(s[1..], keep);
      assert s == [s[0]] + s[1..];
      var rest := Filter(s[1..], keep);
      if keep(s[0]) {
        assert Filter(s, keep) == [s[0]] + rest;
        assert ([s[0]] + rest)[1..] == rest;
      } else {
        assert Filter(s, keep) == rest;
        SubsequenceOfTail(rest, s);
      }
    }
  }

  /** A subsequence of the tail is a subsequence of the whole. */
  lemma {:induction false} SubsequenceOfTail<T>(a: seq<T>, s: seq<T>)
    requires |s| > 0 && IsSubsequence(a, s[1..])
    ensures IsSubsequence(a, s)
    decreases |s|, 0
  {
    if |a| > 0 && a[0] == s[0] {
      SubsequenceDropHead(a, s[1..]);
    }
  }

  /** Dropping the first element of a subsequence leaves a subsequence. */
  lemma {:induction false} SubsequenceDropHead<T>(a: seq<T>, s: seq<T>)
    requires |a| > 0 && IsSubsequence(a, s)
    ensures IsSubsequence(a[1..], s)
    decreases |s|, 1
  {
    if a[0] != s[0] {
      SubsequenceDropHead(a, s[1..]);
    }
    if |a| > 1 {
      SubsequenceOfTail(a[1..], s);
    }
  }

  /** Every element either passes a test or its complement: the two filters split the sequence. */
  lemma {:induction false} FilterSplitsLength<T(!new)>(s: seq<T>, keep: T -> bool, drop: T -> bool)
    requires forall x :: drop(x) == !keep(x)
    ensures |Filter(s, keep)| + |Filter(s, drop)| == |s|
  {
    if |s| > 0 {
      FilterSplitsLength(s[1..], keep, drop);
    }
  }

  /** Two tests that agree on every element select the same elements. */
  lemma {:induction false} FilterCongruent<T(!new)>(s: seq<T>, keep: T -> bool, keep': T -> bool)
    requires forall i :: 0 <= i < |s| ==> keep(s[i]) == keep'(s[i])
    ensures Filter(s, keep) == Filter(s, keep')
  {
    if |s| > 0 {
      assert forall i :: 0 <= i < |s[1..]| ==> s[1..][i] == s[i + 1];
      FilterCongruent(s[1..], keep, keep');
    }
  }

  /** A filter that drops nothing returns its input unchanged. */
  lemma {:induction false} FilterKeepsAll<T(!new)>(s: seq<T>, keep: T -> bool)
    requires forall i :: 0 <= i < |s| ==> keep(s[i])
    ensures Filter(s, keep) == s
  {
    if |s| > 0 {
      FilterKeepsAll(s[1..], keep);
    }
  }

  /** A filter that keeps nothing returns the empty sequence. */
  lemma {:induction false} FilterKeepsNone<T(!new)>(s: seq<T>, keep: T -> bool)
    requires forall i :: 0 <= i < |s| ==> !keep(s[i])
    ensures Filter(s, keep) == []
  {
    if |s| > 0 {
      FilterKeepsNone(s[1..], keep);
    }
  }

  /** A filter that drops something returns a strictly shorter sequence. */
  lemma {:induction false} FilterDropsSome<T(!new)>(s: seq<T>, keep: T -> bool, j: nat)
    requires j < |s| && !keep(s[j])
    ensures |Filter(s, keep)| < |s|
  {
    if j > 0 {
      FilterDropsSome(s[1..], keep, j - 1);
    }
  }

  /** Filters on the same test give the same result on the concatenation as on the parts. */
  lemma {:induction false} FilterAppend<T(!new)>(a: seq<T>, b: seq<T>, keep: T -> bool)
    ensures Filter(a + b, keep) == Filter(a, keep) + Filter(b, keep)
  {
    if |a| == 0 {
      assert a + b == b;
    } else {
      var ab := a + b;
      assert ab[0] == a[0] && ab[1..] == a[1..] + b;
      FilterAppend(a[1..], b, keep);
      var tail := Filter(a[1..], keep) + Filter(b, keep);
      assert Filter(ab, keep) == if keep(a[0]) then [a[0]] + tail else tail;
    }
  }

  /** A relation that holds between every earlier and later element still holds after filtering. */
  lemma {:induction false} FilterPreservesPairwise<T(!new)>(s: seq<T>, keep: T -> bool, p: (T, T) -> bool)
    requires forall i, j :: 0 <= i < j < |s| ==> p(s[i], s[j])
    ensures forall i, j :: 0 <= i < j < |Filter(s, keep)| ==> p(Filter(s, keep)[i], Filter(s, keep)[j])
  {
    if |s| > 0 {
      var rest := Filter(s[1..], keep);
      FilterPreservesPairwise(s[1..], keep, p);
      if keep(s[0]) {
        var r := [s[0]] + rest;
        assert Filter(s, keep) == r;
        forall i, j | 0 <= i < j < |r|
          ensures p(r[i], r[j])
        {
          if i == 0 {
            assert r[j] == rest[j - 1] && rest[j - 1] in rest;
            var k :| 0 <= k < |s[1..]| && s[1..][k] == rest[j - 1];
            assert s[k + 1] == r[j];
          } else {
            assert r[i] == rest[i - 1] && r[j] == rest[j - 1];
          }
        }
      }
    }
  }

  /** Pigeonhole: pairwise different numbers drawn from `0..m-1` number at most `m`. */
  lemma {:induction false} DistinctBelow(s: seq<int>, m: nat)
    requires forall i :: 0 <= i < |s| ==> 0 <= s[i] < m
    requires forall i, j :: 0 <= i < j < |s| ==> s[i] != s[j]
    ensures |s| <= m
    decreases |s|
  {
    if |s| > 0 {
      // Drop the last number x and rename m - 1 to x among the others: they then lie below m - 1.
      var x := s[|s| - 1];
      var t := seq(|s| - 1, i requires 0 <= i < |s| - 1 => if s[i] == m - 1 then x else s[i]);
      forall i | 0 <= i < |t|
        ensures 0 <= t[i] < m - 1
      {
        assert s[i] != x;
      }
      forall i, j | 0 <= i < j < |t|
        ensures t[i] != t[j]
      {
        assert s[i] != x && s[j] != x && s[i] != s[j];
      }
      DistinctBelow(t, m - 1);
    }
  }
}
