/**
  Operations on lists of prices (integer thousandths of a penny per kWh):
  the ascending sort the analysis applies to each eligible list, the minimum
  of a list, and counts of prices at or below a level, which give the
  order-statistic reading of a threshold.
 */
module PriceLists {

  predicate Sorted(s: seq<int>) {
    forall i, j :: 0 <= i < j < |s| ==> s[i] <= s[j]
  }

  /** Inserts x into a sorted list, keeping it sorted. */
  function Insert(s: seq<int>, x: int): (r: seq<int>)
    requires Sorted(s)
    ensures |r| == |s| + 1
    ensures r[0] == if |s| > 0 && s[0] < x then s[0] else x
    ensures Sorted(r)
    ensures multiset(r) == multiset(s) + multiset{x}
  {
    if |s| == 0 || x <= s[0] then [x] + s
    else
      assert s == [s[0]] + s[1..];
      [s[0]] + Insert(s[1..], x)
  }

  /** Ascending sort of a price list (list.sort() in the source). */
  function Sort(s: seq<int>): (r: seq<int>)
    ensures |r| == |s|
    ensures Sorted(r)
    ensures multiset(r) == multiset(s)
  {
    if |s| == 0 then []
    else
      assert s == s[..|s| - 1] + [s[|s| - 1]];
      Insert(Sort(s[..|s| - 1]), s[|s| - 1])
  }

  /**
    A sorted permutation is unique, so any correct sort (Python's included)
    gives the same list as Sort.
   */
  lemma {:induction false} SortedUnique(a: seq<int>, b: seq<int>)
    requires Sorted(a) && Sorted(b)
    requires multiset(a) == multiset(b)
    ensures a == b
  {
    assert |a| == |multiset(a)| == |multiset(b)| == |b|;
    if |a| > 0 {
      SameHeadSameTail(a, b);
      SortedUnique(a[1..], b[1..]);
      assert a == [a[0]] + a[1..] && b == [b[0]] + b[1..];
    }
  }

  /** Two non-empty sorted permutations start alike and continue with sorted permutations. */
  lemma SameHeadSameTail(a: seq<int>, b: seq<int>)
    requires Sorted(a) && Sorted(b) && |a| > 0
    requires multiset(a) == multiset(b)
    ensures |b| > 0 && a[0] == b[0]
    ensures Sorted(a[1..]) && Sorted(b[1..]) && multiset(a[1..]) == multiset(b[1..])
  {
    HeadIsLeast(b, a[0]);
    HeadIsLeast(a, b[0]);
    assert a[0] == b[0];
    Tail(a);
    Tail(b);
  }

  /** The first entry of a sorted list is at most every price in it. */
  lemma HeadIsLeast(s: seq<int>, x: int)
    requires Sorted(s) && x in multiset(s)
    ensures |s| > 0 && s[0] <= x
  {
    var j :| 0 <= j < |s| && s[j] == x;
  }

  /** The tail of a sorted list is sorted and holds all prices but the first. */
  lemma Tail(s: seq<int>)
    requires Sorted(s) && |s| > 0
    ensures Sorted(s[1..])
    ensures multiset(s[1..]) == multiset(s) - multiset{s[0]}
  {
    assert s == [s[0]] + s[1..];
  }

  /** The number of prices in s at or below v. */
  function CountAtMost(s: seq<int>, v: int): (n: nat)
    ensures n <= |s|
  {
    if |s| == 0 then 0 else (if s[0] <= v then 1 else 0) + CountAtMost(s[1..], v)
  }

  /** The number of prices in s strictly below v. */
  function CountBelow(s: seq<int>, v: int): (n: nat)
    ensures n <= |s|
  {
    if |s| == 0 then 0 else (if s[0] < v then 1 else 0) + CountBelow(s[1..], v)
  }

  lemma {:induction false} CountConcat(a: seq<int>, b: seq<int>, v: int)
    ensures CountAtMost(a + b, v) == CountAtMost(a, v) + CountAtMost(b, v)
    ensures CountBelow(a + b, v) == CountBelow(a, v) + CountBelow(b, v)
  {
    if |a| > 0 {
      assert (a + b)[1..] == a[1..] + b;
      CountConcat(a[1..], b, v);
    } else {
      assert a + b == b;
    }
  }

  /** Removing the entry at index i removes one occurrence of it. */
  lemma RemoveAt(b: seq<int>, i: nat)
    requires i < |b|
    ensures multiset(b[..i] + b[i + 1..]) == multiset(b) - multiset{b[i]}
  {
    assert b == b[..i] + [b[i]] + b[i + 1..];
  }

  /** Removing the entry at index i lowers each count by whether that entry is counted. */
  lemma CountRemoveAt(b: seq<int>, i: nat, v: int)
    requires i < |b|
    ensures CountAtMost(b, v) == CountAtMost(b[..i] + b[i + 1..], v) + (if b[i] <= v then 1 else 0)
    ensures CountBelow(b, v) == CountBelow(b[..i] + b[i + 1..], v) + (if b[i] < v then 1 else 0)
  {
    assert b == b[..i] + [b[i]] + b[i + 1..];
    CountConcat(b[..i] + [b[i]], b[i + 1..], v);
    CountConcat(b[..i], [b[i]], v);
    CountConcat(b[..i], b[i + 1..], v);
  }

  /** The counts depend only on the multiset of prices, not on their order. */
  lemma {:induction false} CountPermutation(a: seq<int>, b: seq<int>, v: int)
    requires multiset(a) == multiset(b)
    ensures CountAtMost(a, v) == CountAtMost(b, v)
    ensures CountBelow(a, v) == CountBelow(b, v)
  {
    if |a| == 0 {
      assert |b| == |multiset(b)| == 0;
    } else {
      var i := MatchHead(a, b);
      CountPermutation(a[1..], b[..i] + b[i + 1..], v);
      CountRemoveAt(b, i, v);
      assert CountAtMost(a, v) == (if a[0] <= v then 1 else 0) + CountAtMost(a[1..], v);
      assert CountBelow(a, v) == (if a[0] < v then 1 else 0) + CountBelow(a[1..], v);
    }
  }

  /**
    For two permutations, finds in the second an occurrence of the first's
    head whose removal leaves a permutation of the first's tail.
   */
  lemma MatchHead(a: seq<int>, b: seq<int>) returns (i: nat)
    requires multiset(a) == multiset(b) && |a| > 0
    ensures i < |b| && b[i] == a[0]
    ensures multiset(a[1..]) == multiset(b[..i] + b[i + 1..])
  {
    assert a[0] in multiset(b);
    i :| 0 <= i < |b| && b[i] == a[0];
    RemoveAt(b, i);
    RemoveAt(a, 0);
    assert a[..0] + a[1..] == a[1..];
  }

  /** In a list whose prices are all at least v, none is below v. */
  lemma {:induction false} NoneBelow(s: seq<int>, v: int)
    requires forall i :: 0 <= i < |s| ==> v <= s[i]
    ensures CountBelow(s, v) == 0
  {
    if |s| > 0 {
      NoneBelow(s[1..], v);
    }
  }

  /**
    In a sorted list the (k+1)-th entry is the (k+1)-th cheapest price: at
    most k prices lie strictly below it and at least k + 1 at or below it.
   */
  lemma {:induction false} SortedOrderStatistic(s: seq<int>, k: nat)
    requires Sorted(s) && k < |s|
    ensures CountBelow(s, s[k]) <= k
    ensures CountAtMost(s, s[k]) >= k + 1
  {
    if k == 0 {
      NoneBelow(s, s[0]);
    } else {
      assert s[1..][k - 1] == s[k];
      SortedOrderStatistic(s[1..], k - 1);
    }
  }

  /** Raising the level never lowers the count of prices at or below it. */
  /**
    In an ascending list, exactly k prices are at or below the entry at index
    k - 1 exactly when that entry is the last one or the next entry is larger.
   */
  lemma ExactCountAtEntry(s: seq<int>, k: nat)
    requires Sorted(s) && 0 < k <= |s|
    ensures CountAtMost(s, s[k - 1]) == k <==> k == |s| || s[k] != s[k - 1]
  {
    CountSplit(s, k, s[k - 1]);
    if k < |s| && s[k] == s[k - 1] {
      assert CountAtMost(s[k..], s[k - 1]) >= 1 by {
        assert s[k..][0] == s[k];
      }
    }
  }

  /**
    Counting in an ascending list split at index k: every price of the first
    k is at or below s[k - 1], and the rest are counted only when they are
    at or below v; beyond the first entry above v nothing more counts.
   */
  lemma {:induction false} CountSplit(s: seq<int>, k: nat, v: int)
    requires Sorted(s) && 0 < k <= |s| && s[k - 1] <= v
    ensures CountAtMost(s, v) == k + CountAtMost(s[k..], v)
    ensures k < |s| && s[k] > v ==> CountAtMost(s[k..], v) == 0
  {
    assert s == s[..k] + s[k..];
    CountConcat(s[..k], s[k..], v);
    AllAtMost(s[..k], v);
    if k < |s| && s[k] > v {
      NoneAtMost(s[k..], v);
    }
  }

  lemma {:induction false} AllAtMost(s: seq<int>, v: int)
    requires forall i :: 0 <= i < |s| ==> s[i] <= v
    ensures CountAtMost(s, v) == |s|
  {
    if |s| > 0 {
      AllAtMost(s[1..], v);
    }
  }

  lemma {:induction false} NoneAtMost(s: seq<int>, v: int)
    requires forall i :: 0 <= i < |s| ==> s[i] > v
    ensures CountAtMost(s, v) == 0
  {
    if |s| > 0 {
      NoneAtMost(s[1..], v);
    }
  }

  lemma {:induction false} CountAtMostMonotonic(s: seq<int>, v: int, u: int)
    requires v <= u
    ensures CountAtMost(s, v) <= CountAtMost(s, u)
  {
    if |s| > 0 {
      CountAtMostMonotonic(s[1..], v, u);
    }
  }

  /** The cheapest price of a non-empty list (min() in the source). */
  function MinOf(s: seq<int>): (m: int)
    requires |s| > 0
    ensures m in s
    ensures forall i :: 0 <= i < |s| ==> m <= s[i]
  {
    if |s| == 1 then s[0]
    else
      var m := MinOf(s[1..]);
      assert forall i :: 1 <= i < |s| ==> s[1..][i - 1] == s[i];
      if s[0] <= m then s[0] else m
  }
}
