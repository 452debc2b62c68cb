/**
 * Ordering rows by their date, shared by the scraper (ascending), the CSV
 * store and the repositories (either direction).  `Sort` is a stable
 * insertion sort; it stands for pandas' `sort_values("date")` and SQL's
 * `ORDER BY date`, which agree with it whenever the dates are distinct.
 */
module Sorting {
  import opened Dates

  /** `a` may precede `b` in the requested direction. */
  predicate InOrder(a: Date, b: Date, descending: bool) {
    if descending then Le(b, a) else Le(a, b)
  }

  predicate Sorted<T>(s: seq<T>, key: T -> Date, descending: bool) {
    forall i, j :: 0 <= i < j < |s| ==> InOrder(key(s[i]), key(s[j]), descending)
  }

  /** Strictly ordered: sorted and no date twice. */
  predicate StrictlySorted<T>(s: seq<T>, key: T -> Date, descending: bool) {
    forall i, j :: 0 <= i < j < |s| ==>
      if descending then Lt(key(s[j]), key(s[i])) else Lt(key(s[i]), key(s[j]))
  }

  /** No two elements share a date. */
  predicate UniqueKeys<T>(s: seq<T>, key: T -> Date) {
    forall i, j :: 0 <= i < j < |s| ==> key(s[i]) != key(s[j])
  }

  lemma InOrderTotal(a: Date, b: Date, descending: bool)
    ensures InOrder(a, b, descending) || InOrder(b, a, descending)
  {
    LtTotal(a, b);
  }

  lemma InOrderTrans(a: Date, b: Date, c: Date, descending: bool)
    requires InOrder(a, b, descending) && InOrder(b, c, descending)
    ensures InOrder(a, c, descending)
  {
  }

  /** Sorted with distinct dates is the same as strictly sorted. */
  lemma StrictlySortedIff<T>(s: seq<T>, key: T -> Date, descending: bool)
    ensures StrictlySorted(s, key, descending) <==> Sorted(s, key, descending) && UniqueKeys(s, key)
  {
    if StrictlySorted(s, key, descending) {
      forall i, j | 0 <= i < j < |s| ensures key(s[i]) != key(s[j]) {
        var a, b := key(s[i]), key(s[j]);
        assert a != b by { if descending { assert Lt(b, a); } else { assert Lt(a, b); } }
      }
    }
  }

  /** Inserts `x` before the first element it may precede. */
  function Insert<T>(x: T, s: seq<T>, key: T -> Date, descending: bool): seq<T>
    decreases |s|
  {
    if s == [] || InOrder(key(x), key(s[0]), descending) then [x] + s
    else [s[0]] + Insert(x, s[1..], key, descending)
  }

  /** Stable insertion sort by date. */
  function Sort<T>(s: seq<T>, key: T -> Date, descending: bool): seq<T>
    decreases |s|
  {
    if s == [] then [] else Insert(s[0], Sort(s[1..], key, descending), key, descending)
  }

  lemma {:induction false} InsertMultiset<T>(x: T, s: seq<T>, key: T -> Date, descending: bool)
    ensures multiset(Insert(x, s, key, descending)) == multiset(s) + multiset{x}
    decreases |s|
  {
    if s != [] && !InOrder(key(x), key(s[0]), descending) {
      InsertMultiset(x, s[1..], key, descending);
      assert s == [s[0]] + s[1..];
    }
  }

  /** Insertion adds `x` and keeps every element of `s`. */
  lemma {:induction false} InsertElements<T>(x: T, s: seq<T>, key: T -> Date, descending: bool)
    ensures |Insert(x, s, key, descending)| == |s| + 1
    ensures x in Insert(x, s, key, descending)
    ensures forall y :: y in s ==> y in Insert(x, s, key, descending)
    decreases |s|
  {
    if s != [] && !InOrder(key(x), key(s[0]), descending) {
      InsertElements(x, s[1..], key, descending);
      forall y | y in s ensures y in Insert(x, s, key, descending) {
        if y != s[0] { assert y in s[1..]; }
      }
    }
  }

  /** Putting an element of a new key in front keeps the keys distinct. */
  lemma {:induction false} ConsUnique<T>(x: T, s: seq<T>, key: T -> Date)
    requires UniqueKeys(s, key) && forall i :: 0 <= i < |s| ==> key(s[i]) != key(x)
    ensures UniqueKeys([x] + s, key)
  {
    var c := [x] + s;
    forall i, j | 0 <= i < j < |c| ensures key(c[i]) != key(c[j]) {
      assert c[j] == s[j - 1];
      if i > 0 { assert c[i] == s[i - 1]; }
    }
  }

  /** Every element of `s` after its head may follow the head. */
  lemma HeadFirst<T>(s: seq<T>, y: T, key: T -> Date, descending: bool)
    requires Sorted(s, key, descending) && s != [] && y in s[1..]
    ensures InOrder(key(s[0]), key(y), descending)
  {
    var m :| 0 <= m < |s[1..]| && s[1..][m] == y;
    assert s[m + 1] == y;
  }

  lemma {:induction false} InsertSorted<T>(x: T, s: seq<T>, key: T -> Date, descending: bool)
    requires Sorted(s, key, descending)
    ensures Sorted(Insert(x, s, key, descending), key, descending)
    decreases |s|
  {
    if s == [] || InOrder(key(x), key(s[0]), descending) {
      forall k | 0 <= k < |s| ensures InOrder(key(x), key(s[k]), descending) {
        if k > 0 { InOrderTrans(key(x), key(s[0]), key(s[k]), descending); }
      }
      ConsSorted(x, s, key, descending);
    } else {
      var t := Insert(x, s[1..], key, descending);
      InsertSorted(x, s[1..], key, descending);
      InsertMultiset(x, s[1..], key, descending);
      InOrderTotal(key(x), key(s[0]), descending);
      forall k | 0 <= k < |t| ensures InOrder(key(s[0]), key(t[k]), descending) {
        assert t[k] in multiset(t);
        if t[k] != x {
          assert t[k] in multiset(s[1..]);
          HeadFirst(s, t[k], key, descending);
        }
      }
      ConsSorted(s[0], t, key, descending);
    }
  }

  /** An element that may precede every element of a sorted sequence may go in front of it. */
  lemma {:induction false} ConsSorted<T>(x: T, t: seq<T>, key: T -> Date, descending: bool)
    requires Sorted(t, key, descending)
    requires forall k :: 0 <= k < |t| ==> InOrder(key(x), key(t[k]), descending)
    ensures Sorted([x] + t, key, descending)
  {
    var r := [x] + t;
    forall i, j | 0 <= i < j < |r| ensures InOrder(key(r[i]), key(r[j]), descending) {
      assert r[j] == t[j - 1];
      if i > 0 { assert r[i] == t[i - 1]; }
    }
  }

  lemma {:induction false} SortSpec<T>(s: seq<T>, key: T -> Date, descending: bool)
    ensures Sorted(Sort(s, key, descending), key, descending)
    ensures multiset(Sort(s, key, descending)) == multiset(s)
    ensures |Sort(s, key, descending)| == |s|
    decreases |s|
  {
    if s != [] {
      SortSpec(s[1..], key, descending);
      InsertSorted(s[0], Sort(s[1..], key, descending), key, descending);
      InsertMultiset(s[0], Sort(s[1..], key, descending), key, descending);
      assert s == [s[0]] + s[1..];
      assert |multiset(Sort(s, key, descending))| == |multiset(s)|;
    }
  }

  /** Sorting an already sorted sequence changes nothing. */
  lemma {:induction false} SortSorted<T>(s: seq<T>, key: T -> Date, descending: bool)
    requires Sorted(s, key, descending)
    ensures Sort(s, key, descending) == s
    decreases |s|
  {
    if s != [] {
      assert Sorted(s[1..], key, descending);
      SortSorted(s[1..], key, descending);
      if |s| > 1 {
        assert InOrder(key(s[0]), key(s[1]), descending);
        assert s[1..] == [s[1]] + s[2..];
      }
    }
  }

  // ---------------------------------------------------------------- filtering

  /** The elements satisfying `p`, in their original order. */
  function Filter<T>(s: seq<T>, p: T -> bool): (r: seq<T>)
    ensures |r| <= |s|
    ensures forall i :: 0 <= i < |r| ==> r[i] in s && p(r[i])
    ensures forall i :: 0 <= i < |s| && p(s[i]) ==> s[i] in r
    decreases |s|
  {
    if s == [] then []
    else (if p(s[0]) then [s[0]] else []) + Filter(s[1..], p)
  }

  lemma {:induction false} FilterMultiset<T>(s: seq<T>, p: T -> bool)
    ensures forall x :: multiset(Filter(s, p))[x] == (if p(x) then multiset(s)[x] else 0)
    decreases |s|
  {
    if s != [] {
      FilterMultiset(s[1..], p);
      assert s == [s[0]] + s[1..];
    }
  }

  lemma {:induction false} FilterSorted<T>(s: seq<T>, p: T -> bool, key: T -> Date, descending: bool)
    requires Sorted(s, key, descending)
    ensures Sorted(Filter(s, p), key, descending)
    decreases |s|
  {
    if s != [] {
      var t := Filter(s[1..], p);
      FilterSorted(s[1..], p, key, descending);
      if p(s[0]) {
        var r := Filter(s, p);
        assert r == [s[0]] + t;
        forall k | 0 <= k < |t| ensures InOrder(key(s[0]), key(t[k]), descending) {
          assert t[k] in t;
          var m :| 0 <= m < |s[1..]| && s[1..][m] == t[k];
          assert s[m + 1] == t[k];
        }
      }
    }
  }

  /** Keeping every element, or none, of a sorted sequence keeps it unique if it was. */
  lemma {:induction false} FilterUnique<T>(s: seq<T>, p: T -> bool, key: T -> Date)
    requires UniqueKeys(s, key)
    ensures UniqueKeys(Filter(s, p), key)
    decreases |s|
  {
    if s != [] {
      var t := Filter(s[1..], p);
      FilterUnique(s[1..], p, key);
      if p(s[0]) {
        var r := Filter(s, p);
        assert r == [s[0]] + t;
        forall k | 0 <= k < |t| ensures key(s[0]) != key(t[k]) {
          assert t[k] in t;
          var m :| 0 <= m < |s[1..]| && s[1..][m] == t[k];
          assert s[m + 1] == t[k];
        }
      }
    }
  }

  /** Two complementary filters share out the elements between them. */
  lemma {:induction false} FilterSplit<T>(s: seq<T>, p: T -> bool, q: T -> bool)
    requires forall x :: q(x) == !p(x)
    ensures |Filter(s, p)| + |Filter(s, q)| == |s|
    decreases |s|
  {
    if s != [] {
      FilterSplit(s[1..], p, q);
    }
  }

  // ------------------------------------------------------------ uniqueness

  /** In a sequence with distinct dates no element occurs twice. */
  lemma {:induction false} UniqueCount<T>(s: seq<T>, key: T -> Date, v: T)
    requires UniqueKeys(s, key)
    ensures multiset(s)[v] <= 1
    decreases |s|
  {
    if s != [] {
      assert s == [s[0]] + s[1..];
      assert UniqueKeys(s[1..], key) by {
        forall i, j | 0 <= i < j < |s[1..]| ensures key(s[1..][i]) != key(s[1..][j]) {
          assert s[1..][i] == s[i + 1] && s[1..][j] == s[j + 1];
        }
      }
      UniqueCount(s[1..], key, v);
    }
  }

  /** An element at two positions occurs twice. */
  lemma {:induction false} CountTwo<T>(s: seq<T>, i: nat, j: nat)
    requires i < j < |s| && s[i] == s[j]
    ensures multiset(s)[s[i]] >= 2
  {
    assert s == s[..j] + s[j..];
    assert s[..j][i] == s[i];
    assert s[j..][0] == s[j];
    assert multiset(s) == multiset(s[..j]) + multiset(s[j..]);
  }

  /** Reordering keeps dates distinct. */
  lemma {:induction false} PermUnique<T>(a: seq<T>, b: seq<T>, key: T -> Date)
    requires multiset(a) == multiset(b) && UniqueKeys(a, key)
    ensures UniqueKeys(b, key)
  {
    forall i, j | 0 <= i < j < |b| ensures key(b[i]) != key(b[j]) {
      if key(b[i]) == key(b[j]) {
        assert b[i] in multiset(a) && b[j] in multiset(a);
        var p :| 0 <= p < |a| && a[p] == b[i];
        var q :| 0 <= q < |a| && a[q] == b[j];
        if p == q {
          CountTwo(b, i, j);
          UniqueCount(a, key, b[i]);
        }
      }
    }
  }

  /** Sorting a sequence with distinct dates orders it strictly. */
  lemma {:induction false} SortStrict<T>(s: seq<T>, key: T -> Date, descending: bool)
    requires UniqueKeys(s, key)
    ensures StrictlySorted(Sort(s, key, descending), key, descending)
  {
    SortSpec(s, key, descending);
    PermUnique(s, Sort(s, key, descending), key);
    StrictlySortedIff(Sort(s, key, descending), key, descending);
  }
}
