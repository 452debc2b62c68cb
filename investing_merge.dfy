/**
 * `merge_and_dedup` of the Investing.com scraper (update_cds_investing.py):
 * the stored rows (`old`) followed by the fetched ones (`new`), one row
 * kept per date (the last occurrence), sorted ascending by date.
 */
module InvestingMerge {
  import opened Dates
  import opened Sorting
  import opened Observations

  /** Position `i` holds the last row of `s` with its date. */
  predicate IsLast(s: seq<Obs>, i: nat) {
    i < |s| && forall j :: i < j < |s| ==> s[j].date != s[i].date
  }

  /** `drop_duplicates(subset=["date"], keep="last")`: a row stays unless a later row has its date. */
  function KeepLast(s: seq<Obs>): seq<Obs>
    decreases |s|
  {
    if s == [] then []
    else if s[0].date in DateSet(s[1..]) then KeepLast(s[1..])
    else [s[0]] + KeepLast(s[1..])
  }

  /** `merge_and_dedup(stored, fetched)`. */
  function MergeAndDedup(stored: seq<Obs>, fetched: seq<Obs>): seq<Obs>
  {
    var merged := if stored == [] then fetched else stored + fetched;
    Sort(KeepLast(merged), DateOf, false)
  }

  /** A row survives `KeepLast` exactly when it is the last of its date. */
  lemma {:induction false} KeepLastSpec(s: seq<Obs>, o: Obs)
    ensures o in KeepLast(s) <==> exists i: nat :: IsLast(s, i) && s[i] == o
    decreases |s|
  {
    if s != [] {
      KeepLastSpec(s[1..], o);
      DateSetTail(s);
      var t := s[1..];
      assert forall i :: 0 < i < |s| ==> (IsLast(s, i) <==> IsLast(t, i - 1)) by {
        forall i | 0 < i < |s| ensures IsLast(s, i) <==> IsLast(t, i - 1) {
          if IsLast(t, i - 1) {
            forall j | i < j < |s| ensures s[j].date != s[i].date {
              assert s[j] == t[j - 1];
            }
          }
        }
      }
      assert IsLast(s, 0) <==> s[0].date !in DateSet(t) by {
        if s[0].date in DateSet(t) {
          var k :| 0 <= k < |t| && t[k].date == s[0].date;
          assert s[k + 1] == t[k];
        }
      }
      if exists i: nat :: IsLast(s, i) && s[i] == o {
        var i: nat :| IsLast(s, i) && s[i] == o;
        if i > 0 { assert IsLast(t, i - 1) && t[i - 1] == o; }
      }
      if exists i: nat :: IsLast(t, i) && t[i] == o {
        var i: nat :| IsLast(t, i) && t[i] == o;
        assert IsLast(s, i + 1) && s[i + 1] == o;
      }
    }
  }

  /** `KeepLast` keeps one row per date and loses no date. */
  lemma {:induction false} KeepLastDates(s: seq<Obs>)
    ensures UniqueKeys(KeepLast(s), DateOf)
    ensures DateSet(KeepLast(s)) == DateSet(s)
    decreases |s|
  {
    if s != [] {
      var t := s[1..];
      KeepLastDates(t);
      DateSetTail(s);
      if s[0].date !in DateSet(t) {
        var r := KeepLast(s);
        assert r == [s[0]] + KeepLast(t);
        assert r[1..] == KeepLast(t);
        DateSetTail(r);
        forall i, j | 0 <= i < j < |r| ensures DateOf(r[i]) != DateOf(r[j]) {
          if i == 0 {
            assert r[j] == KeepLast(t)[j - 1];
          } else {
            assert r[i] == KeepLast(t)[i - 1] && r[j] == KeepLast(t)[j - 1];
          }
        }
      }
    }
  }

  /** The merge covers exactly the dates of both inputs, each once, in ascending order. */
  lemma {:induction false} MergeDates(stored: seq<Obs>, fetched: seq<Obs>)
    ensures StrictlySorted(MergeAndDedup(stored, fetched), DateOf, false)
    ensures DateSet(MergeAndDedup(stored, fetched)) == DateSet(stored) + DateSet(fetched)
  {
    var merged := stored + fetched;
    assert stored == [] ==> merged == fetched;
    var k := KeepLast(merged);
    KeepLastDates(merged);
    SortStrict(k, DateOf, false);
    SortSpec(k, DateOf, false);
    DateSetPerm(k, Sort(k, DateOf, false));
    DateSetConcat(stored, fetched);
  }

  /** The row kept for a date is the last one with that date: fetched rows override stored ones, later fetched rows earlier ones. */
  lemma {:induction false} MergeLastWins(stored: seq<Obs>, fetched: seq<Obs>, o: Obs)
    ensures o in MergeAndDedup(stored, fetched) <==> exists i: nat :: IsLast(stored + fetched, i) && (stored + fetched)[i] == o
  {
    var merged := stored + fetched;
    assert stored == [] ==> merged == fetched;
    SortSpec(KeepLast(merged), DateOf, false);
    assert o in MergeAndDedup(stored, fetched) <==> o in multiset(KeepLast(merged));
    KeepLastSpec(merged, o);
  }

  /** A fetched row is kept when no later fetched row shares its date, whatever the stored rows hold. */
  lemma {:induction false} MergeNewWins(stored: seq<Obs>, fetched: seq<Obs>, i: nat)
    requires IsLast(fetched, i)
    ensures fetched[i] in MergeAndDedup(stored, fetched)
  {
    var merged := stored + fetched;
    assert merged[|stored| + i] == fetched[i];
    assert IsLast(merged, |stored| + i) by {
      forall j | |stored| + i < j < |merged| ensures merged[j].date != merged[|stored| + i].date {
        assert merged[j] == fetched[j - |stored|];
      }
    }
    MergeLastWins(stored, fetched, fetched[i]);
  }
}
