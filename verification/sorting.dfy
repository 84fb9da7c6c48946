/**
 * The two sorts of `Reporter.reformatAndSave` (CSV_report.py:117-118):
 * `self.Records.sort(key=attrgetter('country'))`, then
 * `self.Records.sort(key=attrgetter('date'))`. Python's `list.sort` is stable;
 * it is modelled by a stable insertion sort, `SortBy`.
 */
module Sorting {
  import opened Text
  import opened Dates
  import opened Records

  /** `attrgetter('country')` or `attrgetter('date')`. */
  datatype SortKey = ByCountry | ByDate

  /** The order `list.sort` compares keys by. */
  predicate KeyLe(k: SortKey, a: Row, b: Row)
    requires a.RecordCountry? && b.RecordCountry?
  {
    match k
    case ByCountry => StrLe(a.country, b.country)
    case ByDate => DateLe(a.date, b.date)
  }

  predicate SameKey(k: SortKey, a: Row, b: Row)
    requires a.RecordCountry? && b.RecordCountry?
  {
    match k
    case ByCountry => a.country == b.country
    case ByDate => a.date == b.date
  }

  lemma KeyLeTotal(k: SortKey, a: Row, b: Row)
    requires a.RecordCountry? && b.RecordCountry?
    ensures KeyLe(k, a, b) || KeyLe(k, b, a)
  {
    if k == ByCountry { StrLeTotal(a.country, b.country); }
  }

  lemma KeyLeTransitive(k: SortKey, a: Row, b: Row, c: Row)
    requires a.RecordCountry? && b.RecordCountry? && c.RecordCountry?
    requires KeyLe(k, a, b) && KeyLe(k, b, c)
    ensures KeyLe(k, a, c)
  {
    if k == ByCountry { StrLeTransitive(a.country, b.country, c.country); }
  }

  /** Two records compare equal exactly when their keys are equal. */
  lemma KeyLeBothWays(k: SortKey, a: Row, b: Row)
    requires a.RecordCountry? && b.RecordCountry?
    ensures KeyLe(k, a, b) && KeyLe(k, b, a) <==> SameKey(k, a, b)
  {
    if k == ByCountry {
      StrLeReflexive(a.country);
      if StrLe(a.country, b.country) && StrLe(b.country, a.country) {
        StrLeAntisymmetric(a.country, b.country);
      }
    } else if DateLe(a.date, b.date) && DateLe(b.date, a.date) {
      DateLeAntisymmetric(a.date, b.date);
    }
  }

  predicate Sorted(s: seq<Row>, k: SortKey)
    requires Resolved(s)
  {
    forall i, j :: 0 <= i < j < |s| ==> KeyLe(k, s[i], s[j])
  }

  /** Puts `x` before the first element whose key is not smaller than its own. */
  function InsertFirst(x: Row, t: seq<Row>, k: SortKey): (r: seq<Row>)
    requires x.RecordCountry? && Resolved(t)
    ensures multiset(r) == multiset(t) + multiset{x}
    ensures Resolved(r)
  {
    if t == [] || KeyLe(k, x, t[0]) then [x] + t
    else
      assert t == [t[0]] + t[1..];
      [t[0]] + InsertFirst(x, t[1..], k)
  }

  /** `list.sort(key=...)`: a stable sort by key `k`. */
  function SortBy(s: seq<Row>, k: SortKey): (r: seq<Row>)
    requires Resolved(s)
    ensures multiset(r) == multiset(s)
    ensures Resolved(r)
  {
    if s == [] then []
    else
      assert s == [s[0]] + s[1..];
      InsertFirst(s[0], SortBy(s[1..], k), k)
  }

  lemma {:induction false} InsertFirstSorted(x: Row, t: seq<Row>, k: SortKey)
    requires x.RecordCountry? && Resolved(t) && Sorted(t, k)
    ensures Sorted(InsertFirst(x, t, k), k)
  {
    var r := InsertFirst(x, t, k);
    if t == [] || KeyLe(k, x, t[0]) {
      forall j | 1 <= j < |r| ensures KeyLe(k, r[0], r[j]) {
        if j > 1 { KeyLeTransitive(k, x, t[0], t[j - 1]); }
      }
    } else {
      KeyLeTotal(k, x, t[0]);
      var rest := InsertFirst(x, t[1..], k);
      InsertFirstSorted(x, t[1..], k);
      forall j | 1 <= j < |r| ensures KeyLe(k, r[0], r[j]) {
        assert r[j] in multiset(rest);
        assert r[j] == x || r[j] in t[1..];
      }
    }
  }

  /** The result of `SortBy` is in ascending key order. */
  lemma {:induction false} SortBySorted(s: seq<Row>, k: SortKey)
    requires Resolved(s)
    ensures Sorted(SortBy(s, k), k)
  {
    if s != [] {
      SortBySorted(s[1..], k);
      InsertFirstSorted(s[0], SortBy(s[1..], k), k);
    }
  }

  /** The records of `s` whose key `k` equals that of `y`, in list order. */
  function Filter(s: seq<Row>, k: SortKey, y: Row): (f: seq<Row>)
    requires Resolved(s) && y.RecordCountry?
    ensures Resolved(f)
  {
    if s == [] then []
    else (if SameKey(k, s[0], y) then [s[0]] else []) + Filter(s[1..], k, y)
  }

  lemma FilterCons(a: Row, s: seq<Row>, k: SortKey, y: Row)
    requires a.RecordCountry? && y.RecordCountry? && Resolved(s)
    ensures Filter([a] + s, k, y) == (if SameKey(k, a, y) then [a] else []) + Filter(s, k, y)
  {
    assert ([a] + s)[1..] == s;
  }

  lemma {:induction false} InsertFirstStable(x: Row, t: seq<Row>, k: SortKey, y: Row)
    requires x.RecordCountry? && y.RecordCountry? && Resolved(t)
    ensures Filter(InsertFirst(x, t, k), k, y) == Filter([x] + t, k, y)
  {
    if t != [] && !KeyLe(k, x, t[0]) {
      var t0, rest := t[0], t[1..];
      var inserted := InsertFirst(x, rest, k);
      assert InsertFirst(x, t, k) == [t0] + inserted;
      assert t == [t0] + rest;
      InsertFirstStable(x, rest, k, y);
      FilterCons(t0, inserted, k, y);
      FilterCons(x, rest, k, y);
      FilterCons(x, t, k, y);
      FilterCons(t0, rest, k, y);
      if SameKey(k, x, y) {
        KeyLeBothWays(k, x, t0);
        KeyLeTotal(k, x, t0);
        assert !SameKey(k, t0, y);
        assert Filter(InsertFirst(x, t, k), k, y) == [x] + Filter(rest, k, y);
      } else {
        assert Filter([x] + t, k, y) == Filter(t, k, y);
      }
    }
  }

  /** Stability: among records with equal keys the sort keeps the input order. */
  lemma {:induction false} SortByStable(s: seq<Row>, k: SortKey, y: Row)
    requires Resolved(s) && y.RecordCountry?
    ensures Filter(SortBy(s, k), k, y) == Filter(s, k, y)
  {
    if s != [] {
      SortByStable(s[1..], k, y);
      InsertFirstStable(s[0], SortBy(s[1..], k), k, y);
      assert ([s[0]] + SortBy(s[1..], k))[1..] == SortBy(s[1..], k);
    }
  }

  /** The report's order: by date, then by country code. */
  predicate ReportLe(a: Row, b: Row)
    requires a.RecordCountry? && b.RecordCountry?
  {
    DateLe(a.date, b.date) && (a.date == b.date ==> StrLe(a.country, b.country))
  }

  predicate ReportSorted(s: seq<Row>)
    requires Resolved(s)
  {
    forall i, j :: 0 <= i < j < |s| ==> ReportLe(s[i], s[j])
  }

  /** The records of `s` with date `d` and country `c`, in list order. */
  function Group(s: seq<Row>, d: Date, c: string): (g: seq<Row>)
    requires Resolved(s)
    ensures Resolved(g)
  {
    if s == [] then []
    else (if s[0].date == d && s[0].country == c then [s[0]] else []) + Group(s[1..], d, c)
  }

  /** Inserting by date a record whose country is not above any other keeps the report order. */
  lemma {:induction false} InsertByDateReportSorted(x: Row, u: seq<Row>)
    requires x.RecordCountry? && Resolved(u) && ReportSorted(u)
    requires forall e <- u :: StrLe(x.country, e.country)
    ensures ReportSorted(InsertFirst(x, u, ByDate))
  {
    var r := InsertFirst(x, u, ByDate);
    if u == [] || DateLe(x.date, u[0].date) {
      forall j | 1 <= j < |r| ensures ReportLe(r[0], r[j]) {
        assert r[j] == u[j - 1] && r[j] in u;
        if j > 1 { DateLeTransitive(x.date, u[0].date, u[j - 1].date); }
        if x.date == u[j - 1].date && j > 1 {
          DateLeAntisymmetric(x.date, u[0].date);
        }
      }
    } else {
      DateLeTotal(x.date, u[0].date);
      var rest := InsertFirst(x, u[1..], ByDate);
      InsertByDateReportSorted(x, u[1..]);
      forall j | 1 <= j < |r| ensures ReportLe(r[0], r[j]) {
        assert r[j] in multiset(rest);
        assert r[j] == x || r[j] in u[1..];
        if r[j] == x {
          assert r[0].date != x.date;
        }
      }
    }
  }

  /** Sorting by date a list already sorted by country gives the report order. */
  lemma {:induction false} SortByDateReportSorted(t: seq<Row>)
    requires Resolved(t) && Sorted(t, ByCountry)
    ensures ReportSorted(SortBy(t, ByDate))
  {
    if t != [] {
      var u := SortBy(t[1..], ByDate);
      SortByDateReportSorted(t[1..]);
      forall e <- u ensures StrLe(t[0].country, e.country) {
        assert e in multiset(t[1..]);
        var j :| 0 <= j < |t[1..]| && t[1..][j] == e;
        assert t[j + 1] == e;
      }
      InsertByDateReportSorted(t[0], u);
    }
  }

  /** Keeping one date and then one country is keeping one (date, country) pair, in either order. */
  lemma {:induction false} GroupIsNestedFilter(s: seq<Row>, y: Row)
    requires Resolved(s) && y.RecordCountry?
    ensures Group(s, y.date, y.country) == Filter(Filter(s, ByDate, y), ByCountry, y)
    ensures Group(s, y.date, y.country) == Filter(Filter(s, ByCountry, y), ByDate, y)
  {
    if s != [] {
      GroupIsNestedFilter(s[1..], y);
      FilterAppend(if SameKey(ByDate, s[0], y) then [s[0]] else [], Filter(s[1..], ByDate, y), ByCountry, y);
      FilterAppend(if SameKey(ByCountry, s[0], y) then [s[0]] else [], Filter(s[1..], ByCountry, y), ByDate, y);
    }
  }

  lemma {:induction false} FilterAppend(a: seq<Row>, b: seq<Row>, k: SortKey, y: Row)
    requires Resolved(a) && Resolved(b) && y.RecordCountry?
    ensures Filter(a + b, k, y) == Filter(a, k, y) + Filter(b, k, y)
  {
    if a == [] {
      assert a + b == b;
    } else {
      var h := if SameKey(k, a[0], y) then [a[0]] else [];
      FilterAppend(a[1..], b, k, y);
      assert a == [a[0]] + a[1..];
      assert a + b == [a[0]] + (a[1..] + b);
      FilterCons(a[0], a[1..] + b, k, y);
      FilterCons(a[0], a[1..], k, y);
      AppendAssoc(h, Filter(a[1..], k, y), Filter(b, k, y));
    }
  }

  /** What the two sorts achieve together: a permutation of the input in
      report order, in which the records of each (date, country) pair keep
      their input order. */
  lemma SortForReport(s: seq<Row>)
    requires Resolved(s)
    ensures var r := SortBy(SortBy(s, ByCountry), ByDate);
      && multiset(r) == multiset(s)
      && ReportSorted(r)
      && forall d, c :: Group(r, d, c) == Group(s, d, c)
  {
    var byCountry := SortBy(s, ByCountry);
    var r := SortBy(byCountry, ByDate);
    SortBySorted(s, ByCountry);
    SortByDateReportSorted(byCountry);
    forall d, c ensures Group(r, d, c) == Group(s, d, c) {
      var y := RecordCountry(d, c, 0, 0.0);
      GroupIsNestedFilter(r, y);
      GroupIsNestedFilter(byCountry, y);
      GroupIsNestedFilter(s, y);
      SortByStable(byCountry, ByDate, y);
      SortByStable(s, ByCountry, y);
    }
  }
}
