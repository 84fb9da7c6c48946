/**
 * The fold of `Reporter.reformatAndSave` (CSV_report.py:119-131) over the
 * sorted records, as functions on values; the class method in reporter.dfy
 * runs the same loop and is proved equal to `Aggregate`.
 *
 * The fold starts from `lastDate, impresions, clicks, country = None, 0, 0, ""`.
 * A record closes the running group when `country` is non-empty and the
 * record's date or country differs from it; the last group is always emitted,
 * so an empty list gives the single row `(None, "", 0, 0)`. Clicks are
 * `round(clicks / 100)`, rounded once per group, half to even.
 */
module Aggregation {
  import opened Wrappers
  import opened Text
  import opened Numbers
  import opened Dates
  import opened Records
  import opened Sorting

  /** The loop variables `lastDate`, `impresions`, `clicks`, `country` and the rows emitted so far. */
  datatype FoldState = FoldState(lastDate: Option<Date>, impressions: int, clicks: real, country: string, output: seq<OutputRow>)

  const Start: FoldState := FoldState(None, 0, 0.0, "", [])

  /** `round(clicks / 100)`. */
  function Clicks(expected: real): int {
    RoundHalfEven(expected / 100.0)
  }

  /** The row emitted for the running group (lines 124 and 131). */
  function Flush(st: FoldState): OutputRow {
    OutputRow(st.lastDate, st.country, st.impressions, Clicks(st.clicks))
  }

  /** `record.impressions * record.CTR`, the clicks a record is expected to bring. */
  function Expected(r: Row): real {
    r.impressions as real * r.ctr
  }

  /** One iteration of the loop at lines 121-130. */
  function Step(st: FoldState, r: Row): FoldState
    requires r.RecordCountry?
  {
    var expected := Expected(r);
    if st.country != "" && (Some(r.date) != st.lastDate || r.country != st.country) then
      FoldState(Some(r.date), r.impressions, expected, r.country, st.output + [Flush(st)])
    else
      FoldState(Some(r.date), st.impressions + r.impressions, st.clicks + expected, r.country, st.output)
  }

  /** A step that closes the running group, spelled out the way the loop performs it. */
  lemma StepFlushing(lastDate: Option<Date>, impressions: int, clicks: real, country: string, output: seq<OutputRow>, r: Row)
    requires r.RecordCountry?
    requires country != "" && (Some(r.date) != lastDate || r.country != country)
    ensures Step(FoldState(lastDate, impressions, clicks, country, output), r)
         == FoldState(Some(r.date), 0 + r.impressions, 0.0 + Expected(r), r.country,
                      output + [OutputRow(lastDate, country, impressions, Clicks(clicks))])
  {
  }

  /** A step that extends the running group, spelled out the way the loop performs it. */
  lemma StepAccumulating(lastDate: Option<Date>, impressions: int, clicks: real, country: string, output: seq<OutputRow>, r: Row)
    requires r.RecordCountry?
    requires !(country != "" && (Some(r.date) != lastDate || r.country != country))
    ensures Step(FoldState(lastDate, impressions, clicks, country, output), r)
         == FoldState(Some(r.date), impressions + r.impressions, clicks + Expected(r), r.country, output)
  {
  }

  /** The loop state after the records of `s`. */
  function FoldRows(s: seq<Row>): FoldState
    requires Resolved(s)
  {
    if s == [] then Start else Step(FoldRows(s[..|s| - 1]), s[|s| - 1])
  }

  /** A helper for the loop of `reformatAndSave`: the state after one more
      record is one `Step` from the state before it. */
  lemma FoldRowsPrefix(s: seq<Row>, i: nat)
    requires Resolved(s) && i < |s|
    ensures FoldRows(s[..i + 1]) == Step(FoldRows(s[..i]), s[i])
  {
    assert s[..i + 1][..i] == s[..i];
  }

  /** `self.output` once the loop and the final append at line 131 are done. */
  function Aggregate(s: seq<Row>): (out: seq<OutputRow>)
    requires Resolved(s)
    ensures |out| >= 1
    ensures s == [] ==> out == [OutputRow(None, "", 0, 0)]
  {
    var st := FoldRows(s);
    st.output + [Flush(st)]
  }

  function TotalImpressions(s: seq<Row>): int {
    if s == [] then 0 else TotalImpressions(s[..|s| - 1]) + s[|s| - 1].impressions
  }

  /** The sum of `impressions * CTR`, the clicks a group is expected to get, in hundredths. */
  function ExpectedClicks(s: seq<Row>): real {
    if s == [] then 0.0 else ExpectedClicks(s[..|s| - 1]) + Expected(s[|s| - 1])
  }

  function OutputImpressions(rows: seq<OutputRow>): int {
    if rows == [] then 0 else OutputImpressions(rows[..|rows| - 1]) + rows[|rows| - 1].impressions
  }

  lemma {:induction false} FoldKeepsImpressions(s: seq<Row>)
    requires Resolved(s)
    ensures OutputImpressions(FoldRows(s).output) + FoldRows(s).impressions == TotalImpressions(s)
  {
    if s != [] {
      var p := s[..|s| - 1];
      FoldKeepsImpressions(p);
      var st := FoldRows(p);
      var out := st.output + [Flush(st)];
      assert out[..|out| - 1] == st.output;
    }
  }

  /** Whatever the order of the records, the rows' impressions add up to the
      impressions of all records: nothing is lost or counted twice. */
  lemma {:induction false} AggregateKeepsImpressions(s: seq<Row>)
    requires Resolved(s)
    ensures OutputImpressions(Aggregate(s)) == TotalImpressions(s)
  {
    FoldKeepsImpressions(s);
    var st := FoldRows(s);
    var out := st.output + [Flush(st)];
    assert out[..|out| - 1] == st.output;
  }

  /** Report order on (date, country) keys. */
  predicate PairLe(d1: Date, c1: string, d2: Date, c2: string) {
    DateLe(d1, d2) && (d1 == d2 ==> StrLe(c1, c2))
  }

  lemma {:induction false} PairLeAntisymmetric(d1: Date, c1: string, d2: Date, c2: string)
    requires PairLe(d1, c1, d2, c2) && PairLe(d2, c2, d1, c1)
    ensures d1 == d2 && c1 == c2
  {
    DateLeAntisymmetric(d1, d2);
    StrLeAntisymmetric(c1, c2);
  }

  /** The row that sums up the records of `s` with date `d` and country `c`. */
  function Summary(s: seq<Row>, d: Date, c: string): OutputRow
    requires Resolved(s)
  {
    var g := Group(s, d, c);
    OutputRow(Some(d), c, TotalImpressions(g), Clicks(ExpectedClicks(g)))
  }

  /** `row` is the summary of a (date, country) key that occurs in `s`. */
  predicate SummaryOf(row: OutputRow, s: seq<Row>)
    requires Resolved(s)
  {
    row.date.Some? && Group(s, row.date.value, row.country) != [] && row == Summary(s, row.date.value, row.country)
  }

  predicate HasKey(row: OutputRow, d: Date, c: string) {
    row.date == Some(d) && row.country == c
  }

  /** `a` comes strictly before `b`: a smaller (date, country) key. */
  predicate RowBefore(a: OutputRow, b: OutputRow) {
    && a.date.Some? && b.date.Some?
    && PairLe(a.date.value, a.country, b.date.value, b.country)
    && !HasKey(a, b.date.value, b.country)
  }

  predicate Ascending(rows: seq<OutputRow>) {
    forall i, j :: 0 <= i < j < |rows| ==> RowBefore(rows[i], rows[j])
  }

  /** Every key that occurs in `s` has a row. */
  predicate Covers(rows: seq<OutputRow>, s: seq<Row>)
    requires Resolved(s)
  {
    forall r <- s :: exists j :: 0 <= j < |rows| && HasKey(rows[j], r.date, r.country)
  }

  /** `rows` is the report of `s`: one row per (date, country) key present in
      `s`, keys strictly ascending, each row carrying its group's totals. */
  predicate Summarizes(rows: seq<OutputRow>, s: seq<Row>)
    requires Resolved(s)
  {
    (forall row <- rows :: SummaryOf(row, s)) && Ascending(rows) && Covers(rows, s)
  }

  /** The fold state after a non-empty sorted prefix `p`: the rows so far plus
      the running group's row form the report of `p`, and the running group
      holds the exact totals of the last key. */
  predicate FoldInvariant(st: FoldState, p: seq<Row>)
    requires Resolved(p) && p != []
  {
    var last := p[|p| - 1];
    && st.lastDate == Some(last.date)
    && st.country == last.country
    && st.impressions == TotalImpressions(Group(p, last.date, last.country))
    && st.clicks == ExpectedClicks(Group(p, last.date, last.country))
    && Summarizes(st.output + [Flush(st)], p)
  }

  lemma {:induction false} GroupAppend(p: seq<Row>, x: Row, d: Date, c: string)
    requires Resolved(p) && x.RecordCountry?
    ensures Group(p + [x], d, c) == Group(p, d, c) + (if x.date == d && x.country == c then [x] else [])
  {
    if p == [] {
      assert [x][1..] == [];
    } else {
      GroupAppend(p[1..], x, d, c);
      assert (p + [x])[1..] == p[1..] + [x];
    }
  }

  lemma {:induction false} GroupMembers(s: seq<Row>, d: Date, c: string)
    requires Resolved(s)
    ensures Group(s, d, c) != [] <==> exists r <- s :: r.date == d && r.country == c
  {
    if s != [] {
      GroupMembers(s[1..], d, c);
      assert forall r <- s :: r == s[0] || r in s[1..];
    }
  }

  lemma {:induction false} TotalsOfOneMore(g: seq<Row>, x: Row)
    ensures TotalImpressions(g + [x]) == TotalImpressions(g) + x.impressions
    ensures ExpectedClicks(g + [x]) == ExpectedClicks(g) + Expected(x)
  {
    assert (g + [x])[..|g|] == g;
  }

  /** A record of another key leaves every summary as it is. */
  lemma {:induction false} SummariesKept(rows: seq<OutputRow>, p: seq<Row>, x: Row)
    requires Resolved(p) && x.RecordCountry?
    requires forall row <- rows :: SummaryOf(row, p) && !HasKey(row, x.date, x.country)
    ensures forall row <- rows :: SummaryOf(row, p + [x])
  {
    forall row <- rows ensures SummaryOf(row, p + [x]) {
      GroupAppend(p, x, row.date.value, row.country);
      assert Group(p, row.date.value, row.country) + [] == Group(p, row.date.value, row.country);
    }
  }

  /** Adding `x` adds its impressions and expected clicks to its own group. */
  lemma {:induction false} GroupTotalsAfter(p: seq<Row>, x: Row)
    requires Resolved(p) && x.RecordCountry?
    ensures Group(p + [x], x.date, x.country) != []
    ensures TotalImpressions(Group(p + [x], x.date, x.country)) == TotalImpressions(Group(p, x.date, x.country)) + x.impressions
    ensures ExpectedClicks(Group(p + [x], x.date, x.country)) == ExpectedClicks(Group(p, x.date, x.country)) + Expected(x)
  {
    GroupAppend(p, x, x.date, x.country);
    TotalsOfOneMore(Group(p, x.date, x.country), x);
  }

  /** The running group's row, once it holds the totals of `x`'s key. */
  lemma {:induction false} RunningSummary(st: FoldState, p: seq<Row>, x: Row)
    requires Resolved(p) && x.RecordCountry?
    requires st.lastDate == Some(x.date) && st.country == x.country
    requires Group(p + [x], x.date, x.country) != []
    requires st.impressions == TotalImpressions(Group(p + [x], x.date, x.country))
    requires st.clicks == ExpectedClicks(Group(p + [x], x.date, x.country))
    ensures SummaryOf(Flush(st), p + [x])
  {
  }

  lemma {:induction false} SummariesAppend(rows: seq<OutputRow>, y: OutputRow, s: seq<Row>)
    requires Resolved(s)
    requires forall row <- rows :: SummaryOf(row, s)
    requires SummaryOf(y, s)
    ensures forall row <- rows + [y] :: SummaryOf(row, s)
  {
    assert forall row <- rows + [y] :: row in rows || row == y;
  }

  /** The rows before the running group's row have other keys than it. */
  lemma {:induction false} EarlierRows(out: seq<OutputRow>, y: OutputRow, p: seq<Row>, x: Row)
    requires Resolved(p) && x.RecordCountry?
    requires forall row <- out + [y] :: SummaryOf(row, p)
    requires Ascending(out + [y]) && HasKey(y, x.date, x.country)
    ensures forall row <- out :: SummaryOf(row, p) && !HasKey(row, x.date, x.country)
  {
    forall row <- out ensures SummaryOf(row, p) && !HasKey(row, x.date, x.country) {
      var j :| 0 <= j < |out| && out[j] == row;
      var rows := out + [y];
      assert rows[j] == row && rows[|rows| - 1] == y && row in rows;
      assert RowBefore(rows[j], rows[|rows| - 1]);
    }
  }

  lemma {:induction false} AscendingAppend(rows: seq<OutputRow>, y: OutputRow)
    requires Ascending(rows)
    requires forall row <- rows :: RowBefore(row, y)
    ensures Ascending(rows + [y])
  {
    forall i, j | 0 <= i < j < |rows + [y]| ensures RowBefore((rows + [y])[i], (rows + [y])[j]) {
      assert (rows + [y])[i] == rows[i] && rows[i] in rows;
    }
  }

  lemma {:induction false} AscendingSameKey(out: seq<OutputRow>, y: OutputRow, y': OutputRow)
    requires Ascending(out + [y])
    requires y'.date == y.date && y'.country == y.country
    ensures Ascending(out + [y'])
  {
    forall i, j | 0 <= i < j < |out + [y']| ensures RowBefore((out + [y'])[i], (out + [y'])[j]) {
      assert RowBefore((out + [y])[i], (out + [y])[j]);
    }
  }

  lemma {:induction false} CoversExtended(rows: seq<OutputRow>, rows': seq<OutputRow>, p: seq<Row>, x: Row)
    requires Resolved(p) && x.RecordCountry? && Covers(rows, p)
    requires |rows| <= |rows'| && |rows'| > 0 && HasKey(rows'[|rows'| - 1], x.date, x.country)
    requires forall j :: 0 <= j < |rows| ==> rows'[j].date == rows[j].date && rows'[j].country == rows[j].country
    ensures Covers(rows', p + [x])
  {
    forall r <- p + [x] ensures exists j :: 0 <= j < |rows'| && HasKey(rows'[j], r.date, r.country) {
      if r in p {
        var j :| 0 <= j < |rows| && HasKey(rows[j], r.date, r.country);
        assert HasKey(rows'[j], r.date, r.country);
      } else {
        assert r == x;
        assert HasKey(rows'[|rows'| - 1], r.date, r.country);
      }
    }
  }

  /** In report order, a key other than the last one's has no record yet. */
  lemma {:induction false} NoGroupYet(p: seq<Row>, x: Row)
    requires Resolved(p) && p != [] && x.RecordCountry?
    requires x.date != p[|p| - 1].date || x.country != p[|p| - 1].country
    requires forall r <- p :: ReportLe(r, p[|p| - 1]) && ReportLe(r, x)
    ensures Group(p, x.date, x.country) == []
  {
    var last := p[|p| - 1];
    GroupMembers(p, x.date, x.country);
    if r :| r in p && r.date == x.date && r.country == x.country {
      assert last in p;
      PairLeAntisymmetric(last.date, last.country, x.date, x.country);
    }
  }

  /** Every summarised key comes before the key of a later record. */
  lemma {:induction false} BeforeNewKey(row: OutputRow, p: seq<Row>, x: Row)
    requires Resolved(p) && x.RecordCountry? && SummaryOf(row, p)
    requires forall r <- p :: ReportLe(r, x)
    requires Group(p, x.date, x.country) == []
    ensures PairLe(row.date.value, row.country, x.date, x.country) && !HasKey(row, x.date, x.country)
  {
    GroupMembers(p, row.date.value, row.country);
    var r :| r in p && r.date == row.date.value && r.country == row.country;
    assert ReportLe(r, x);
  }

  lemma {:induction false} RowsBeforeNewKey(rows: seq<OutputRow>, y: OutputRow, p: seq<Row>, x: Row)
    requires Resolved(p) && x.RecordCountry? && HasKey(y, x.date, x.country)
    requires forall row <- rows :: SummaryOf(row, p)
    requires forall r <- p :: ReportLe(r, x)
    requires Group(p, x.date, x.country) == []
    ensures forall row <- rows :: SummaryOf(row, p) && !HasKey(row, x.date, x.country) && RowBefore(row, y)
  {
    forall row <- rows ensures SummaryOf(row, p) && !HasKey(row, x.date, x.country) && RowBefore(row, y) {
      BeforeNewKey(row, p, x);
    }
  }

  /** A record of the same key as the running group joins it. */
  lemma {:induction false} StepSameKey(p: seq<Row>, x: Row, st: FoldState)
    requires Resolved(p) && p != [] && x.RecordCountry?
    requires x.date == p[|p| - 1].date && x.country == p[|p| - 1].country
    requires FoldInvariant(st, p)
    ensures FoldInvariant(Step(st, x), p + [x])
  {
    var st' := Step(st, x);
    var y, y' := Flush(st), Flush(st');
    assert st' == FoldState(Some(x.date), st.impressions + x.impressions, st.clicks + Expected(x), x.country, st.output);
    EarlierRows(st.output, y, p, x);
    SummariesKept(st.output, p, x);
    GroupTotalsAfter(p, x);
    RunningSummary(st', p, x);
    SummariesAppend(st.output, y', p + [x]);
    AscendingSameKey(st.output, y, y');
    CoversExtended(st.output + [y], st.output + [y'], p, x);
  }

  /** A record of a larger key closes the running group and opens its own. */
  lemma {:induction false} StepNewKey(p: seq<Row>, x: Row, st: FoldState)
    requires Resolved(p) && p != [] && x.RecordCountry?
    requires p[|p| - 1].country != ""
    requires x.date != p[|p| - 1].date || x.country != p[|p| - 1].country
    requires forall r <- p :: ReportLe(r, p[|p| - 1]) && ReportLe(r, x)
    requires FoldInvariant(st, p)
    ensures FoldInvariant(Step(st, x), p + [x])
  {
    var st' := Step(st, x);
    var rows := st.output + [Flush(st)];
    var y' := Flush(st');
    assert st' == FoldState(Some(x.date), x.impressions, Expected(x), x.country, rows);
    NoGroupYet(p, x);
    RowsBeforeNewKey(rows, y', p, x);
    SummariesKept(rows, p, x);
    GroupTotalsAfter(p, x);
    RunningSummary(st', p, x);
    SummariesAppend(rows, y', p + [x]);
    AscendingAppend(rows, y');
    CoversExtended(rows, rows + [y'], p, x);
  }

  /** After the first record, the running group is that record's. */
  lemma FoldRowsFirst(x: Row)
    requires x.RecordCountry?
    ensures FoldInvariant(FoldRows([x]), [x])
  {
    assert FoldRows([x]) == Step(FoldRows([x][..0]), [x][0]);
    assert [x][..0] == [];
    var st := FoldRows([x]);
    assert st == Step(Start, x);
    assert [] + [x] == [x];
    GroupTotalsAfter([], x);
    RunningSummary(st, [], x);
    var rows := st.output + [Flush(st)];
    assert HasKey(rows[0], x.date, x.country);
    assert forall r <- [x] :: r == x;
  }

  /** In report order, the last two records come after every earlier one. */
  lemma LastTwoAreGreatest(s: seq<Row>, p: seq<Row>)
    requires Resolved(s) && |s| >= 2 && ReportSorted(s) && p == s[..|s| - 1]
    ensures forall r <- p :: ReportLe(r, p[|p| - 1]) && ReportLe(r, s[|s| - 1])
  {
    forall r <- p ensures ReportLe(r, p[|p| - 1]) && ReportLe(r, s[|s| - 1]) {
      var i :| 0 <= i < |p| && p[i] == r;
      assert s[i] == r;
      if i == |p| - 1 {
        StrLeReflexive(r.country);
      }
    }
  }

  lemma {:induction false} FoldRowsInvariant(s: seq<Row>)
    requires Resolved(s) && s != [] && ReportSorted(s)
    requires forall r <- s :: r.country != ""
    ensures FoldInvariant(FoldRows(s), s)
  {
    var p := s[..|s| - 1];
    var x := s[|s| - 1];
    assert s == p + [x];
    if p == [] {
      FoldRowsFirst(x);
    } else {
      assert ReportSorted(p);
      FoldRowsInvariant(p);
      var last := p[|p| - 1];
      assert last in s;
      if x.date == last.date && x.country == last.country {
        StepSameKey(p, x, FoldRows(p));
      } else {
        LastTwoAreGreatest(s, p);
        StepNewKey(p, x, FoldRows(p));
      }
    }
  }

  /** For a non-empty list in report order whose country codes are not empty,
      the output is its report: one row per (date, country) key present, in
      strictly ascending key order, each with the group's impressions and
      `round(sum(impressions * CTR) / 100)` clicks. */
  lemma {:induction false} AggregateSummarizes(s: seq<Row>)
    requires Resolved(s) && s != [] && ReportSorted(s)
    requires forall r <- s :: r.country != ""
    ensures Summarizes(Aggregate(s), s)
  {
    FoldRowsInvariant(s);
  }

  lemma {:induction false} TotalAppend(u: seq<Row>, v: seq<Row>)
    ensures TotalImpressions(u + v) == TotalImpressions(u) + TotalImpressions(v)
  {
    if v == [] {
      assert u + v == u;
    } else {
      TotalAppend(u, v[..|v| - 1]);
      assert (u + v)[..|u + v| - 1] == u + v[..|v| - 1];
    }
  }

  /** Taking the record at `k` out of a list takes its impressions out of the total. */
  lemma {:induction false} TakeOut(b: seq<Row>, k: nat)
    requires k < |b|
    ensures TotalImpressions(b) == TotalImpressions(Without(b, k)) + b[k].impressions
  {
    var b1, y, b2 := b[..k], b[k], b[k + 1..];
    assert b == b1 + [y] + b2;
    TotalAppend(b1 + [y], b2);
    TotalAppend(b1, [y]);
    TotalAppend(b1, b2);
    assert TotalImpressions([y]) == y.impressions;
  }

  /** For the same cores in two lists, the last record of `a` has a counterpart `b[k]`
      whose removal leaves the same cores again. */
  lemma {:induction false} MatchingCore(a: seq<Row>, b: seq<Row>) returns (k: nat)
    requires a != [] && multiset(Cores(a)) == multiset(Cores(b))
    ensures k < |b| && Core(b[k]) == Core(a[|a| - 1])
    ensures multiset(Cores(Without(a, |a| - 1))) == multiset(Cores(Without(b, k)))
  {
    var n := |a| - 1;
    var c := Core(a[n]);
    assert Cores(a)[n] == c;
    assert c in multiset(Cores(b));
    k :| 0 <= k < |b| && Cores(b)[k] == c;
    CoresWithout(a, n);
    CoresWithout(b, k);
  }

  /** The total depends only on the records' (date, impressions, CTR) cores, not on their order or region. */
  lemma {:induction false} TotalOfSameCores(a: seq<Row>, b: seq<Row>)
    requires multiset(Cores(a)) == multiset(Cores(b))
    ensures TotalImpressions(a) == TotalImpressions(b)
    decreases |a|
  {
    if a == [] {
      assert |multiset(Cores(b))| == |Cores(b)| == 0;
    } else {
      var n := |a| - 1;
      var k := MatchingCore(a, b);
      TotalOfSameCores(Without(a, n), Without(b, k));
      TakeOut(a, n);
      TakeOut(b, k);
      assert b[k].impressions == Core(b[k]).1 == Core(a[n]).1 == a[n].impressions;
    }
  }

  /** `reformatAndSave`'s output for the records `s`: both sorts, then the fold. */
  function Report(s: seq<Row>): (out: seq<OutputRow>)
    requires Resolved(s)
    ensures |out| >= 1
  {
    Aggregate(SortBy(SortBy(s, ByCountry), ByDate))
  }

  /** Every impression of the records is in exactly one output row. */
  lemma ReportKeepsImpressions(s: seq<Row>)
    requires Resolved(s)
    ensures OutputImpressions(Report(s)) == TotalImpressions(s)
  {
    var r := SortBy(SortBy(s, ByCountry), ByDate);
    SortForReport(s);
    AggregateKeepsImpressions(r);
    CoresPermutation(r, s);
    TotalOfSameCores(r, s);
  }

  /** Whatever the order of the records, the output is their report. */
  lemma ReportSummarizes(s: seq<Row>)
    requires Resolved(s) && s != []
    requires forall r <- s :: r.country != ""
    ensures Summarizes(Report(s), s)
  {
    var r := SortBy(SortBy(s, ByCountry), ByDate);
    SortForReport(s);
    assert forall e <- r :: e in multiset(s);
    assert r != [] by {
      assert s[0] in multiset(r);
    }
    AggregateSummarizes(r);
    var out := Report(s);
    forall row <- out ensures SummaryOf(row, s) {
      assert SummaryOf(row, r);
      assert Group(r, row.date.value, row.country) == Group(s, row.date.value, row.country);
    }
    forall e <- s ensures exists j :: 0 <= j < |out| && HasKey(out[j], e.date, e.country) {
      assert e in multiset(r);
      assert e in r;
    }
  }

  /** A (date, country) key has a row exactly when some record has that key,
      and that row holds the key's totals. */
  lemma ReportRowForKey(s: seq<Row>, d: Date, c: string)
    requires Resolved(s) && s != []
    requires forall r <- s :: r.country != ""
    ensures (exists j :: 0 <= j < |Report(s)| && HasKey(Report(s)[j], d, c)) <==> Group(s, d, c) != []
    ensures forall j :: 0 <= j < |Report(s)| && HasKey(Report(s)[j], d, c) ==> Report(s)[j] == Summary(s, d, c)
  {
    var out := Report(s);
    ReportSummarizes(s);
    GroupMembers(s, d, c);
    if j :| 0 <= j < |out| && HasKey(out[j], d, c) {
      assert out[j] in out;
    }
    forall j | 0 <= j < |out| && HasKey(out[j], d, c) ensures out[j] == Summary(s, d, c) {
      assert out[j] in out;
    }
  }
}
