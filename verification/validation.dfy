/**
 * Row validation, `Reporter.isFormatOk` (CSV_report.py:32-53), and the loop of
 * `Reporter.loadReport` that keeps the rows it accepts (CSV_report.py:63-67).
 *
 * `fix_text` (the text-repair library) and `float()` are parameters:
 * `fixText` cannot fail, `parseFloat` answers `None` where `float()` raises
 * `ValueError`.
 */
module Validation {
  import opened Wrappers
  import opened Text
  import opened Numbers
  import opened Dates
  import opened Records

  /** `isFormatOk(row)`: the parsed `Record`, or `None` where the source
      returns `False`, which is where one of the `ValueError`s caught at line 50
      is raised: the date does not parse, `int()` fails or gives a negative
      number, or `float()` fails or gives a rate outside [0, 1]. */
  function IsFormatOk(row: seq<string>, fixText: string -> string, parseFloat: string -> Option<real>): (r: Option<Row>)
    requires |row| >= 4
    ensures r.None? <==>
      || ParseDate(row[0]).None?
      || ParseInt(row[2]).None?
      || ParseInt(row[2]).value < 0
      || parseFloat(WithoutPercent(row[3])).None?
      || parseFloat(WithoutPercent(row[3])).value < 0.0
      || parseFloat(WithoutPercent(row[3])).value > 1.0
    ensures r.Some? ==> r.value.Record? && ValidRecord(r.value)
    ensures r.Some? ==>
      && ParseDate(row[0]) == Some(r.value.date)
      && r.value.state == fixText(row[1])
      && ParseInt(row[2]) == Some(r.value.impressions)
      && parseFloat(WithoutPercent(row[3])) == Some(r.value.ctr)
  {
    match ParseDate(row[0])
    case None => None
    case Some(date) =>
      var state := fixText(row[1]);
      match ParseInt(row[2])
      case None => None
      case Some(impressions) =>
        if impressions < 0 then None
        else
          match parseFloat(WithoutPercent(row[3]))
          case None => None
          case Some(ctr) =>
            if ctr < 0.0 || ctr > 1.0 then None
            else Some(Record(date, state, impressions, ctr))
  }

  /** The records one more row adds: its record when it is accepted, nothing otherwise. */
  function Kept(r: Option<Row>): (s: seq<Row>)
    ensures |s| <= 1
    ensures forall x <- s :: r == Some(x)
  {
    if r.Some? then [r.value] else []
  }

  /** `cs` holds what `isFormatOk` makes of each row of `rows`, in row order. */
  predicate ChecksOf(cs: seq<Option<Row>>, rows: seq<seq<string>>, fixText: string -> string, parseFloat: string -> Option<real>)
    requires forall row <- rows :: |row| >= 4
  {
    && |cs| == |rows|
    && forall i {:trigger IsFormatOk(rows[i], fixText, parseFloat)} ::
         0 <= i < |rows| ==> cs[i] == IsFormatOk(rows[i], fixText, parseFloat)
  }

  /** What `isFormatOk` makes of each row, in row order. */
  function Checks(rows: seq<seq<string>>, fixText: string -> string, parseFloat: string -> Option<real>): (cs: seq<Option<Row>>)
    requires forall row <- rows :: |row| >= 4
    ensures ChecksOf(cs, rows, fixText, parseFloat)
  {
    if rows == [] then [] else [IsFormatOk(rows[0], fixText, parseFloat)] + Checks(rows[1..], fixText, parseFloat)
  }

  /** The verdicts on `rows`, as a value the loop of `loadReport` can carry. */
  lemma CheckRows(rows: seq<seq<string>>, fixText: string -> string, parseFloat: string -> Option<real>) returns (cs: seq<Option<Row>>)
    requires forall row <- rows :: |row| >= 4
    ensures ChecksOf(cs, rows, fixText, parseFloat)
  {
    cs := Checks(rows, fixText, parseFloat);
  }

  /** Any sequence of verdicts on `rows` is `Checks(rows)`, so its records are `Accepted(rows)`. */
  lemma AcceptedIs(rows: seq<seq<string>>, fixText: string -> string, parseFloat: string -> Option<real>, cs: seq<Option<Row>>)
    requires forall row <- rows :: |row| >= 4
    requires ChecksOf(cs, rows, fixText, parseFloat)
    ensures Accepted(rows, fixText, parseFloat) == KeptUpTo(cs, |rows|)
  {
    var checks := Checks(rows, fixText, parseFloat);
    forall i | 0 <= i < |rows|
      ensures cs[i] == checks[i]
    {
      assert cs[i] == IsFormatOk(rows[i], fixText, parseFloat);
    }
    assert cs == checks;
  }

  lemma ChecksValid(rows: seq<seq<string>>, fixText: string -> string, parseFloat: string -> Option<real>, cs: seq<Option<Row>>)
    requires forall row <- rows :: |row| >= 4
    requires ChecksOf(cs, rows, fixText, parseFloat)
    ensures forall i :: 0 <= i < |cs| && cs[i].Some? ==> cs[i].value.Record? && ValidRecord(cs[i].value)
  {
    forall i | 0 <= i < |cs| && cs[i].Some?
      ensures cs[i].value.Record? && ValidRecord(cs[i].value)
    {
      assert cs[i] == IsFormatOk(rows[i], fixText, parseFloat);
    }
  }

  lemma KeptValid(cs: seq<Option<Row>>, n: nat)
    requires n <= |cs|
    requires forall i :: 0 <= i < |cs| && cs[i].Some? ==> cs[i].value.Record? && ValidRecord(cs[i].value)
    ensures forall r <- KeptUpTo(cs, n) :: r.Record? && ValidRecord(r)
  {
    KeptUpToMembers(cs, n);
    forall r | r in KeptUpTo(cs, n)
      ensures r.Record? && ValidRecord(r)
    {
      var i :| 0 <= i < n && cs[i] == Some(r);
      assert cs[i].value == r;
    }
  }

  /** The records carried by the first `n` results, in order. */
  function KeptUpTo(cs: seq<Option<Row>>, n: nat): (s: seq<Row>)
    requires n <= |cs|
    ensures |s| <= n
  {
    if n == 0 then [] else KeptUpTo(cs, n - 1) + Kept(cs[n - 1])
  }

  /** The positions among the first `n` that carry a record. */
  function Carrying(cs: seq<Option<Row>>, n: nat): set<int>
    requires n <= |cs|
  {
    set i | 0 <= i < n && cs[i].Some?
  }

  /** A record is kept exactly when one of the first `n` results carries it. */
  lemma {:induction false} KeptUpToMembers(cs: seq<Option<Row>>, n: nat)
    requires n <= |cs|
    ensures forall x :: x in KeptUpTo(cs, n) <==> exists i :: 0 <= i < n && cs[i] == Some(x)
  {
    if n > 0 {
      KeptUpToMembers(cs, n - 1);
      var before, last := KeptUpTo(cs, n - 1), Kept(cs[n - 1]);
      forall x
        ensures x in before + last <==> exists i :: 0 <= i < n && cs[i] == Some(x)
      {
        if x in before {
          var i :| 0 <= i < n - 1 && cs[i] == Some(x);
        } else if x in last {
          assert cs[n - 1] == Some(x);
        }
      }
    }
  }

  /** One record is kept per result among the first `n` that carries one. */
  lemma {:induction false} KeptUpToCount(cs: seq<Option<Row>>, n: nat)
    requires n <= |cs|
    ensures |KeptUpTo(cs, n)| == |Carrying(cs, n)|
  {
    if n > 0 {
      KeptUpToCount(cs, n - 1);
      CarryingStep(cs, n);
    }
  }

  lemma CarryingStep(cs: seq<Option<Row>>, n: nat)
    requires 0 < n <= |cs|
    ensures n - 1 !in Carrying(cs, n - 1)
    ensures Carrying(cs, n) == Carrying(cs, n - 1) + if cs[n - 1].Some? then {n - 1} else {}
  {
  }

  /** The records `loadReport` appends for `rows`: every accepted row's
      record, in row order. */
  function Accepted(rows: seq<seq<string>>, fixText: string -> string, parseFloat: string -> Option<real>): (s: seq<Row>)
    requires forall row <- rows :: |row| >= 4
    ensures |s| <= |rows|
    ensures Unresolved(s) && forall r <- s :: ValidRecord(r)
  {
    var cs := Checks(rows, fixText, parseFloat);
    ChecksValid(rows, fixText, parseFloat, cs);
    KeptValid(cs, |cs|);
    KeptUpTo(cs, |cs|)
  }

  /** The loop of `loadReport` after row `i`: the list grows by what row `i` adds. */
  lemma LoadStep(before: seq<Row>, cs: seq<Option<Row>>, i: nat, current: seq<Row>, next: seq<Row>)
    requires i < |cs|
    requires current == before + KeptUpTo(cs, i)
    requires next == current + Kept(cs[i])
    ensures next == before + KeptUpTo(cs, i + 1)
  {
    AppendAssoc(before, KeptUpTo(cs, i), Kept(cs[i]));
  }

  /** `loadReport` keeps a record exactly when some row of the file parses to it. */
  lemma AcceptedMembers(rows: seq<seq<string>>, fixText: string -> string, parseFloat: string -> Option<real>)
    requires forall row <- rows :: |row| >= 4
    ensures forall x :: x in Accepted(rows, fixText, parseFloat) <==>
              exists row <- rows :: IsFormatOk(row, fixText, parseFloat) == Some(x)
  {
    var cs := Checks(rows, fixText, parseFloat);
    KeptUpToMembers(cs, |cs|);
    forall x | (exists row <- rows :: IsFormatOk(row, fixText, parseFloat) == Some(x))
      ensures exists i :: 0 <= i < |cs| && cs[i] == Some(x)
    {
      var row :| row in rows && IsFormatOk(row, fixText, parseFloat) == Some(x);
      var i :| 0 <= i < |rows| && rows[i] == row;
      assert cs[i] == Some(x);
    }
    forall x | (exists i :: 0 <= i < |cs| && cs[i] == Some(x))
      ensures exists row <- rows :: IsFormatOk(row, fixText, parseFloat) == Some(x)
    {
      var i :| 0 <= i < |cs| && cs[i] == Some(x);
      assert rows[i] in rows;
    }
  }

  /** `loadReport` keeps one record per row `isFormatOk` accepts. */
  lemma AcceptedCount(rows: seq<seq<string>>, fixText: string -> string, parseFloat: string -> Option<real>)
    requires forall row <- rows :: |row| >= 4
    ensures |Accepted(rows, fixText, parseFloat)| == |set i | 0 <= i < |rows| && IsFormatOk(rows[i], fixText, parseFloat).Some?|
  {
    var cs := Checks(rows, fixText, parseFloat);
    KeptUpToCount(cs, |cs|);
    CarryingAccepted(rows, fixText, parseFloat);
  }

  lemma CarryingAccepted(rows: seq<seq<string>>, fixText: string -> string, parseFloat: string -> Option<real>)
    requires forall row <- rows :: |row| >= 4
    ensures Carrying(Checks(rows, fixText, parseFloat), |rows|)
         == set i | 0 <= i < |rows| && IsFormatOk(rows[i], fixText, parseFloat).Some?
  {
  }

  /** A well-formed row, with its date as `MM/DD/YYYY`, its impressions as
      `str(n)` for `n >= 0` and a CTR text that reads as a rate in [0, 1],
      is accepted with exactly those values and the repaired region name. */
  lemma AcceptsWellFormedRow(d: Date, region: string, n: int, ctrText: string, x: real,
                             fixText: string -> string, parseFloat: string -> Option<real>)
    requires ValidDate(d) && n >= 0
    requires parseFloat(WithoutPercent(ctrText)) == Some(x) && 0.0 <= x <= 1.0
    ensures IsFormatOk([FormatMonthDayYear(d), region, Decimal(n), ctrText], fixText, parseFloat)
            == Some(Record(d, fixText(region), n, x))
  {
    ParseFormatted(d);
    ParseIntDecimal(n);
  }

  /** Impressions of `-1` are refused whatever the other fields hold. */
  lemma RejectsNegativeImpressions(row: seq<string>, fixText: string -> string, parseFloat: string -> Option<real>)
    requires |row| >= 4 && row[2] == Decimal(-1)
    ensures IsFormatOk(row, fixText, parseFloat) == None
  {
    ParseIntDecimal(-1);
  }

  /** The `%` sign is only removed, not interpreted: `"2.5%"` is read as 2.5,
      which is above 1 and refused. */
  lemma PercentSignNotScaled(row: seq<string>, fixText: string -> string, parseFloat: string -> Option<real>)
    requires |row| >= 4 && row[3] == "2.5%" && parseFloat("2.5") == Some(2.5)
    ensures IsFormatOk(row, fixText, parseFloat) == None
  {
    assert WithoutPercent("2.5%") == "2.5";
  }
}
