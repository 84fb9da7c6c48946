/**
 * The class `Reporter` of CSV_report.py (lines 16-142): the list
 * `self.Records`, which the stages rewrite one after the other, and the list
 * `self.output` of rows waiting to be written.
 *
 * Each method runs the loops of its Python counterpart over the fields and is
 * proved to leave the fields as the value-level functions of the other
 * modules say: `Accepted` for loading, `Resolve` for region resolution and
 * `Report` for the sort-and-fold of `reformatAndSave`. What the source reads
 * from outside (the CSV rows, `fix_text`, `float()`, the `pycountry`
 * subdivision table) comes in as parameters, and `saveCSV` hands back the rows
 * it would write.
 */
module CsvReport {
  import opened Wrappers
  import opened Text
  import opened Dates
  import opened Records
  import opened Validation
  import opened Resolution
  import opened Sorting
  import opened Aggregation

  class Reporter {
    var Records: seq<Row>
    var output: seq<OutputRow>

    constructor ()
      ensures Records == [] && output == []
    {
      Records := [];
      output := [];
    }

    /** The body of the loop of `loadReport` (lines 65-67) for row `i`: the
        row's record is appended when `isFormatOk` accepts the row, and
        nothing otherwise. */
    method LoadRow(rows: seq<seq<string>>, i: nat, fixText: string -> string, parseFloat: string -> Option<real>,
                   ghost checks: seq<Option<Row>>)
      requires forall row <- rows :: |row| >= 4
      requires ChecksOf(checks, rows, fixText, parseFloat) && i < |rows|
      modifies this`Records
      ensures Records == old(Records) + Kept(checks[i])
    {
      var formatted := IsFormatOk(rows[i], fixText, parseFloat);
      if formatted.Some? {
        Records := Records + [formatted.value];
      } else {
        AppendEmpty(Records);
      }
    }

    /** The loop of `loadReport` (lines 63-67) over rows already split into
        fields: every row `isFormatOk` accepts is appended, in row order. */
    method LoadRows(rows: seq<seq<string>>, fixText: string -> string, parseFloat: string -> Option<real>)
      requires forall row <- rows :: |row| >= 4
      modifies this`Records
      ensures Records == old(Records) + Accepted(rows, fixText, parseFloat)
    {
      ghost var checks := CheckRows(rows, fixText, parseFloat);
      var i := 0;
      while i < |rows|
        invariant 0 <= i <= |rows|
        invariant Records == old(Records) + KeptUpTo(checks, i)
      {
        ghost var current := Records;
        LoadRow(rows, i, fixText, parseFloat, checks);
        LoadStep(old(Records), checks, i, current, Records);
        i := i + 1;
      }
      AcceptedIs(rows, fixText, parseFloat, checks);
    }

    /** `findCountryCode` (lines 71-99) with `subdivisions` for
        `pycountry.subdivisions`: for each entry, a pass over the list that
        removes every record it matches (skipping the one after each removal,
        as Python's list iterator does), then `XXX` for every record left. */
    method FindCountryCode(subdivisions: seq<Subdivision>)
      requires Unresolved(Records)
      modifies this`Records
      ensures Records == Resolve(subdivisions, old(Records))
    {
      var withCountry: seq<Row> := [];
      ghost var all := MatchAll(subdivisions, Records);
      ghost var matched: seq<Assignment> := [];
      assert subdivisions[0..] == subdivisions;
      AppendEmpty(all.1);
      var si := 0;
      while si < |subdivisions|
        invariant 0 <= si <= |subdivisions|
        invariant Unresolved(Records)
        invariant MatchAll(subdivisions[si..], Records).0 == all.0
        invariant matched + MatchAll(subdivisions[si..], Records).1 == all.1
        invariant withCountry == Relabeled(matched)
      {
        var sub := subdivisions[si];
        ghost var before := Records;
        ghost var pass := Scan(sub, Records, 0);
        ghost var found: seq<Assignment> := [];
        AppendEmpty(pass.1);
        AppendEmpty(matched);
        var j := 0;
        while j < |Records|
          invariant Unresolved(Records)
          invariant Scan(sub, Records, j).0 == pass.0
          invariant found + Scan(sub, Records, j).1 == pass.1
          invariant withCountry == Relabeled(matched + found)
          decreases |Records| - j
        {
          var record := Records[j];
          if sub.name == record.state {
            var r := RecordCountry(record.date, sub.alpha3, record.impressions, record.ctr);
            ghost var a := Assignment(record, sub.alpha3);
            AppendAssoc(found, [a], Scan(sub, Remove(Records, record), j + 1).1);
            AppendAssoc(matched, found, [a]);
            RelabeledSnoc(matched + found, a);
            Records := Remove(Records, record);
            withCountry := withCountry + [r];
            found := found + [a];
          }
          j := j + 1;
        }
        assert Records == pass.0 && found == pass.1 by {
          AppendEmpty(found);
        }
        ghost var rest := MatchAll(subdivisions[si + 1..], Records);
        assert MatchAll(subdivisions[si..], before) == (rest.0, found + rest.1) by {
          assert subdivisions[si..][0] == sub;
          assert subdivisions[si..][1..] == subdivisions[si + 1..];
        }
        AppendAssoc(matched, found, rest.1);
        matched := matched + found;
        si := si + 1;
      }
      assert Records == all.0 && matched == all.1 by {
        assert subdivisions[si..] == [];
        AppendEmpty(matched);
      }
      var k := 0;
      while k < |Records|
        invariant 0 <= k <= |Records|
        invariant Records == all.0
        invariant withCountry == Relabeled(matched + Leftovers(Records[..k]))
      {
        var record := Records[k];
        var r := RecordCountry(record.date, Unknown, record.impressions, record.ctr);
        LeftoversPrefix(Records, k);
        AppendAssoc(matched, Leftovers(Records[..k]), [Assignment(record, Unknown)]);
        RelabeledSnoc(matched + Leftovers(Records[..k]), Assignment(record, Unknown));
        withCountry := withCountry + [r];
        k := k + 1;
      }
      assert withCountry == Resolve(subdivisions, old(Records)) by {
        assert Records[..k] == Records;
        assert all == MatchAll(subdivisions, old(Records));
        assert Assignments(subdivisions, old(Records)) == matched + Leftovers(Records);
      }
      Records := withCountry;
    }

    /** `saveCSV` (lines 101-105): the rows handed to the CSV writer, after
        which `self.output` is emptied. */
    method SaveCSV() returns (written: seq<OutputRow>)
      modifies this`output
      ensures written == old(output)
      ensures output == []
    {
      written := output;
      output := [];
    }

    /** `reformatAndSave` (lines 107-132): the two stable sorts, the fold that
        emits one row per run of records with the same date and country, the
        final row, and `saveCSV`. */
    method ReformatAndSave() returns (written: seq<OutputRow>)
      requires Resolved(Records)
      modifies this
      ensures Records == SortBy(SortBy(old(Records), ByCountry), ByDate)
      ensures written == Report(old(Records))
      ensures output == []
    {
      Records := SortBy(Records, ByCountry);
      Records := SortBy(Records, ByDate);
      var lastDate: Option<Date>, impressions, clicks, country := None, 0, 0.0, "";
      output := [];
      var i := 0;
      while i < |Records|
        invariant 0 <= i <= |Records|
        invariant FoldState(lastDate, impressions, clicks, country, output) == FoldRows(Records[..i])
        modifies this`output
      {
        FoldRowsPrefix(Records, i);
        var record := Records[i];
        if country != "" && (Some(record.date) != lastDate || record.country != country) {
          StepFlushing(lastDate, impressions, clicks, country, output, record);
          output := output + [OutputRow(lastDate, country, impressions, Clicks(clicks))];
          impressions, clicks := 0, 0.0;
        } else {
          StepAccumulating(lastDate, impressions, clicks, country, output, record);
        }
        lastDate := Some(record.date);
        impressions := impressions + record.impressions;
        clicks := clicks + Expected(record);
        country := record.country;
        i := i + 1;
      }
      assert Records[..i] == Records;
      output := output + [OutputRow(lastDate, country, impressions, Clicks(clicks))];
      written := SaveCSV();
    }

    /** `run` (lines 134-142) on the rows of one file: load, resolve, report. */
    method Run(rows: seq<seq<string>>, fixText: string -> string, parseFloat: string -> Option<real>,
               subdivisions: seq<Subdivision>) returns (written: seq<OutputRow>)
      requires forall row <- rows :: |row| >= 4
      requires Unresolved(Records)
      modifies this
      ensures Records == SortBy(SortBy(Resolve(subdivisions, old(Records) + Accepted(rows, fixText, parseFloat)), ByCountry), ByDate)
      ensures written == Report(Resolve(subdivisions, old(Records) + Accepted(rows, fixText, parseFloat)))
      ensures output == []
    {
      LoadRows(rows, fixText, parseFloat);
      FindCountryCode(subdivisions);
      written := ReformatAndSave();
    }
  }

  /** The records a run starting from an empty `Reporter` reports on. */
  function Loaded(rows: seq<seq<string>>, fixText: string -> string, parseFloat: string -> Option<real>,
                  subdivisions: seq<Subdivision>): (s: seq<Row>)
    requires forall row <- rows :: |row| >= 4
    ensures Resolved(s)
  {
    Resolve(subdivisions, Accepted(rows, fixText, parseFloat))
  }

  /** Every impression of every accepted row is in exactly one output row,
      whatever the regions resolve to. */
  lemma RunKeepsImpressions(rows: seq<seq<string>>, fixText: string -> string, parseFloat: string -> Option<real>,
                            subdivisions: seq<Subdivision>)
    requires forall row <- rows :: |row| >= 4
    ensures OutputImpressions(Report(Loaded(rows, fixText, parseFloat, subdivisions)))
         == TotalImpressions(Accepted(rows, fixText, parseFloat))
  {
    var accepted := Accepted(rows, fixText, parseFloat);
    var s := Loaded(rows, fixText, parseFloat, subdivisions);
    ReportKeepsImpressions(s);
    ResolveKeepsRecords(subdivisions, accepted);
    TotalOfSameCores(s, accepted);
  }

  /** When some row is accepted and the table has no empty country codes, the
      output is the report of the resolved records: one row per (date,
      country) key, ascending, each with its group's totals. */
  lemma RunSummarizes(rows: seq<seq<string>>, fixText: string -> string, parseFloat: string -> Option<real>,
                      subdivisions: seq<Subdivision>)
    requires forall row <- rows :: |row| >= 4
    requires forall sub <- subdivisions :: sub.alpha3 != ""
    requires Accepted(rows, fixText, parseFloat) != []
    ensures Summarizes(Report(Loaded(rows, fixText, parseFloat, subdivisions)),
                       Loaded(rows, fixText, parseFloat, subdivisions))
  {
    var accepted := Accepted(rows, fixText, parseFloat);
    ResolveKeepsRecords(subdivisions, accepted);
    ResolveCountries(subdivisions, accepted);
    ReportSummarizes(Loaded(rows, fixText, parseFloat, subdivisions));
  }

  /** A file in which no row is accepted still gives one output row, `(None, "", 0, 0)`. */
  lemma RunWithNothingAccepted(rows: seq<seq<string>>, fixText: string -> string, parseFloat: string -> Option<real>,
                               subdivisions: seq<Subdivision>)
    requires forall row <- rows :: |row| >= 4
    requires Accepted(rows, fixText, parseFloat) == []
    ensures Report(Loaded(rows, fixText, parseFloat, subdivisions)) == [OutputRow(None, "", 0, 0)]
  {
    ResolveKeepsRecords(subdivisions, []);
  }
}
