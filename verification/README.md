# CSV report reformatter, modelled in Dafny

This project models `Reporter`, the class in `CSV_report.py` that turns a CSV of daily advertising
statistics per region into a report per country. Each input row holds a date (`MM/DD/YYYY`), a
region name, a number of impressions and a click-through rate (CTR). The class works in three
stages over two list fields, `Records` and `output`:

1. **Loading.** `loadReport` keeps every row that `isFormatOk` turns into a `Record`.
2. **Resolution.** `findCountryCode` walks a table of subdivisions. In each pass it takes matching
   records out of `Records` while it is still iterating over that list. Every record left at the
   end gets the country code `XXX`.
3. **Aggregation.** `reformatAndSave` sorts stably by country, then by date. It then folds the
   sorted list into one output row per (date, country) run: the impressions and
   `round(sum(impressions * CTR) / 100)` clicks. It hands the rows to `saveCSV`.

The model has two layers:

- **Value level.** Datatypes and functions that say what each stage computes:
  - `Validation.IsFormatOk` and `Validation.Accepted` for loading;
  - `Resolution.Scan`, `Resolution.MatchAll` and `Resolution.Resolve` for resolution;
  - `Sorting.SortBy` and `Aggregation.Aggregate` for the sort and the fold.

  Lemmas state what the source promises about those functions.
- **Class level.** The class `CsvReport.Reporter` keeps the two fields. Its methods run the
  source's loops:
  - `findCountryCode` uses an explicit iterator index, `list.remove` and a second list.
  - `reformatAndSave` keeps its loop variables `lastDate`, `impresions`, `clicks` and `country`.

  Each method is proved to leave the fields exactly as the value-level functions say.

Modules:

| Module | Contents |
|---|---|
| `Wrappers` | `Option` |
| `Sequences` | the first position holding a value |
| `Text` | whitespace, `strip`, `%` removal, `str` order |
| `Numbers` | `int()` and `round()` |
| `Dates` | `strptime(…, "%m/%d/%Y")` and date order |
| `Records` | the two named tuples and the output row |
| `Validation` | validation and loading |
| `Resolution` | region resolution |
| `Sorting` | the stable sorts |
| `Aggregation` | the fold |
| `CsvReport` | the class and `run` |

Some things the source reads from outside become parameters:

- `fixText` stands for `ftfy.fix_text`.
- `parseFloat` stands for `float()`: it returns `None` where `float()` raises `ValueError`, and
  a real number otherwise. It never yields NaN or an infinity (see "Left out").
- `subdivisions` stands for `pycountry.subdivisions`: a sequence of (name, alpha-3 code) pairs.
- `rows` stands for the rows `csv.reader` yields.

Behaviour the model keeps exactly as the code has it:

- **Rows after a removal are skipped.** Python's list iterator advances by index, and `remove`
  deletes the first equal element. After a removal the list shifts left behind the iterator, so
  the record right after the matched one is skipped in that pass. `Resolution.ScanMatchesFirst` and
  `Resolution.SkipsRecordAfterMatch` state this for any list, and the skipped record can end up
  with `XXX`. `Resolution.ScanTakesAllWhenApart` shows that a pass misses nothing when no two
  records for the region are adjacent.
- **`%` is dropped, not divided by.** The input is documented as a "CTR percentage", and `%` is
  removed before `float()`. But the code refuses any value above 1, so `"2.5%"` is refused
  (`Validation.PercentSignNotScaled`). The model follows the code, including the later division
  of the clicks by 100.
- **A group only closes on a non-empty country.** The fold closes the running group only when
  `country` is non-empty. So an empty list yields the single row `(None, "", 0, 0)`.
- **Rounding is per group and half to even.** `round` is applied once per group, with ties going
  to the even neighbour.

## Model

| member | source | states |
|---|---|---|
| Validation.IsFormatOk | CSV_report.py:32-53 | `None` exactly when the date does not parse, `int()` fails, impressions are negative, `float()` fails on the CTR with every `%` removed, or that CTR is outside [0, 1]; otherwise a `Record` holding exactly the parsed date, `fix_text(row[1])`, the parsed impressions and the parsed CTR, and that record is valid |
| Validation.Checks | CSV_report.py:63-64 | one verdict per row, in row order: position `i` holds `isFormatOk` of row `i` |
| Validation.Accepted | CSV_report.py:63-67 | the records kept from all rows are at most as many as the rows, all `Record`s and all valid |
| Validation.AcceptedMembers | CSV_report.py:63-67 | a record is kept exactly when `isFormatOk` turns some row into it |
| Validation.AcceptedCount | CSV_report.py:63-67 | as many records are kept as there are rows that `isFormatOk` accepts |
| Validation.AcceptsWellFormedRow | CSV_report.py:41-53 | a row with a valid `MM/DD/YYYY` date, impressions `str(n)` with `n >= 0` and a CTR text reading as a rate in [0, 1] is accepted with exactly those values and the repaired region name |
| Validation.RejectsNegativeImpressions | CSV_report.py:44-46 | impressions `-1` make the row refused whatever the other fields hold |
| Validation.PercentSignNotScaled | CSV_report.py:47-49 | a CTR of `"2.5%"` reads as 2.5 and the row is refused |
| Dates.ParseDate | CSV_report.py:42 | a date read from the first column is a real calendar date with year 1 to 9999 |
| Dates.ParseFormatted | CSV_report.py:42 | every valid date written as `MM/DD/YYYY` is read back as itself |
| Dates.RejectsOutOfRangeFields | CSV_report.py:42 | `13/40/2020` raises `ValueError` |
| Dates.AcceptsOneDigitFields | CSV_report.py:42 | one-digit month and day fields are accepted, as `strptime` accepts them |
| Dates.DateLeTotal | CSV_report.py:118 | any two dates are comparable |
| Dates.DateLeAntisymmetric | CSV_report.py:118 | two dates each not after the other are equal |
| Dates.DateLeTransitive | CSV_report.py:118 | date order is transitive |
| Numbers.ParseInt | CSV_report.py:44 | the text is read exactly when, after stripping white space and one sign, what remains is digit groups with single underscores between digits; a negative value came from a leading `-` |
| Numbers.ParseIntDecimal | CSV_report.py:44 | `int(str(n)) == n` for every integer `n` |
| Numbers.ParseIntUnpadded | CSV_report.py:44 | digit groups with nothing around them are read as the number their digits spell |
| Numbers.ParseIntLenient | CSV_report.py:44 | white space on either side and one optional `+` or `-` around the decimal digits of `n` are read as `n`, or `-n` after a `-` |
| Numbers.ParseIntLeadingZeros | CSV_report.py:44 | leading zeros do not change the value read |
| Numbers.ParseIntGrouped | CSV_report.py:44 | an underscore between two runs of digits is accepted and does not change the value read |
| Numbers.RoundHalfEven | CSV_report.py:124 | the result is within 0.5 of the argument, and on a tie it is even |
| Numbers.RoundHalfEvenUnique | CSV_report.py:124 | those two properties leave no other integer, so they pin down Python's `round` |
| Numbers.RoundingLaw | CSV_report.py:131 | 1.5 rounds to 2, 2.5 rounds to 2 and 0 rounds to 0 |
| Text.WithoutPercent | CSV_report.py:47 | the result has no `%`, is no longer than the text, and equals the text when it held no `%` |
| Text.WithoutPercentChar | CSV_report.py:47 | a single `%` is dropped and any other single character is kept |
| Text.WithoutPercentAppend | CSV_report.py:47 | removing `%` from two texts joined is removing it from each and joining the results, so every other character is kept, in order |
| Text.Strip | CSV_report.py:44 | the stripped text neither starts nor ends with white space |
| Text.StripRemovesOnlySpace | CSV_report.py:44 | the stripped text is one contiguous piece of the text, and everything cut off on either side is white space |
| Text.StripPadded | CSV_report.py:44 | white space added on either side of a text that neither starts nor ends with white space is exactly what is stripped |
| Text.StrLeTotal | CSV_report.py:117 | any two strings are comparable |
| Text.StrLeAntisymmetric | CSV_report.py:117 | two strings each not above the other are equal |
| Text.StrLeTransitive | CSV_report.py:117 | string order is transitive |
| Sequences.FirstIndexOf | CSV_report.py:91 | the position found holds the value, and no earlier position does |
| Resolution.Remove | CSV_report.py:91 | `list.remove` deletes the first position holding the value and no other, so the list is one shorter and holds one copy fewer of the value |
| Resolution.RemoveKeepsOrder | CSV_report.py:91 | the records `list.remove` keeps stay in their order |
| Resolution.RemoveAt | CSV_report.py:91 | when no earlier position holds the value at position `p`, `list.remove` deletes exactly position `p` |
| Resolution.Scan | CSV_report.py:84-92 | the records left by one pass and the records it matched together make up the list; every match has the region's name and gets the entry's code |
| Resolution.ScanKeepsOrder | CSV_report.py:84-92 | the records one pass leaves keep their order |
| Resolution.ScanMatchesFirst | CSV_report.py:84-92 | the first record named like the entry is matched and removed, and the pass goes on at the position after it in the shortened list |
| Resolution.ScanKeepsPassed | CSV_report.py:84-92 | records the iterator has already passed are still in the list after the pass |
| Resolution.ScanLeavesOthers | CSV_report.py:84-92 | every record not named like the entry is still in the list after the pass |
| Resolution.ScanTakesAllWhenApart | CSV_report.py:84-92 | when no two records named like the entry are next to each other, the pass removes all of them: the records left are exactly the others |
| Resolution.MatchAll | CSV_report.py:82-92 | after all passes the list holds only `Record`s |
| Resolution.MatchAllSplitsRecords | CSV_report.py:81-92 | every input record is either left in the list or matched, never both and never lost; the leftovers keep their order; every match comes from a table entry named like its region |
| Resolution.Leftovers | CSV_report.py:93-98 | every leftover record, in list order, is given `XXX` |
| Resolution.Resolve | CSV_report.py:81-99 | the new list holds only `RecordCountry`s |
| Resolution.ResolutionIsPermutation | CSV_report.py:81-98 | the records behind the new list are the input records with their multiplicities: each takes exactly one of the two append paths |
| Resolution.ResolutionCodes | CSV_report.py:85-98 | a record's code is `XXX` or the code of a table entry named like its region; a record whose region names no entry gets `XXX` |
| Resolution.ResolveKeepsRecords | CSV_report.py:81-99 | the new list has the old length and the same multiset of (date, impressions, CTR) triples |
| Resolution.ResolveCountries | CSV_report.py:88-95 | every code is `XXX` or a code from the table, so a table without empty codes yields no empty code |
| Resolution.SkipsRecordAfterMatch | CSV_report.py:84-93 | in any list, the record right after the first record named like the entry is skipped by the pass: it stays in the list, even when it has that name, and with only that entry in the table it gets `XXX` |
| Records.CoresPermutation | CSV_report.py:87-97 | two lists with the same records in any order have the same (date, impressions, CTR) triples |
| Sorting.KeyLeBothWays | CSV_report.py:117-118 | two records compare equal under a sort key exactly when their keys are equal |
| Sorting.InsertFirst | CSV_report.py:117-118 | inserting adds exactly the one record |
| Sorting.SortBy | CSV_report.py:117-118 | `list.sort` by a key permutes the list |
| Sorting.SortBySorted | CSV_report.py:117-118 | the sorted list is in ascending key order |
| Sorting.SortByStable | CSV_report.py:117-118 | records with equal keys keep their input order |
| Sorting.SortByDateReportSorted | CSV_report.py:117-118 | sorting by date a list sorted by country gives (date, country) order |
| Sorting.SortForReport | CSV_report.py:117-118 | the two sorts together give a permutation of the input in (date, country) order, in which each (date, country) group keeps its input order |
| Aggregation.Aggregate | CSV_report.py:119-131 | the output always has a row, and on an empty list it is exactly `[(None, "", 0, 0)]` |
| Aggregation.FoldKeepsImpressions | CSV_report.py:119-130 | the rows emitted plus the running group hold every impression seen |
| Aggregation.AggregateKeepsImpressions | CSV_report.py:119-131 | the rows' impressions add up to the records' impressions |
| Aggregation.StepSameKey | CSV_report.py:127-130 | a record with the running key keeps the fold invariant: the output plus the running row is the report of what has been read |
| Aggregation.StepNewKey | CSV_report.py:123-130 | in a sorted list, a record with a new key keeps the fold invariant |
| Aggregation.FoldRowsInvariant | CSV_report.py:119-130 | on a sorted non-empty list with non-empty codes, the invariant holds after every record |
| Aggregation.AggregateSummarizes | CSV_report.py:119-131 | a sorted non-empty list gives one row per (date, country) key present, in strictly ascending order, each with its group's impressions and `round(sum(impressions * CTR) / 100)` clicks |
| Aggregation.TotalOfSameCores | CSV_report.py:119-131 | the total impressions depend only on the multiset of (date, impressions, CTR) triples |
| Aggregation.Report | CSV_report.py:117-131 | the report of any list has at least one row |
| Aggregation.ReportKeepsImpressions | CSV_report.py:117-131 | in any input order, the report's impressions add up to the records' impressions |
| Aggregation.ReportSummarizes | CSV_report.py:117-131 | in any input order, the report of a non-empty list is one row per key present, ascending, with each group's totals |
| Aggregation.ReportRowForKey | CSV_report.py:117-131 | a key has a row exactly when some record has that key, and the row holds the key's totals |
| CsvReport.Reporter.constructor | CSV_report.py:28-30 | both lists start empty |
| CsvReport.Reporter.LoadRow | CSV_report.py:64-67 | given `isFormatOk`'s verdict on each row, the record of row `i` is appended to `Records` when the row is accepted, and nothing changes otherwise |
| CsvReport.Reporter.LoadRows | CSV_report.py:63-67 | `Records` becomes its old value followed by the accepted records of the rows, in row order |
| CsvReport.Reporter.FindCountryCode | CSV_report.py:71-99 | the nested loop, with removal during iteration, then the leftover loop, leaves `Records` equal to `Resolve` of its old value |
| CsvReport.Reporter.SaveCSV | CSV_report.py:101-105 | the rows written are `output`, which is then emptied |
| CsvReport.Reporter.ReformatAndSave | CSV_report.py:107-132 | `Records` ends sorted by country and then by date, the rows written are `Report` of the old records, and `output` ends empty |
| CsvReport.Reporter.Run | CSV_report.py:134-142 | `Records` ends as the old records followed by the accepted rows, resolved, then sorted by country and then by date; the rows written are the report of those resolved records; `output` ends empty |
| CsvReport.Loaded | CSV_report.py:140-141 | the records a run starting from an empty `Reporter` reports on are all `RecordCountry`s |
| CsvReport.RunKeepsImpressions | CSV_report.py:134-142 | a run's rows hold every impression of every accepted row, whatever the regions resolve to |
| CsvReport.RunSummarizes | CSV_report.py:134-142 | with some row accepted and no empty code in the table, a run writes one row per (date, country) key, ascending, each with its group's totals |
| CsvReport.RunWithNothingAccepted | CSV_report.py:134-142 | a file with no accepted row still yields the single row `(None, "", 0, 0)` |

## Left out

- File input (CSV_report.py:55-62, 68-69) is not modelled: opening the file with `utf-8-sig`, the byte-order mark, `csv.reader` splitting lines into fields, and `sys.exit` on `csv.Error`. The model starts from the rows already split into fields.
- File output (CSV_report.py:101-104) is not modelled: the file `raportByCountry.csv` and `csv.writer`. `SaveCSV` returns the rows it would write and then empties `output`. The dates in those rows are `Date` values, not formatted text.
- The `__main__` entry point (CSV_report.py:145-147) is not modelled.
- The message printed to standard error for a refused row (CSV_report.py:51) is not modelled.
- `ftfy.fix_text`, `float()` and `pycountry.subdivisions` are parameters of the model, not models of those libraries.
- Floating point is not modelled. CTR values and the sum of `impressions * CTR` are exact reals, so rounding and summation-order effects of binary floats are not captured.
- CsvReport.Reporter.Run, CsvReport.Reporter.ReformatAndSave: the overflow of Python floats is not modelled. In the source, `int()` reads impressions of any size up to its limit of 4300 digits. At CSV_report.py:129, `record.impressions*record.CTR` must turn the impressions into a float, and a value of 2^1024 or more (309 digits or more) does not fit. That raises `OverflowError`, even when CTR is 0. A float sum of clicks that reaches infinity makes `round(clicks/100)` raise `OverflowError` at CSV_report.py:124 or 131. Neither error is caught, so the run stops before `saveCSV`. The model computes with unbounded integers and exact reals, so it reports these inputs: `Run` still ensures that the written rows equal `Report` of the loaded records, and `CsvReport.RunKeepsImpressions` counts their impressions.
- Special values from `float()` are not modelled: `parseFloat` yields only real numbers. Infinities would be refused by the range check (CSV_report.py:48). A NaN CTR passes that check, because both comparisons are false, so the row is kept. Its clicks are then NaN, and `round()` at CSV_report.py:124 or 131 raises `ValueError`. That error is not caught, so the run stops before `saveCSV`.
- Numbers.ParseInt: reads ASCII digits only. Python's `int()` also accepts the other Unicode decimal digits, and it raises `ValueError` on more than 4300 digits. Neither is modelled. White space follows `int()`'s rule, not `str.isspace`: U+001C to U+001F are not white space here.
- Dates.ParseDate: reads ASCII digits only. In the `%d` and `%Y` fields `strptime` also matches the other Unicode decimal digits, and that is not modelled.
- CsvReport.Reporter.FindCountryCode, CsvReport.Reporter.ReformatAndSave, CsvReport.Reporter.Run: these require `Records` to hold only `Record`s (before resolution) or only `RecordCountry`s (before the sort). A list that mixes the two is not modelled. In the source it raises `AttributeError`: at CSV_report.py:85 when `record.state` is read from a `RecordCountry`, and at CSV_report.py:117 when `attrgetter('country')` meets a `Record`. A second `run` on the same `Reporter`, after a first run kept a row, reaches that state. The entry point at CSV_report.py:145-147 uses a fresh `Reporter`, so it never does.
- Rows with fewer than four fields are not modelled: the model makes four fields a precondition. In the source, such a row crashes with `IndexError` only when every field it has passes its check, so that the code reaches the missing field. Examples are the empty row and a row with only a valid date. The `IndexError` escapes `except ValueError`. A short row with a bad date is refused instead, as `strptime` raises `ValueError` first.
- Aggregation.AggregateSummarizes, Aggregation.ReportSummarizes, Aggregation.ReportRowForKey, Aggregation.FoldRowsInvariant, Aggregation.StepNewKey and CsvReport.RunSummarizes: these assume that no record has an empty country code. With an empty code, the source's `if country` test merges groups, and the properties do not hold. `CsvReport.RunSummarizes` gets that assumption from a table without empty codes.
- CsvReport.Reporter.ReformatAndSave: the two in-place `list.sort` calls are modelled as reassigning `Records` to the value `SortBy` computes (a stable insertion sort). The comparisons and moves of Python's sort algorithm are not modelled.
