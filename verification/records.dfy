/**
 * The values the report passes between its stages (CSV_report.py:12-13).
 *
 * `Record` and `RecordCountry` are the two named tuples of the source. The
 * field `Reporter.Records` holds `Record`s after loading and `RecordCountry`s
 * after region resolution, so both are constructors of one type `Row`;
 * `date`, `impressions` and `ctr` are shared by the two.
 */
module Records {
  import opened Wrappers
  import opened Dates

  datatype Row =
    | Record(date: Date, state: string, impressions: int, ctr: real)
    | RecordCountry(date: Date, country: string, impressions: int, ctr: real)

  /** One entry of the subdivision table: its display name and the alpha-3
      code of the country it belongs to (`state.name`, `state.country.alpha_3`). */
  datatype Subdivision = Subdivision(name: string, alpha3: string)

  /** One line of the output, `(lastDate, country, impresions, clicks)`;
      the date is `None` only in the line emitted for an empty report. */
  datatype OutputRow = OutputRow(date: Option<Date>, country: string, impressions: int, clicks: int)

  /** The code given to records whose region matches no subdivision. */
  const Unknown: string := "XXX"

  predicate Unresolved(s: seq<Row>) {
    forall r <- s :: r.Record?
  }

  predicate Resolved(s: seq<Row>) {
    forall r <- s :: r.RecordCountry?
  }

  /** What `isFormatOk` guarantees of a record it accepts. */
  predicate ValidRecord(r: Row) {
    ValidDate(r.date) && r.impressions >= 0 && 0.0 <= r.ctr <= 1.0
  }

  /** The `(date, impressions, CTR)` part of a record, which resolution keeps. */
  function Core(r: Row): (Date, int, real) {
    (r.date, r.impressions, r.ctr)
  }

  function Cores(s: seq<Row>): (c: seq<(Date, int, real)>)
    ensures |c| == |s|
    ensures forall i :: 0 <= i < |s| ==> c[i] == Core(s[i])
  {
    if s == [] then [] else [Core(s[0])] + Cores(s[1..])
  }

  lemma CoresAppend(a: seq<Row>, b: seq<Row>)
    ensures Cores(a + b) == Cores(a) + Cores(b)
  {
  }

  lemma AppendAssoc<T>(a: seq<T>, b: seq<T>, c: seq<T>)
    ensures a + (b + c) == (a + b) + c
  {
  }

  lemma AppendEmpty<T>(a: seq<T>)
    ensures a + [] == a && [] + a == a
  {
  }

  /** `b` with its element at `k` taken out. */
  function Without(b: seq<Row>, k: nat): (r: seq<Row>)
    requires k < |b|
    ensures |r| == |b| - 1
  {
    b[..k] + b[k + 1..]
  }

  lemma MultisetWithout(b: seq<Row>, k: nat)
    requires k < |b|
    ensures multiset(Without(b, k)) == multiset(b) - multiset{b[k]}
  {
    assert b == b[..k] + [b[k]] + b[k + 1..];
  }

  lemma {:induction false} CoresWithout(b: seq<Row>, k: nat)
    requires k < |b|
    ensures multiset(Cores(b)) == multiset(Cores(Without(b, k))) + multiset{Core(b[k])}
    ensures multiset(Cores(Without(b, k))) == multiset(Cores(b)) - multiset{Core(b[k])}
  {
    var b1, y, b2 := b[..k], b[k], b[k + 1..];
    assert b == b1 + [y] + b2;
    CoresAppend(b1 + [y], b2);
    CoresAppend(b1, [y]);
    CoresAppend(b1, b2);
    assert Cores([y]) == [Core(y)];
    assert multiset(Cores(b)) == multiset(Cores(Without(b, k))) + multiset{Core(y)};
  }

  /** Two lists holding the same records, in any order, hold the same cores. */
  lemma {:induction false} CoresPermutation(a: seq<Row>, b: seq<Row>)
    requires multiset(a) == multiset(b)
    ensures multiset(Cores(a)) == multiset(Cores(b))
    decreases |a|
  {
    if a != [] {
      var x := a[0];
      assert x in multiset(b);
      var k :| 0 <= k < |b| && b[k] == x;
      var a', b' := Without(a, 0), Without(b, k);
      assert multiset(a') == multiset(b') by {
        MultisetWithout(a, 0);
        MultisetWithout(b, k);
      }
      CoresPermutation(a', b');
      CoresWithout(a, 0);
      CoresWithout(b, k);
    }
  }
}
