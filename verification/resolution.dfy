/**
 * Region-to-country resolution, `Reporter.findCountryCode` (CSV_report.py:71-99),
 * as functions on values; the class method in reporter.dfy runs the same
 * loops and is proved equal to `Resolve`.
 *
 * For each subdivision in table order the source walks `self.Records` with
 * Python's list iterator, which keeps an index and advances it by one per
 * step, and calls `self.Records.remove(record)` on a match. `remove` drops the
 * FIRST element equal to `record`. After a removal the list shifts left behind
 * the iterator, so the record right after the matched one is skipped in that
 * pass. Records left in the list at the end
 * get the code `XXX`.
 */
module Resolution {
  import opened Records
  import opened Sequences

  /** A record and the code it is given. */
  datatype Assignment = Assignment(record: Row, code: string)

  function Origins(xs: seq<Assignment>): (rs: seq<Row>)
    ensures |rs| == |xs| && forall i :: 0 <= i < |xs| ==> rs[i] == xs[i].record
  {
    if xs == [] then [] else [xs[0].record] + Origins(xs[1..])
  }

  /** The `RecordCountry` built for an assignment (lines 87-90 and 94-97). */
  function Relabel(a: Assignment): Row {
    RecordCountry(a.record.date, a.code, a.record.impressions, a.record.ctr)
  }

  function Relabeled(xs: seq<Assignment>): (rs: seq<Row>)
    ensures |rs| == |xs| && forall i :: 0 <= i < |xs| ==> rs[i] == Relabel(xs[i])
  {
    if xs == [] then [] else [Relabel(xs[0])] + Relabeled(xs[1..])
  }

  lemma RelabeledSnoc(xs: seq<Assignment>, a: Assignment)
    ensures Relabeled(xs + [a]) == Relabeled(xs) + [Relabel(a)]
  {
  }

  /** The assignments of the second loop (lines 93-98): every leftover gets `XXX`. */
  function Leftovers(rs: seq<Row>): (xs: seq<Assignment>)
    ensures |xs| == |rs| && forall i :: 0 <= i < |rs| ==> xs[i] == Assignment(rs[i], Unknown)
  {
    if rs == [] then [] else [Assignment(rs[0], Unknown)] + Leftovers(rs[1..])
  }

  lemma LeftoversPrefix(rs: seq<Row>, k: nat)
    requires k < |rs|
    ensures Leftovers(rs[..k + 1]) == Leftovers(rs[..k]) + [Assignment(rs[k], Unknown)]
  {
    var longer, shorter := Leftovers(rs[..k + 1]), Leftovers(rs[..k]) + [Assignment(rs[k], Unknown)];
    forall j | 0 <= j < k + 1
      ensures longer[j] == shorter[j]
    {
      if j < k {
        assert rs[..k + 1][j] == rs[..k][j];
      }
    }
  }

  /** `a` is what remains of `b` after deleting some of its elements; the rest keep their order. */
  predicate Subsequence(a: seq<Row>, b: seq<Row>)
    decreases |b|
  {
    if b == [] then a == []
    else (a != [] && a[0] == b[0] && Subsequence(a[1..], b[1..])) || Subsequence(a, b[1..])
  }

  lemma {:induction false} SubsequenceOfDeletion(p: seq<Row>, x: Row, q: seq<Row>)
    ensures Subsequence(p + q, p + [x] + q)
    decreases |p|
  {
    if p == [] {
      SubsequenceReflexive(q);
      assert p + q == q && p + [x] + q == [x] + q;
      assert ([x] + q)[1..] == q;
    } else {
      SubsequenceOfDeletion(p[1..], x, q);
      assert (p + q)[1..] == p[1..] + q;
      assert (p + [x] + q)[1..] == p[1..] + [x] + q;
    }
  }

  lemma {:induction false} SubsequenceReflexive(s: seq<Row>)
    ensures Subsequence(s, s)
  {
    if s != [] {
      SubsequenceReflexive(s[1..]);
    }
  }

  lemma {:induction false} SubsequenceTransitive(a: seq<Row>, b: seq<Row>, c: seq<Row>)
    requires Subsequence(a, b) && Subsequence(b, c)
    ensures Subsequence(a, c)
    decreases |c|
  {
    if c != [] {
      if b != [] && b[0] == c[0] && Subsequence(b[1..], c[1..]) {
        if a != [] && a[0] == b[0] && Subsequence(a[1..], b[1..]) {
          SubsequenceTransitive(a[1..], b[1..], c[1..]);
        } else {
          SubsequenceTransitive(a, b[1..], c[1..]);
        }
      } else {
        SubsequenceTransitive(a, b, c[1..]);
      }
    }
  }

  /** `list.remove(x)`: the first element equal to `x` is dropped, the others keep their order. */
  function Remove(s: seq<Row>, x: Row): (r: seq<Row>)
    requires x in s
    ensures exists k :: 0 <= k < |s| && s[k] == x && x !in s[..k] && r == s[..k] + s[k + 1..]
    ensures |r| == |s| - 1
    ensures multiset(r) + multiset{x} == multiset(s)
    ensures forall y <- r :: y in s
  {
    var k := FirstIndexOf(s, x);
    assert s == s[..k] + [x] + s[k + 1..];
    s[..k] + s[k + 1..]
  }

  /** `list.remove` keeps the other elements in their order. */
  lemma RemoveKeepsOrder(s: seq<Row>, x: Row)
    requires x in s
    ensures Subsequence(Remove(s, x), s)
  {
    var k := FirstIndexOf(s, x);
    assert s == s[..k] + [x] + s[k + 1..];
    SubsequenceOfDeletion(s[..k], x, s[k + 1..]);
  }

  /** Removing the element at `p`, when no earlier element equals it. */
  lemma RemoveAt(s: seq<Row>, p: nat)
    requires p < |s| && s[p] !in s[..p]
    ensures Remove(s, s[p]) == s[..p] + s[p + 1..]
  {
    FirstIndexAtMost(s, p);
  }

  /** One pass of the inner loop (lines 84-92) for subdivision `sub`, from
      iterator position `i`: the list left afterwards and the records matched. */
  function Scan(sub: Subdivision, s: seq<Row>, i: nat): (res: (seq<Row>, seq<Assignment>))
    requires Unresolved(s)
    ensures Unresolved(res.0)
    ensures multiset(res.0) + multiset(Origins(res.1)) == multiset(s)
    ensures forall a <- res.1 :: a.record.Record? && a.record.state == sub.name && a.code == sub.alpha3
    decreases |s| - i
  {
    if i >= |s| then
      (s, [])
    else if sub.name == s[i].state then
      var rest := Remove(s, s[i]);
      var next := Scan(sub, rest, i + 1);
      var a := Assignment(s[i], sub.alpha3);
      assert Origins([a] + next.1) == [s[i]] + Origins(next.1);
      (next.0, [a] + next.1)
    else
      Scan(sub, s, i + 1)
  }

  /** A pass keeps the records it leaves in their order. */
  lemma {:induction false} ScanKeepsOrder(sub: Subdivision, s: seq<Row>, i: nat)
    requires Unresolved(s)
    ensures Subsequence(Scan(sub, s, i).0, s)
    decreases |s| - i
  {
    if i >= |s| {
      SubsequenceReflexive(s);
    } else if sub.name == s[i].state {
      var rest := Remove(s, s[i]);
      ScanKeepsOrder(sub, rest, i + 1);
      RemoveKeepsOrder(s, s[i]);
      SubsequenceTransitive(Scan(sub, rest, i + 1).0, rest, s);
    } else {
      ScanKeepsOrder(sub, s, i + 1);
    }
  }

  /** The record was matched by a table entry: one whose name is the record's
      region and whose code is the one assigned. */
  predicate FromTable(a: Assignment, subdivisions: seq<Subdivision>) {
    a.record.Record? && exists sub :: sub in subdivisions && sub.name == a.record.state && sub.alpha3 == a.code
  }

  lemma MatchedByFirst(xs: seq<Assignment>, subdivisions: seq<Subdivision>)
    requires subdivisions != []
    requires forall a <- xs :: a.record.Record? && a.record.state == subdivisions[0].name && a.code == subdivisions[0].alpha3
    ensures forall a <- xs :: FromTable(a, subdivisions)
  {
    assert subdivisions[0] in subdivisions;
  }

  lemma MatchedByLater(xs: seq<Assignment>, subdivisions: seq<Subdivision>)
    requires subdivisions != []
    requires forall a <- xs :: FromTable(a, subdivisions[1..])
    ensures forall a <- xs :: FromTable(a, subdivisions)
  {
    forall a <- xs ensures FromTable(a, subdivisions) {
      var t :| t in subdivisions[1..] && t.name == a.record.state && t.alpha3 == a.code;
      assert t in subdivisions;
    }
  }

  /** The outer loop (lines 82-92): the list left after every subdivision has
      had its pass, and all matches in the order they were made. */
  function MatchAll(subdivisions: seq<Subdivision>, s: seq<Row>): (res: (seq<Row>, seq<Assignment>))
    requires Unresolved(s)
    ensures Unresolved(res.0)
  {
    if subdivisions == [] then (s, [])
    else
      var first := Scan(subdivisions[0], s, 0);
      var rest := MatchAll(subdivisions[1..], first.0);
      (rest.0, first.1 + rest.1)
  }

  lemma OriginsAppend(xs: seq<Assignment>, ys: seq<Assignment>)
    ensures Origins(xs + ys) == Origins(xs) + Origins(ys)
  {
  }

  /** After all passes, every input record is either still in the list or
      among the matches, never both and never lost; the records still in the
      list keep their original relative order; and every match was made by a
      table entry named like the record's region. */
  lemma {:induction false} MatchAllSplitsRecords(subdivisions: seq<Subdivision>, s: seq<Row>)
    requires Unresolved(s)
    ensures var res := MatchAll(subdivisions, s);
      && multiset(res.0) + multiset(Origins(res.1)) == multiset(s)
      && Subsequence(res.0, s)
      && forall a <- res.1 :: FromTable(a, subdivisions)
  {
    if subdivisions == [] {
      SubsequenceReflexive(s);
    } else {
      var first := Scan(subdivisions[0], s, 0);
      var rest := MatchAll(subdivisions[1..], first.0);
      MatchAllSplitsRecords(subdivisions[1..], first.0);
      ScanKeepsOrder(subdivisions[0], s, 0);
      SubsequenceTransitive(rest.0, first.0, s);
      OriginsAppend(first.1, rest.1);
      MatchedByFirst(first.1, subdivisions);
      MatchedByLater(rest.1, subdivisions);
    }
  }

  /** Every record with the code it ends up with, in the order of the new list. */
  function Assignments(subdivisions: seq<Subdivision>, s: seq<Row>): seq<Assignment>
    requires Unresolved(s)
  {
    var matched := MatchAll(subdivisions, s);
    matched.1 + Leftovers(matched.0)
  }

  /** The list `findCountryCode` leaves in `self.Records`. */
  function Resolve(subdivisions: seq<Subdivision>, s: seq<Row>): (rs: seq<Row>)
    requires Unresolved(s)
    ensures Resolved(rs)
  {
    Relabeled(Assignments(subdivisions, s))
  }

  /** Every input record is resolved exactly once: the records behind the
      result are the input records, with their multiplicities. */
  lemma ResolutionIsPermutation(subdivisions: seq<Subdivision>, s: seq<Row>)
    requires Unresolved(s)
    ensures multiset(Origins(Assignments(subdivisions, s))) == multiset(s)
  {
    var matched := MatchAll(subdivisions, s);
    var left := Leftovers(matched.0);
    MatchAllSplitsRecords(subdivisions, s);
    assert Origins(left) == matched.0;
    OriginsAppend(matched.1, left);
  }

  /** A record's code is `XXX` or the code of a subdivision named like its
      region; a record whose region names no subdivision gets `XXX`. */
  lemma ResolutionCodes(subdivisions: seq<Subdivision>, s: seq<Row>)
    requires Unresolved(s)
    ensures forall a <- Assignments(subdivisions, s) :: a.record.Record?
    ensures forall a <- Assignments(subdivisions, s) :: a.code == Unknown || FromTable(a, subdivisions)
    ensures forall a <- Assignments(subdivisions, s) ::
              (forall sub <- subdivisions :: sub.name != a.record.state) ==> a.code == Unknown
  {
    var matched := MatchAll(subdivisions, s);
    MatchAllSplitsRecords(subdivisions, s);
    forall a <- Assignments(subdivisions, s)
      ensures a.record.Record? && (a.code == Unknown || FromTable(a, subdivisions))
    {
      if a !in matched.1 {
        var i :| 0 <= i < |Leftovers(matched.0)| && Leftovers(matched.0)[i] == a;
        assert a.record in matched.0;
      }
    }
  }

  /** The new list has as many records as the old one, all of them
      `RecordCountry`s, and the same `(date, impressions, CTR)` triples. */
  lemma ResolveKeepsRecords(subdivisions: seq<Subdivision>, s: seq<Row>)
    requires Unresolved(s)
    ensures Resolved(Resolve(subdivisions, s))
    ensures |Resolve(subdivisions, s)| == |s|
    ensures multiset(Cores(Resolve(subdivisions, s))) == multiset(Cores(s))
  {
    var xs := Assignments(subdivisions, s);
    ResolutionIsPermutation(subdivisions, s);
    assert Cores(Relabeled(xs)) == Cores(Origins(xs));
    CoresPermutation(Origins(xs), s);
    assert |multiset(Origins(xs))| == |multiset(s)|;
  }

  /** Every country code in the new list is `XXX` or a code from the table, so
      a table without empty codes gives no empty codes. */
  lemma ResolveCountries(subdivisions: seq<Subdivision>, s: seq<Row>)
    requires Unresolved(s)
    ensures forall r <- Resolve(subdivisions, s) ::
              r.RecordCountry? && (r.country == Unknown || exists sub :: sub in subdivisions && sub.alpha3 == r.country)
    ensures (forall sub <- subdivisions :: sub.alpha3 != "") ==> forall r <- Resolve(subdivisions, s) :: r.country != ""
  {
    ResolutionCodes(subdivisions, s);
    var xs := Assignments(subdivisions, s);
    forall r <- Resolve(subdivisions, s)
      ensures r.RecordCountry? && (r.country == Unknown || exists sub :: sub in subdivisions && sub.alpha3 == r.country)
    {
      var i :| 0 <= i < |xs| && Relabeled(xs)[i] == r;
      assert xs[i] in xs;
    }
  }

  /** Positions `i` up to `p` hold no record for the region: the pass moves
      past them without changing anything. */
  lemma {:induction false} ScanPassesOver(sub: Subdivision, s: seq<Row>, i: nat, p: nat)
    requires Unresolved(s)
    requires i <= p <= |s|
    requires forall j :: i <= j < p ==> s[j].state != sub.name
    ensures Scan(sub, s, i) == Scan(sub, s, p)
    decreases p - i
  {
    if i < p {
      ScanSkipStep(sub, s, i);
      ScanPassesOver(sub, s, i + 1, p);
    }
  }

  /** The first record of the list named like the entry. */
  predicate FirstNamed(sub: Subdivision, s: seq<Row>, p: nat)
    requires Unresolved(s)
  {
    p < |s| && s[p].state == sub.name && forall j :: 0 <= j < p ==> s[j].state != sub.name
  }

  /** The first record named like the entry is always matched, and it is the
      pass's first match; the pass then goes on at the next position of the
      shortened list, where the record that followed the match now sits one
      place further back. */
  lemma ScanMatchesFirst(sub: Subdivision, s: seq<Row>, p: nat)
    requires Unresolved(s) && FirstNamed(sub, s, p)
    ensures var rest := s[..p] + s[p + 1..];
            Scan(sub, s, 0) == (Scan(sub, rest, p + 1).0, [Assignment(s[p], sub.alpha3)] + Scan(sub, rest, p + 1).1)
  {
    ScanPassesOver(sub, s, 0, p);
    assert s[p] !in s[..p] by {
      forall j | 0 <= j < p ensures s[..p][j] != s[p] {
        assert s[..p][j].state != sub.name;
      }
    }
    RemoveAt(s, p);
    var rest, k := ScanMatchStep(sub, s, p);
  }

  /** A pass never takes out the records in front of its position: they all
      stay in the list, whatever the later removals take. */
  lemma {:induction false} ScanKeepsPassed(sub: Subdivision, t: seq<Row>, i: nat)
    requires Unresolved(t) && i <= |t|
    ensures forall j :: 0 <= j < i ==> t[j] in Scan(sub, t, i).0
    decreases |t| - i
  {
    if i == |t| {
      assert Scan(sub, t, i).0 == t;
    } else if sub.name == t[i].state {
      var rest, k := ScanMatchStep(sub, t, i);
      if i + 1 < |t| {
        ScanKeepsPassed(sub, rest, i + 1);
      }
      PassedSurviveRemoval(t, i, k, rest, Scan(sub, t, i).0);
    } else {
      ScanSkipStep(sub, t, i);
      ScanKeepsPassed(sub, t, i + 1);
    }
  }

  /** A match at `i` removes the first copy of the record, found at or before
      `i`, and the pass goes on from `i + 1` in the shortened list. */
  lemma ScanMatchStep(sub: Subdivision, t: seq<Row>, i: nat) returns (rest: seq<Row>, k: nat)
    requires Unresolved(t) && i < |t| && sub.name == t[i].state
    ensures rest == Remove(t, t[i]) && Unresolved(rest)
    ensures k <= i && t[k] == t[i] && rest == t[..k] + t[k + 1..]
    ensures Scan(sub, t, i) == (Scan(sub, rest, i + 1).0, [Assignment(t[i], sub.alpha3)] + Scan(sub, rest, i + 1).1)
    ensures i + 1 == |t| ==> Scan(sub, rest, i + 1) == (rest, [])
  {
    rest := Remove(t, t[i]);
    k := FirstIndexOf(t, t[i]);
    FirstIndexAtMost(t, i);
  }

  /** A record named otherwise is passed over. */
  lemma ScanSkipStep(sub: Subdivision, t: seq<Row>, i: nat)
    requires Unresolved(t) && i < |t| && sub.name != t[i].state
    ensures Scan(sub, t, i) == Scan(sub, t, i + 1)
  {
  }

  /** Removing a copy, at or before `i`, of the element at `i` keeps every
      element in front of `i` among the first `i` elements of what is left;
      so if those are in `left`, all elements in front of `i` are. */
  lemma PassedSurviveRemoval(t: seq<Row>, i: nat, k: nat, rest: seq<Row>, left: seq<Row>)
    requires k <= i < |t| && t[k] == t[i] && rest == t[..k] + t[k + 1..]
    requires forall m :: 0 <= m < i ==> rest[m] in left
    ensures forall j :: 0 <= j < i ==> t[j] in left
  {
    forall j | 0 <= j < i
      ensures t[j] in left
    {
      if j < k {
        assert rest[j] == t[j];
      } else if j == k {
        assert rest[i - 1] == t[j];
      } else {
        assert rest[j - 1] == t[j];
      }
    }
  }

  /** The quirk of removing while iterating: the record right after the first
      match is never looked at in that pass, so it stays in the list even when
      it is named like the entry. */
  lemma SkipsRecordAfterMatch(sub: Subdivision, s: seq<Row>, p: nat)
    requires Unresolved(s) && FirstNamed(sub, s, p) && p + 1 < |s|
    ensures s[p + 1] in Scan(sub, s, 0).0
    ensures Assignment(s[p + 1], Unknown) in Assignments([sub], s)
  {
    var rest := s[..p] + s[p + 1..];
    ScanMatchesFirst(sub, s, p);
    ScanKeepsPassed(sub, rest, p + 1);
    assert rest[p] == s[p + 1];
    var left := Scan(sub, s, 0).0;
    assert MatchAll([sub], s).0 == left by {
      assert [sub][1..] == [];
    }
    var i :| 0 <= i < |left| && left[i] == s[p + 1];
    assert Leftovers(left)[i] == Assignment(s[p + 1], Unknown);
  }

  /** No two records next to each other from position `i` on are named `name`. */
  predicate NoAdjacentNamed(t: seq<Row>, name: string, i: nat)
    requires Unresolved(t)
  {
    forall j, k :: i <= j < |t| && k == j + 1 && k < |t| ==> t[j].state != name || t[k].state != name
  }

  lemma {:induction false} ScanClears(sub: Subdivision, t: seq<Row>, i: nat)
    requires Unresolved(t)
    requires forall j :: 0 <= j < i && j < |t| ==> t[j].state != sub.name
    requires NoAdjacentNamed(t, sub.name, i)
    ensures forall r <- Scan(sub, t, i).0 :: r.state != sub.name
    decreases |t| - i
  {
    if i < |t| {
      if sub.name == t[i].state {
        RemoveFirstNamed(t, i, sub.name);
        RemoveAt(t, i);
        var rest, k := ScanMatchStep(sub, t, i);
        ScanClears(sub, rest, i + 1);
      } else {
        ScanSkipStep(sub, t, i);
        ScanClears(sub, t, i + 1);
      }
    } else {
      forall r | r in t ensures r.state != sub.name {
        var j :| 0 <= j < |t| && t[j] == r;
      }
    }
  }

  /** Taking out a record for the region at `i`, with none in front of it and
      none right behind it, leaves no record for the region up to `i + 1`. */
  lemma RemoveFirstNamed(t: seq<Row>, i: nat, name: string)
    requires Unresolved(t) && i < |t| && t[i].state == name
    requires forall j :: 0 <= j < i ==> t[j].state != name
    requires NoAdjacentNamed(t, name, i)
    ensures t[i] !in t[..i]
    ensures var rest := t[..i] + t[i + 1..];
      && Unresolved(rest)
      && (forall j :: 0 <= j < i + 1 && j < |rest| ==> rest[j].state != name)
      && NoAdjacentNamed(rest, name, i + 1)
  {
    forall j | 0 <= j < i ensures t[..i][j] != t[i] {
      assert t[..i][j].state != name;
    }
    var rest := t[..i] + t[i + 1..];
    forall j | 0 <= j < i + 1 && j < |rest|
      ensures rest[j].state != name
    {
      if j == i {
        assert rest[j] == t[i + 1];
      } else {
        assert rest[j] == t[j];
      }
    }
    forall j, k | i + 1 <= j < |rest| && k == j + 1 && k < |rest|
      ensures rest[j].state != name || rest[k].state != name
    {
      assert rest[j] == t[j + 1] && rest[k] == t[k + 1];
    }
  }

  /** Without two records for the region next to each other, a pass matches
      every record for the region: what it leaves are exactly the records
      named otherwise. */
  lemma ScanTakesAllWhenApart(sub: Subdivision, s: seq<Row>)
    requires Unresolved(s) && NoAdjacentNamed(s, sub.name, 0)
    ensures forall r :: r in Scan(sub, s, 0).0 <==> r in s && r.state != sub.name
  {
    ScanClears(sub, s, 0);
    ScanLeavesOthers(sub, s);
    var res := Scan(sub, s, 0);
    forall r | r in res.0
      ensures r in s
    {
      assert multiset(res.0)[r] > 0;
      assert multiset(s)[r] == multiset(res.0)[r] + multiset(Origins(res.1))[r];
    }
  }

  /** A record named otherwise is never matched by the pass: it stays. */
  lemma ScanLeavesOthers(sub: Subdivision, s: seq<Row>)
    requires Unresolved(s)
    ensures forall r <- s :: r.state != sub.name ==> r in Scan(sub, s, 0).0
  {
    var res := Scan(sub, s, 0);
    forall r | r in s && r.state != sub.name
      ensures r in res.0
    {
      assert r in multiset(s);
    }
  }
}
