/**
 * Text helpers used by the validator and the aggregator: the white space that
 * `int()` skips around a number, `str.replace("%", "")` and the code-point
 * order that Python uses to compare `str` values.
 */
module Text {

  /** The white space `int()` skips around a number. Characters below U+007F
      count as white space when C's `isspace` says so (tab to carriage return, and the
      space); the others as `str.isspace()` does, so U+001C to U+001F, which
      `str.isspace()` accepts, are not skipped. */
  predicate IsSpace(c: char) {
    || ('\t' <= c <= '\r')
    || c == ' '
    || c == '\U{85}' || c == '\U{A0}' || c == '\U{1680}'
    || ('\U{2000}' <= c <= '\U{200A}')
    || c == '\U{2028}' || c == '\U{2029}' || c == '\U{202F}' || c == '\U{205F}' || c == '\U{3000}'
  }

  function StripLeft(s: string): (r: string)
    ensures |r| <= |s| && r == s[|s| - |r|..]
    ensures r != [] ==> !IsSpace(r[0])
    ensures forall i :: 0 <= i < |s| - |r| ==> IsSpace(s[i])
  {
    if s != [] && IsSpace(s[0]) then StripLeft(s[1..]) else s
  }

  function StripRight(s: string): (r: string)
    ensures |r| <= |s| && r == s[..|r|]
    ensures r != [] ==> !IsSpace(r[|r| - 1])
    ensures forall i :: |r| <= i < |s| ==> IsSpace(s[i])
  {
    if s != [] && IsSpace(s[|s| - 1]) then StripRight(s[..|s| - 1]) else s
  }

  /** `str.strip()` as `int()` applies it: white space cut off both ends. */
  function Strip(s: string): (r: string)
    ensures r != [] ==> !IsSpace(r[0]) && !IsSpace(r[|r| - 1])
  {
    StripRight(StripLeft(s))
  }

  /** Only white space is stripped: what is left is a middle part of the
      text, and everything cut off on either side is white space. */
  lemma StripRemovesOnlySpace(s: string)
    ensures exists k :: StrippedAt(s, k, Strip(s))
  {
    var left := StripLeft(s);
    var r := StripRight(left);
    StrippedParts(s, left, r);
    assert StrippedAt(s, |s| - |left|, Strip(s));
  }

  /** A suffix of `s` after white space, then a prefix of that before white
      space: together a middle part of `s` with only white space around it. */
  lemma StrippedParts(s: string, left: string, r: string)
    requires |left| <= |s| && left == s[|s| - |left|..]
    requires forall i :: 0 <= i < |s| - |left| ==> IsSpace(s[i])
    requires |r| <= |left| && r == left[..|r|]
    requires forall i :: |r| <= i < |left| ==> IsSpace(left[i])
    ensures StrippedAt(s, |s| - |left|, r)
  {
    var k := |s| - |left|;
    assert r == s[k..k + |r|];
    forall i | k + |r| <= i < |s|
      ensures IsSpace(s[i])
    {
      assert s[i] == left[i - k];
    }
  }

  /** `r` is the part of `s` from position `k` on, and everything of `s`
      before it and after it is white space. */
  predicate StrippedAt(s: string, k: int, r: string) {
    && 0 <= k && k + |r| <= |s|
    && r == s[k..k + |r|]
    && (forall i :: 0 <= i < k ==> IsSpace(s[i]))
    && (forall i :: k + |r| <= i < |s| ==> IsSpace(s[i]))
  }

  predicate AllSpace(s: string) {
    forall i :: 0 <= i < |s| ==> IsSpace(s[i])
  }

  lemma {:induction false} StripLeftPadded(lead: string, t: string)
    requires AllSpace(lead)
    requires t != [] && !IsSpace(t[0])
    ensures StripLeft(lead + t) == t
    decreases |lead|
  {
    if lead == [] {
      assert lead + t == t;
    } else {
      assert (lead + t)[0] == lead[0] && (lead + t)[1..] == lead[1..] + t;
      StripLeftPadded(lead[1..], t);
    }
  }

  lemma {:induction false} StripRightPadded(t: string, trail: string)
    requires AllSpace(trail)
    requires t != [] && !IsSpace(t[|t| - 1])
    ensures StripRight(t + trail) == t
    decreases |trail|
  {
    if trail == [] {
      assert t + trail == t;
    } else {
      var shorter := trail[..|trail| - 1];
      assert (t + trail)[|t + trail| - 1] == trail[|trail| - 1];
      assert (t + trail)[..|t + trail| - 1] == t + shorter;
      StripRightPadded(t, shorter);
    }
  }

  /** White space added around a text that neither starts nor ends with it
      is stripped off again. */
  lemma StripPadded(lead: string, t: string, trail: string)
    requires AllSpace(lead) && AllSpace(trail)
    requires t != [] && !IsSpace(t[0]) && !IsSpace(t[|t| - 1])
    ensures Strip(lead + t + trail) == t
  {
    assert lead + t + trail == lead + (t + trail);
    StripLeftPadded(lead, t + trail);
    StripRightPadded(t, trail);
  }

  lemma StripUnchanged(s: string)
    requires s != [] ==> !IsSpace(s[0]) && !IsSpace(s[|s| - 1])
    ensures Strip(s) == s
  {
    if s != [] {
      StripPadded([], s, []);
      assert [] + s + [] == s;
    }
  }

  /** `s.replace("%", "")`: every percent sign removed, everything else kept in order. */
  function WithoutPercent(s: string): (r: string)
    ensures '%' !in r
    ensures |r| <= |s|
    ensures '%' !in s ==> r == s
  {
    if s == [] then []
    else if s[0] == '%' then WithoutPercent(s[1..])
    else [s[0]] + WithoutPercent(s[1..])
  }

  /** One character: a `%` disappears, any other character stays. */
  lemma WithoutPercentChar(c: char)
    ensures WithoutPercent([c]) == if c == '%' then [] else [c]
  {
  }

  /** The replacement works piecewise: on two joined texts it is the two
      results joined, so every other character is kept, in order. */
  lemma {:induction false} WithoutPercentAppend(a: string, b: string)
    ensures WithoutPercent(a + b) == WithoutPercent(a) + WithoutPercent(b)
  {
    if a != [] {
      assert (a + b)[0] == a[0] && (a + b)[1..] == a[1..] + b;
      WithoutPercentAppend(a[1..], b);
    } else {
      assert a + b == b;
    }
  }

  /** Python's `a <= b` on `str`: lexicographic on code points, a proper prefix first. */
  predicate StrLe(a: string, b: string) {
    if a == [] then true
    else if b == [] then false
    else if a[0] != b[0] then a[0] < b[0]
    else StrLe(a[1..], b[1..])
  }

  lemma {:induction false} StrLeReflexive(a: string)
    ensures StrLe(a, a)
  {
    if a != [] {
      StrLeReflexive(a[1..]);
    }
  }

  lemma {:induction false} StrLeTotal(a: string, b: string)
    ensures StrLe(a, b) || StrLe(b, a)
  {
    if a != [] && b != [] && a[0] == b[0] {
      StrLeTotal(a[1..], b[1..]);
    }
  }

  lemma {:induction false} StrLeAntisymmetric(a: string, b: string)
    requires StrLe(a, b) && StrLe(b, a)
    ensures a == b
  {
    if a != [] && b != [] {
      StrLeAntisymmetric(a[1..], b[1..]);
      assert a == [a[0]] + a[1..] && b == [b[0]] + b[1..];
    }
  }

  lemma {:induction false} StrLeTransitive(a: string, b: string, c: string)
    requires StrLe(a, b) && StrLe(b, c)
    ensures StrLe(a, c)
  {
    if a != [] && b != [] && c != [] && a[0] == b[0] && b[0] == c[0] {
      StrLeTransitive(a[1..], b[1..], c[1..]);
    }
  }
}
