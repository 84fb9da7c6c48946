/**
 * The two numeric conversions of the report: Python's `int(text)` for the
 * impressions column (CSV_report.py:44) and Python's `round(x)` for the
 * clicks column (CSV_report.py:124, 131).
 */
module Numbers {
  import opened Wrappers
  import opened Text

  predicate IsDigit(c: char) { '0' <= c <= '9' }

  function DigitValue(c: char): (v: nat)
    requires IsDigit(c)
    ensures v < 10
  {
    (c as int) - ('0' as int)
  }

  function DigitChar(v: nat): (c: char)
    requires v < 10
    ensures IsDigit(c) && DigitValue(c) == v
  {
    ('0' as int + v) as char
  }

  /** The digits accepted by `int()` in base 10 once the sign is gone: at least
      one digit, and an underscore only singly between two digits. */
  predicate DigitGroups(d: string) {
    && DigitsOrSeparators(d)
    && |d| > 0
    && IsDigit(d[0]) && IsDigit(d[|d| - 1])
    && !DoubleSeparator(d)
  }

  predicate DoubleSeparator(d: string) {
    exists i, j :: 0 <= i < |d| && j == i + 1 && j < |d| && d[i] == '_' && d[j] == '_'
  }

  predicate DigitsOrSeparators(d: string) {
    forall i :: 0 <= i < |d| ==> IsDigit(d[i]) || d[i] == '_'
  }

  /** The value of a run of digits, underscores being separators only. */
  function DigitsValue(d: string): nat
    requires DigitsOrSeparators(d)
  {
    if d == [] then 0
    else if d[|d| - 1] == '_' then DigitsValue(d[..|d| - 1])
    else 10 * DigitsValue(d[..|d| - 1]) + DigitValue(d[|d| - 1])
  }

  /** The text after an optional leading sign. */
  function Unsigned(t: string): string {
    if t != [] && (t[0] == '-' || t[0] == '+') then t[1..] else t
  }

  /** `int(s)` on ASCII digits: surrounding white space is ignored, one optional
      sign, then digit groups; anything else is a `ValueError` (here `None`). */
  function ParseInt(s: string): (r: Option<int>)
    ensures r.Some? <==> DigitGroups(Unsigned(Strip(s)))
    ensures r.Some? && r.value < 0 ==> Strip(s)[0] == '-'
  {
    var t := Strip(s);
    var body := Unsigned(t);
    if DigitGroups(body) then
      var v: int := DigitsValue(body);
      Some(if t[0] == '-' then -v else v)
    else None
  }

  /** Python's `str(n)` for an integer: the shortest decimal digits, `-` first when negative. */
  function Decimal(n: int): string {
    if n < 0 then "-" + NaturalDigits(-n) else NaturalDigits(n)
  }

  function NaturalDigits(n: nat): (d: string)
    ensures d != [] && forall i :: 0 <= i < |d| ==> IsDigit(d[i])
  {
    if n < 10 then [DigitChar(n)] else NaturalDigits(n / 10) + [DigitChar(n % 10)]
  }

  lemma {:induction false} NaturalDigitsValue(n: nat)
    ensures DigitsValue(NaturalDigits(n)) == n
  {
    var d := NaturalDigits(n);
    if n >= 10 {
      assert d[..|d| - 1] == NaturalDigits(n / 10);
      NaturalDigitsValue(n / 10);
    } else {
      assert d[..|d| - 1] == [];
    }
  }

  lemma DigitIsNotSpace(c: char)
    requires IsDigit(c) || c == '-' || c == '+'
    ensures !IsSpace(c)
  {
  }

  lemma DecimalShape(n: int)
    ensures Strip(Decimal(n)) == Decimal(n)
    ensures Unsigned(Decimal(n)) == NaturalDigits(if n < 0 then -n else n)
    ensures n < 0 <==> Decimal(n)[0] == '-'
  {
    var d := NaturalDigits(if n < 0 then -n else n);
    var t := Decimal(n);
    assert t[|t| - 1] == d[|d| - 1];
    DigitIsNotSpace(t[0]);
    DigitIsNotSpace(t[|t| - 1]);
    StripUnchanged(t);
  }

  /** `int(str(n)) == n`: the decimal text of any integer is accepted by the
      impressions parser and read back as the same integer. */
  lemma ParseIntDecimal(n: int)
    ensures ParseInt(Decimal(n)) == Some(n)
  {
    var m := if n < 0 then -n else n;
    NaturalDigitsValue(m);
    AllDigitsGroups(NaturalDigits(m));
    DecimalShape(n);
  }

  function Pow10(k: nat): (p: nat)
    ensures p >= 1
  {
    if k == 0 then 1 else 10 * Pow10(k - 1)
  }

  /** How many digits, underscores aside, a run of digits has. */
  function DigitCount(d: string): (c: nat)
    ensures c <= |d|
  {
    if d == [] then 0
    else if d[|d| - 1] == '_' then DigitCount(d[..|d| - 1])
    else 1 + DigitCount(d[..|d| - 1])
  }

  /** One more character at the end: a digit shifts the value, an underscore changes nothing. */
  lemma DigitsValueSnoc(d: string, c: char)
    requires DigitsOrSeparators(d) && (IsDigit(c) || c == '_')
    ensures DigitsOrSeparators(d + [c])
    ensures DigitsValue(d + [c]) == if c == '_' then DigitsValue(d) else 10 * DigitsValue(d) + DigitValue(c)
    ensures DigitCount(d + [c]) == if c == '_' then DigitCount(d) else DigitCount(d) + 1
  {
    assert (d + [c])[..|d|] == d;
  }

  /** Digits written after others shift them by their count:
      the value of `a + b` is the value of `a` times ten to the number of
      digits of `b`, plus the value of `b`. */
  lemma {:induction false} DigitsValueAppend(a: string, b: string)
    requires DigitsOrSeparators(a) && DigitsOrSeparators(b)
    ensures DigitsOrSeparators(a + b)
    ensures DigitsValue(a + b) == DigitsValue(a) * Pow10(DigitCount(b)) + DigitsValue(b)
    decreases |b|
  {
    if b == [] {
      assert a + b == a;
    } else {
      var shorter, c := b[..|b| - 1], b[|b| - 1];
      assert b == shorter + [c];
      assert a + b == (a + shorter) + [c];
      DigitsValueAppend(a, shorter);
      DigitsValueSnoc(a + shorter, c);
      DigitsValueSnoc(shorter, c);
      if c != '_' {
        var va, p, vb := DigitsValue(a), Pow10(DigitCount(shorter)), DigitsValue(shorter);
        assert Pow10(DigitCount(b)) == 10 * p;
        Shift(va, p, vb, DigitValue(c));
      }
    }
  }

  lemma Shift(va: int, p: int, vb: int, digit: int)
    ensures 10 * (va * p + vb) + digit == va * (10 * p) + (10 * vb + digit)
  {
  }

  /** `k` zeros. */
  function Zeros(k: nat): (z: string)
    ensures |z| == k && forall i :: 0 <= i < k ==> z[i] == '0'
  {
    if k == 0 then [] else Zeros(k - 1) + "0"
  }

  lemma {:induction false} ZerosValue(k: nat)
    ensures DigitsOrSeparators(Zeros(k)) && DigitsValue(Zeros(k)) == 0
  {
    if k > 0 {
      ZerosValue(k - 1);
      DigitsValueSnoc(Zeros(k - 1), '0');
    }
  }

  lemma {:induction false} AllDigitsCount(d: string)
    requires AllDigits(d)
    ensures DigitCount(d) == |d|
  {
    if d != [] {
      AllDigitsCount(d[..|d| - 1]);
    }
  }

  lemma AllDigitsGroups(d: string)
    requires d != [] && AllDigits(d)
    ensures DigitGroups(d)
  {
    assert !DoubleSeparator(d) by {
      forall i | 0 <= i < |d| ensures d[i] != '_' {
        assert IsDigit(d[i]);
      }
    }
  }

  /** Text that strips to `t`, digit groups after an optional sign, is read
      as their value, negated after `-`. */
  lemma ParseIntValue(s: string, t: string)
    requires Strip(s) == t && DigitGroups(Unsigned(t))
    ensures ParseInt(s) == Some(if t[0] == '-' then -(DigitsValue(Unsigned(t)) as int) else DigitsValue(Unsigned(t)))
  {
  }

  /** A sign in front of digit groups: `Unsigned` takes it off again. */
  lemma SignSplit(t: string, sign: string, body: string)
    requires sign == "" || sign == "+" || sign == "-"
    requires t == sign + body && DigitGroups(body)
    ensures Unsigned(t) == body && (t[0] == '-' <==> sign == "-")
  {
    if sign == "" {
      assert t == body;
    } else {
      assert t[0] == sign[0] && t[1..] == body;
    }
  }

  lemma ParseIntOfGroups(s: string, sign: string, body: string, v: nat)
    requires sign == "" || sign == "+" || sign == "-"
    requires Strip(s) == sign + body && DigitGroups(body) && DigitsValue(body) == v
    ensures ParseInt(s) == Some(if sign == "-" then -(v as int) else v)
  {
    SignSplit(sign + body, sign, body);
    ParseIntValue(s, sign + body);
  }

  predicate AllDigits(d: string) {
    forall i :: 0 <= i < |d| ==> IsDigit(d[i])
  }

  /** A sign and digits with white space around them are read as the digits' value. */
  lemma ParseIntPadded(lead: string, sign: string, body: string, trail: string, v: nat)
    requires AllSpace(lead) && AllSpace(trail)
    requires sign == "" || sign == "+" || sign == "-"
    requires body != [] && AllDigits(body) && DigitsValue(body) == v
    ensures ParseInt(lead + sign + body + trail) == Some(if sign == "-" then -(v as int) else v)
  {
    var t := sign + body;
    assert lead + sign + body + trail == lead + t + trail;
    assert t[|t| - 1] == body[|body| - 1];
    DigitIsNotSpace(t[0]);
    DigitIsNotSpace(t[|t| - 1]);
    StripPadded(lead, t, trail);
    AllDigitsGroups(body);
    ParseIntOfGroups(lead + t + trail, sign, body, v);
  }

  /** Zeros in front of digits do not change their value. */
  lemma LeadingZeros(k: nat, d: string)
    requires d != [] && AllDigits(d)
    ensures Zeros(k) + d != [] && AllDigits(Zeros(k) + d)
    ensures DigitsValue(Zeros(k) + d) == DigitsValue(d)
  {
    var body := Zeros(k) + d;
    forall i | 0 <= i < |body| ensures IsDigit(body[i]) {
      if i >= k {
        assert body[i] == d[i - k];
      }
    }
    ZerosValue(k);
    DigitsValueAppend(Zeros(k), d);
    var p := Pow10(DigitCount(d));
    assert 0 * p == 0;
  }

  /** `int()` also reads text that `str(n)` would not write: white space on
      either side and a `+` sign change nothing, and `-` negates. */
  lemma ParseIntLenient(lead: string, sign: string, n: nat, trail: string)
    requires AllSpace(lead) && AllSpace(trail)
    requires sign == "" || sign == "+" || sign == "-"
    ensures ParseInt(lead + sign + NaturalDigits(n) + trail) == Some(if sign == "-" then -(n as int) else n)
  {
    NaturalDigitsValue(n);
    ParseIntPadded(lead, sign, NaturalDigits(n), trail, n);
  }

  /** Leading zeros are accepted and change nothing: `int("007") == 7`. */
  lemma ParseIntLeadingZeros(k: nat, n: nat)
    ensures ParseInt(Zeros(k) + NaturalDigits(n)) == Some(n as int)
  {
    LeadingZeros(k, NaturalDigits(n));
    NaturalDigitsValue(n);
    AllDigitsGroups(Zeros(k) + NaturalDigits(n));
    ParseIntUnpadded(Zeros(k) + NaturalDigits(n));
  }

  /** Two runs of digits joined by one underscore form digit groups with the
      value of the two runs written together. */
  lemma JoinGroups(x: string, y: string)
    requires x != [] && y != [] && AllDigits(x) && AllDigits(y)
    ensures DigitGroups(x + "_" + y) && DigitGroups(x + y)
    ensures DigitsValue(x + "_" + y) == DigitsValue(x + y)
  {
    var head := x + "_";
    var d := head + y;
    assert d == x + "_" + y;
    assert DigitsOrSeparators(head);
    assert d[0] == x[0] && d[|d| - 1] == y[|y| - 1];
    assert !DoubleSeparator(d) by {
      forall i, j | 0 <= i < |d| && j == i + 1 && j < |d| ensures d[i] != '_' || d[j] != '_' {
        if i < |x| {
          assert d[i] == x[i];
        } else if i > |x| {
          assert d[i] == y[i - |x| - 1];
        } else {
          assert d[j] == y[0];
        }
      }
    }
    assert AllDigits(x + y) by {
      forall i | 0 <= i < |x + y| ensures IsDigit((x + y)[i]) {
        if i >= |x| {
          assert (x + y)[i] == y[i - |x|];
        }
      }
    }
    AllDigitsGroups(x + y);
    assert head[..|head| - 1] == x;
    DigitsValueAppend(head, y);
    DigitsValueAppend(x, y);
  }

  /** A single underscore between two runs of digits is only a separator:
      `int("12_345") == int("12345")`. */
  lemma ParseIntGrouped(x: string, y: string)
    requires x != [] && y != [] && AllDigits(x) && AllDigits(y)
    ensures ParseInt(x + "_" + y) == ParseInt(x + y) != None
  {
    JoinGroups(x, y);
    ParseIntUnpadded(x + "_" + y);
    ParseIntUnpadded(x + y);
  }

  /** Digit groups with nothing around them are read as their value. */
  lemma ParseIntUnpadded(d: string)
    requires DigitGroups(d)
    ensures ParseInt(d) == Some(DigitsValue(d))
  {
    DigitIsNotSpace(d[0]);
    DigitIsNotSpace(d[|d| - 1]);
    StripUnchanged(d);
  }

  /** Python's `round(x)`: the nearest integer, a tie going to the even neighbour. */
  function RoundHalfEven(x: real): (n: int)
    ensures -0.5 <= x - n as real <= 0.5
    ensures (x - n as real == 0.5 || x - n as real == -0.5) ==> n % 2 == 0
  {
    var f := x.Floor;
    var frac := x - f as real;
    if frac < 0.5 then f
    else if frac > 0.5 then f + 1
    else if f % 2 == 0 then f
    else f + 1
  }

  /** The two ensures of RoundHalfEven leave no choice: any integer meeting them is the result. */
  lemma RoundHalfEvenUnique(x: real, m: int)
    requires -0.5 <= x - m as real <= 0.5
    requires (x - m as real == 0.5 || x - m as real == -0.5) ==> m % 2 == 0
    ensures RoundHalfEven(x) == m
  {
  }

  /** The rounding law: 1.5 rounds up to 2, 2.5 rounds down to 2. */
  lemma RoundingLaw()
    ensures RoundHalfEven(150.0 / 100.0) == 2
    ensures RoundHalfEven(250.0 / 100.0) == 2
    ensures RoundHalfEven(0.0 / 100.0) == 0
  {
    RoundHalfEvenUnique(150.0 / 100.0, 2);
    RoundHalfEvenUnique(250.0 / 100.0, 2);
    RoundHalfEvenUnique(0.0, 0);
  }
}
