/**
 * Positions in a sequence, shared by the date splitter (`str` search for `/`)
 * and by `list.remove`, which both look for the first occurrence of a value.
 */
module Sequences {

  /** The first position of `s` holding `x`. */
  function FirstIndexOf<T(==)>(s: seq<T>, x: T): (k: nat)
    requires x in s
    ensures k < |s| && s[k] == x && x !in s[..k]
  {
    if s[0] == x then 0
    else
      var k := 1 + FirstIndexOf(s[1..], x);
      assert s[..k] == [s[0]] + s[1..][..k - 1];
      k
  }

  /** The first position holding the value at `i` is not after `i`. */
  lemma {:induction false} FirstIndexAtMost<T>(s: seq<T>, i: nat)
    requires i < |s|
    ensures FirstIndexOf(s, s[i]) <= i
  {
    if s[0] != s[i] {
      assert s[1..][i - 1] == s[i];
      FirstIndexAtMost(s[1..], i - 1);
    }
  }

  /** Where `x` first occurs, `FirstIndexOf` finds it. */
  lemma FirstIndexAt<T>(s: seq<T>, x: T, i: nat)
    requires i < |s| && s[i] == x && x !in s[..i]
    ensures FirstIndexOf(s, x) == i
  {
    FirstIndexAtMost(s, i);
    forall j | 0 <= j < i
      ensures s[j] != x
    {
      assert s[..i][j] == s[j];
    }
  }
}
