/**
 * Character and string helpers.  `toLowerCase` / `str.lower()` are modelled by the
 * ASCII case mapping, and `localeCompare` by the lexicographic order on character codes.
 */
module Text {

  predicate IsUpper(c: char) { 'A' <= c <= 'Z' }

  function LowerChar(c: char): char
  {
    if IsUpper(c) then (c as int + 32) as char else c
  }

  /** The string with every upper-case ASCII letter replaced by its lower-case form. */
  function Lower(s: string): (r: string)
    ensures |r| == |s|
    ensures forall i :: 0 <= i < |s| ==> r[i] == LowerChar(s[i])
  {
    if s == [] then [] else [LowerChar(s[0])] + Lower(s[1..])
  }

  lemma LowerCharIdempotent(c: char)
    ensures LowerChar(LowerChar(c)) == LowerChar(c)
  {
  }

  lemma LowerIdempotent(s: string)
    ensures Lower(Lower(s)) == Lower(s)
  {
    assert forall i :: 0 <= i < |s| ==> Lower(Lower(s))[i] == Lower(s)[i] by {
      forall i | 0 <= i < |s| { LowerCharIdempotent(s[i]); }
    }
  }

  /** `Lower(s)` is `t` when they agree character by character. */
  lemma LowerIs(s: string, t: string)
    requires |s| == |t| && forall i :: 0 <= i < |s| ==> LowerChar(s[i]) == t[i]
    ensures Lower(s) == t
  {
  }

  /** Lowering commutes with taking a suffix. */
  lemma LowerSuffix(s: string, k: nat)
    requires k <= |s|
    ensures Lower(s)[k..] == Lower(s[k..])
  {
  }

  /** `needle` occurs in `hay` starting at position `k`. */
  predicate OccursAt(hay: string, needle: string, k: int)
  {
    0 <= k && k + |needle| <= |hay| && hay[k..k + |needle|] == needle
  }

  /** JavaScript's `hay.includes(needle)`. */
  predicate Contains(hay: string, needle: string)
  {
    exists k :: 0 <= k <= |hay| - |needle| && OccursAt(hay, needle, k)
  }

  lemma ContainsEmpty(hay: string)
    ensures Contains(hay, "")
  {
    assert OccursAt(hay, "", 0);
  }

  /** Three-way comparison of strings, standing in for `localeCompare`. */
  function StrCompare(a: string, b: string): (r: int)
    ensures -1 <= r <= 1
    decreases |a|
  {
    if a == [] && b == [] then 0
    else if a == [] then -1
    else if b == [] then 1
    else if a[0] < b[0] then -1
    else if b[0] < a[0] then 1
    else StrCompare(a[1..], b[1..])
  }

  lemma {:induction false} StrCompareZeroIff(a: string, b: string)
    ensures StrCompare(a, b) == 0 <==> a == b
    decreases |a|
  {
    if a != [] && b != [] && a[0] == b[0] {
      StrCompareZeroIff(a[1..], b[1..]);
      assert a == [a[0]] + a[1..] && b == [b[0]] + b[1..];
    }
  }

  lemma {:induction false} StrCompareAntisymmetric(a: string, b: string)
    ensures StrCompare(a, b) == -StrCompare(b, a)
    decreases |a|
  {
    if a != [] && b != [] && a[0] == b[0] {
      StrCompareAntisymmetric(a[1..], b[1..]);
    }
  }

  lemma {:induction false} StrCompareTransitive(a: string, b: string, c: string)
    requires StrCompare(a, b) <= 0 && StrCompare(b, c) <= 0
    ensures StrCompare(a, c) <= 0
    decreases |a|
  {
    if a != [] && b != [] && c != [] && a[0] == b[0] && b[0] == c[0] {
      StrCompareTransitive(a[1..], b[1..], c[1..]);
    }
  }
}
