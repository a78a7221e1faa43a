/**
 * The few string operations the connector relies on, on ASCII text:
 * digit strings and the numbers they denote, Python's ordering of `str`
 * values, lower-casing and substring containment.
 */
module Strings {

  predicate IsDigit(c: char) {
    '0' <= c <= '9'
  }

  predicate AllDigits(s: string) {
    forall i :: 0 <= i < |s| ==> IsDigit(s[i])
  }

  function DigitValue(c: char): (d: nat)
    requires IsDigit(c)
    ensures d < 10
  {
    c as int - '0' as int
  }

  function Pow10(n: nat): (p: nat)
    ensures p >= 1
  {
    if n == 0 then 1 else 10 * Pow10(n - 1)
  }

  /** The number a digit string denotes, most significant digit first (`int(s)`). */
  function Value(s: string): (v: nat)
    requires AllDigits(s)
    ensures v < Pow10(|s|)
  {
    if s == [] then 0
    else
      var d, rest, p := DigitValue(s[0]), Value(s[1..]), Pow10(|s| - 1);
      LeadingDigitBound(d, rest, p);
      d * p + rest
  }

  lemma LeadingDigitBound(d: nat, rest: nat, p: nat)
    requires d < 10 && rest < p
    ensures 0 <= d * p + rest < 10 * p
  {
    MulMono(d, 9, p);
  }

  /** A digit string denotes zero exactly when every digit is '0'. */
  lemma {:induction false} ValueZeroIff(s: string)
    requires AllDigits(s)
    ensures Value(s) == 0 <==> forall i :: 0 <= i < |s| ==> s[i] == '0'
  {
    if s != [] {
      ValueZeroIff(s[1..]);
      assert forall i :: 1 <= i < |s| ==> s[i] == s[1..][i - 1];
      if DigitValue(s[0]) > 0 {
        assert DigitValue(s[0]) * Pow10(|s| - 1) > 0;
      }
    }
  }

  /** Splitting a digit string: the value of a concatenation. */
  lemma {:induction false} ValueAppend(a: string, b: string)
    requires AllDigits(a) && AllDigits(b)
    ensures AllDigits(a + b)
    ensures Value(a + b) == Value(a) * Pow10(|b|) + Value(b)
  {
    AllDigitsAppend(a, b);
    if a != [] {
      var ab := a + b;
      assert ab[0] == a[0] && ab[1..] == a[1..] + b;
      ValueAppend(a[1..], b);
      PowAdd(|a| - 1, |b|);
      var d, p, q := DigitValue(a[0]), Pow10(|a| - 1), Pow10(|b|);
      assert Value(ab) == d * Pow10(|ab| - 1) + Value(a[1..] + b);
      assert Value(a) == d * p + Value(a[1..]);
      AppendArithmetic(d, p, q, Pow10(|ab| - 1), Value(a[1..]), Value(b));
    } else {
      assert a + b == b;
    }
  }

  lemma AppendArithmetic(d: nat, p: nat, q: nat, pq: nat, v: nat, w: nat)
    requires pq == p * q
    ensures d * pq + (v * q + w) == (d * p + v) * q + w
  {
    Associate(d, p, q);
    Distribute(d * p, v, q);
  }

  lemma AllDigitsAppend(a: string, b: string)
    requires AllDigits(a) && AllDigits(b)
    ensures AllDigits(a + b)
  {
    forall i | 0 <= i < |a + b|
      ensures IsDigit((a + b)[i])
    {
      if i < |a| {
        assert (a + b)[i] == a[i];
      } else {
        assert (a + b)[i] == b[i - |a|];
      }
    }
  }

  /** Peeling the last decimal digit off a number below 10 * p. */
  lemma DivModTen(n: nat, p: nat)
    requires n < 10 * p
    ensures n / 10 < p && (n / 10) * 10 + n % 10 == n
  {
  }

  lemma {:induction false} PowAdd(m: nat, n: nat)
    ensures Pow10(m + n) == Pow10(m) * Pow10(n)
  {
    if m > 0 {
      PowAdd(m - 1, n);
    }
  }

  /** Python's `<=` on `str` values: lexicographic order by code point. */
  predicate LexLe(a: string, b: string) {
    if a == [] then true
    else if b == [] then false
    else if a[0] != b[0] then a[0] < b[0]
    else LexLe(a[1..], b[1..])
  }

  /** On digit strings of one length, Python's string order is the numeric order. */
  lemma {:induction false} LexLeIsNumericOrder(a: string, b: string)
    requires |a| == |b| && AllDigits(a) && AllDigits(b)
    ensures LexLe(a, b) <==> Value(a) <= Value(b)
  {
    if a != [] {
      if a[0] == b[0] {
        LexLeIsNumericOrder(a[1..], b[1..]);
      } else if a[0] < b[0] {
        LeadingDigitDecides(a, b);
      } else {
        LeadingDigitDecides(b, a);
      }
    }
  }

  lemma LeadingDigitDecides(a: string, b: string)
    requires |a| == |b| > 0 && AllDigits(a) && AllDigits(b)
    requires DigitValue(a[0]) < DigitValue(b[0])
    ensures Value(a) < Value(b)
  {
    var p := Pow10(|a| - 1);
    var da, db := DigitValue(a[0]), DigitValue(b[0]);
    assert Value(a) == da * p + Value(a[1..]);
    assert Value(b) == db * p + Value(b[1..]);
    LeadingArithmetic(da, db, p, Value(a[1..]), Value(b[1..]));
  }

  lemma LeadingArithmetic(da: nat, db: nat, p: nat, va: nat, vb: nat)
    requires da < db && va < p
    ensures da * p + va < db * p + vb
  {
    MulMono(da + 1, db, p);
    Distribute(da, 1, p);
  }

  lemma Distribute(x: nat, y: nat, p: nat)
    ensures (x + y) * p == x * p + y * p
  {
  }

  lemma Associate(x: nat, y: nat, z: nat)
    ensures x * (y * z) == (x * y) * z
  {
  }

  lemma MulMono(x: nat, y: nat, p: nat)
    requires x <= y
    ensures x * p <= y * p
  {
    assert y * p == x * p + (y - x) * p;
  }

  /** ASCII lower-casing of one character (`str.lower` on ASCII). */
  function LowerChar(c: char): char {
    if 'A' <= c <= 'Z' then (c as int + 32) as char else c
  }

  /** ASCII lower-casing of a string, character by character. */
  function Lower(s: string): (r: string)
    ensures |r| == |s|
    ensures forall i :: 0 <= i < |s| ==> r[i] == LowerChar(s[i])
  {
    if s == [] then [] else [LowerChar(s[0])] + Lower(s[1..])
  }

  /** `needle` occurs in `hay` starting at position i. */
  predicate OccursAt(hay: string, needle: string, i: int) {
    0 <= i && i + |needle| <= |hay| && hay[i..i + |needle|] == needle
  }

  /** Python's `needle in hay` for strings. */
  function Contains(hay: string, needle: string): (r: bool)
    ensures r <==> exists i :: OccursAt(hay, needle, i)
    decreases |hay|
  {
    if needle <= hay then
      assert OccursAt(hay, needle, 0);
      true
    else if hay == [] then
      false
    else
      var r := Contains(hay[1..], needle);
      assert forall i :: OccursAt(hay[1..], needle, i) ==> OccursAt(hay, needle, i + 1);
      assert forall i :: 1 <= i && OccursAt(hay, needle, i) ==> OccursAt(hay[1..], needle, i - 1);
      r
  }

  /** The empty string is contained in every string. */
  lemma EmptyIsContained(hay: string)
    ensures Contains(hay, "")
  {
    assert OccursAt(hay, "", 0);
  }
}
