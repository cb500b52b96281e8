/**
  Tokens of the tablature stream and the small string predicates that stand
  in for the regular expressions of the token processor: prefix tests, runs
  of decimal digits and their value.
*/
module Tokens {

  /** A token is an opaque string atom. */
  type Token = string

  datatype Option<+T> = None | Some(value: T)

  /** `s.startswith(prefix)` */
  predicate StartsWith(s: string, prefix: string) {
    |prefix| <= |s| && s[..|prefix|] == prefix
  }

  /** A decimal digit as matched by `\d` (ASCII digits only). */
  predicate IsDigit(c: char) {
    '0' <= c <= '9'
  }

  predicate AllDigits(s: string) {
    forall i :: 0 <= i < |s| ==> IsDigit(s[i])
  }

  function DigitValue(c: char): (v: nat)
    requires IsDigit(c)
    ensures v < 10
  {
    (c as int - '0' as int) as nat
  }

  function DigitChar(v: nat): (c: char)
    requires v < 10
    ensures IsDigit(c) && DigitValue(c) == v
  {
    ('0' as int + v) as char
  }

  /** The length of the longest run of digits at the start of `s`
      (what a greedy `\d+` or `\d*` consumes there). */
  function DigitRun(s: string): (n: nat)
    ensures n <= |s|
    ensures AllDigits(s[..n])
    ensures n < |s| ==> !IsDigit(s[n])
  {
    if s == [] || !IsDigit(s[0]) then 0 else 1 + DigitRun(s[1..])
  }

  /** `int(ds)` for a string of decimal digits; leading zeros are allowed. */
  function DecimalValue(ds: string): nat
    requires AllDigits(ds)
  {
    if ds == [] then 0
    else DecimalValue(ds[..|ds| - 1]) * 10 + DigitValue(ds[|ds| - 1])
  }

  /** `str(v)`: the decimal numeral of `v`, without leading zeros. */
  function Decimal(v: nat): (ds: string)
    ensures |ds| > 0 && AllDigits(ds)
  {
    if v < 10 then [DigitChar(v)] else Decimal(v / 10) + [DigitChar(v % 10)]
  }

  /** Reading back a printed numeral gives the number. */
  lemma {:induction false} DecimalRoundTrip(v: nat)
    ensures DecimalValue(Decimal(v)) == v
  {
    if v >= 10 {
      DecimalRoundTrip(v / 10);
      var ds := Decimal(v);
      assert ds[..|ds| - 1] == Decimal(v / 10);
    }
  }

  /** A digit run stops exactly where the digits stop. */
  lemma {:induction false} DigitRunOfDigits(ds: string, rest: string)
    requires AllDigits(ds)
    requires rest == [] || !IsDigit(rest[0])
    ensures DigitRun(ds + rest) == |ds|
  {
    if ds != [] {
      assert (ds + rest)[1..] == ds[1..] + rest;
      DigitRunOfDigits(ds[1..], rest);
    }
  }

  /** A prefix of a prefix is a prefix. */
  lemma PrefixOfPrefix(s: string, p: string, q: string)
    requires StartsWith(s, p) && StartsWith(p, q)
    ensures StartsWith(s, q)
  {
    assert s[..|q|] == p[..|q|];
  }

  /** Text that starts with `p` followed by `r`: splitting it after `p` gives
      back `r`. */
  lemma SplitAfterPrefix(p: string, r: string)
    ensures StartsWith(p + r, p) && (p + r)[|p|..] == r
  {
    assert (p + r)[..|p|] == p;
  }

  /** Concatenation of text is associative. */
  lemma StringConcatAssoc(a: string, b: string, c: string)
    ensures a + b + c == a + (b + c)
  {
  }

  /** Concatenation is associative (stated once, so that proofs about
      functions producing token lists need not redo it elementwise). */
  lemma ConcatAssoc(a: seq<Token>, b: seq<Token>, c: seq<Token>)
    ensures a + (b + c) == a + b + c
  {
  }

  /** The empty list is the unit of concatenation. */
  lemma ConcatEmpty(a: seq<Token>)
    ensures [] + a == a && a + [] == a
  {
  }

  /** A non-empty set of integers has an element (the witness for `:|` on a set). */
  lemma SetHasElement(s: set<int>)
    requires s != {}
    ensures exists x :: x in s
  {
    if forall x :: x !in s {
      assert false;
    }
  }
}
