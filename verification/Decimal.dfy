/** Decimal notation of natural numbers. */
module Decimal {
  import opened Options

  predicate IsDigit(c: char) {
    '0' <= c <= '9'
  }

  predicate AllDigits(s: string) {
    forall i :: 0 <= i < |s| ==> IsDigit(s[i])
  }

  function Digits(n: nat): (s: string)
    ensures s != "" && AllDigits(s)
    ensures s[0] == '0' <==> n == 0
  {
    if n < 10 then [('0' as int + n) as char] else Digits(n / 10) + [('0' as int + n % 10) as char]
  }

  function Value(s: string): nat
    requires AllDigits(s)
  {
    if s == "" then 0 else Value(s[..|s| - 1]) * 10 + (s[|s| - 1] as int - '0' as int)
  }

  lemma {:induction false} ValueOfDigits(n: nat)
    ensures Value(Digits(n)) == n
  {
    var s := Digits(n);
    if n >= 10 {
      ValueOfDigits(n / 10);
      assert s[..|s| - 1] == Digits(n / 10);
    } else {
      assert s[..0] == "";
    }
  }

  lemma {:induction false} LeadingZero(s: string)
    requires AllDigits(s) && s != "" && s[0] != '0'
    ensures Value(s) > 0
  {
    if |s| > 1 { LeadingZero(s[..|s| - 1]); }
  }

  /** A numeral without leading zeros is the only one of its value. */
  lemma {:induction false} DigitsOfValue(s: string)
    requires AllDigits(s) && s != "" && (s[0] == '0' ==> |s| == 1)
    ensures Digits(Value(s)) == s
  {
    if |s| > 1 {
      var init, d := s[..|s| - 1], s[|s| - 1] as int - '0' as int;
      LeadingZero(init);
      DigitsOfValue(init);
      assert Value(s) == 10 * Value(init) + d && 0 <= d < 10;
      assert s == init + [s[|s| - 1]];
    } else {
      assert s[..0] == "" && Value(s) == s[0] as int - '0' as int;
    }
  }

  /** How many digits a text begins with. */
  function Span(s: string): (k: nat)
    ensures k <= |s| && AllDigits(s[..k])
    ensures k < |s| ==> !IsDigit(s[k])
  {
    if s == "" || !IsDigit(s[0]) then 0
    else
      var k := Span(s[1..]);
      assert s[..k + 1] == [s[0]] + s[1..][..k];
      k + 1
  }

  lemma {:induction false} SpanOf(d: string, rest: string)
    requires AllDigits(d) && (rest != "" ==> !IsDigit(rest[0]))
    ensures Span(d + rest) == |d|
  {
    if d == "" {
      assert d + rest == rest;
    } else {
      assert (d + rest)[1..] == d[1..] + rest;
      SpanOf(d[1..], rest);
    }
  }

  /** A numeral without leading zeros at the beginning of a text, and the rest. */
  function ReadNumeral(s: string): Option<(nat, string)> {
    var k := Span(s);
    if k == 0 || (s[0] == '0' && k > 1) then None else Some((Value(s[..k]), s[k..]))
  }

  lemma ReadDigits(n: nat, rest: string)
    requires rest != "" ==> !IsDigit(rest[0])
    ensures ReadNumeral(Digits(n) + rest) == Some((n, rest))
  {
    var d := Digits(n);
    SpanOf(d, rest);
    ValueOfDigits(n);
    assert (d + rest)[..|d|] == d && (d + rest)[|d|..] == rest;
    if n == 0 { assert d == "0"; }
  }
}
