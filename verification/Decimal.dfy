/** Text: where it is cut, and decimal numbers, `to_string`, `parse::<u64>` and zero padding. */
module Decimal {
  import opened Base
  import opened Positional

  /** Position of the first `c`, or the length: where `split_once` cuts. */
  function IndexOf(s: string, c: char): (k: nat)
    ensures k <= |s| && c !in s[..k] && (forall j :: 0 <= j < k ==> s[j] != c) && (k < |s| ==> s[k] == c)
  {
    if s == [] || s[0] == c then 0 else 1 + IndexOf(s[1..], c)
  }

  predicate IsDigit(c: char) {
    '0' <= c <= '9'
  }

  function DigitChar(d: nat): (c: char)
    requires d < 10
    ensures IsDigit(c) && DigitValue(c) == d
  {
    '0' + (d as char)
  }

  function DigitValue(c: char): (d: nat)
    requires IsDigit(c)
    ensures d < 10
  {
    (c - '0') as nat
  }

  predicate AllDigits(s: string) {
    forall i :: 0 <= i < |s| ==> IsDigit(s[i])
  }

  /** `to_string`: no leading zeros, except for zero itself. */
  function Show(n: nat): (s: string)
    ensures s != [] && AllDigits(s)
  {
    if n < 10 then [DigitChar(n)] else Show(n / 10) + [DigitChar(n % 10)]
  }

  function Values(s: string): (r: seq<nat>)
    requires AllDigits(s)
    ensures |r| == |s| && forall i :: 0 <= i < |s| ==> r[i] == DigitValue(s[i])
  {
    seq(|s|, i requires 0 <= i < |s| => DigitValue(s[i]))
  }

  /** `str::parse` for an unsigned type with maximum `max`: an optional plus sign, then at least one digit. */
  function ParseNat(s: string, max: nat): Option<nat> {
    var t := if s != [] && s[0] == '+' then s[1..] else s;
    if t == [] || !AllDigits(t) then None
    else
      var v := Value(Values(t), 10);
      if v <= max then Some(v) else None
  }

  lemma {:induction false} ValueOfShow(n: nat)
    ensures Value(Values(Show(n)), 10) == n
  {
    if n < 10 {
      assert Values(Show(n)) == [] + [n];
      ValueSnoc([], n, 10);
    } else {
      ValueOfShow(n / 10);
      assert Values(Show(n)) == Values(Show(n / 10)) + [n % 10];
      ValueSnoc(Values(Show(n / 10)), n % 10, 10);
      DivMod(n, 10);
    }
  }

  /** A digit string is its value as printed, behind zeros. */
  lemma {:induction false} DigitsShow(t: string) returns (k: nat)
    requires t != [] && AllDigits(t)
    ensures t == ZeroDigits(k) + Show(Value(Values(t), 10))
    decreases |t|
  {
    var n := |t| - 1;
    var u, d := t[..n], DigitValue(t[n]);
    assert Values(t) == Values(u) + [d];
    ValueSnoc(Values(u), d, 10);
    assert t == u + [DigitChar(d)];
    if u == [] {
      k := 0;
      assert Values(u) == [];
    } else {
      k := DigitsShow(u);
      var v := Value(Values(u), 10);
      if v == 0 {
        k := k + 1;
        assert Show(0) == ['0'] && ZeroDigits(k) == ZeroDigits(k - 1) + ['0'];
      } else {
        DivModUnique(v, 10, d);
        assert Show(v * 10 + d) == Show(v) + [DigitChar(d)];
      }
    }
  }

  /** `n` as printed, possibly behind zeros and one plus sign. */
  ghost predicate Numeral(s: string, n: nat) {
    exists k: nat :: s == ZeroDigits(k) + Show(n) || s == "+" + ZeroDigits(k) + Show(n)
  }

  /** What parses: a numeral not above the maximum, and nothing else. */
  lemma ParseExact(s: string, max: nat, n: nat)
    ensures ParseNat(s, max) == Some(n) <==> n <= max && Numeral(s, n)
  {
    hide Show, Values, Value, AllDigits;
    if ParseNat(s, max) == Some(n) {
      var t := if s != [] && s[0] == '+' then s[1..] else s;
      assert s == t || s == "+" + t;
      DigitsAreNumeral(s, t);
    } else if n <= max && Numeral(s, n) {
      var k: nat :| s == ZeroDigits(k) + Show(n) || s == "+" + ZeroDigits(k) + Show(n);
      PaddedParses(s, k, n, max);
    }
  }

  lemma DigitsAreNumeral(s: string, t: string)
    requires t != [] && AllDigits(t) && (s == t || s == "+" + t)
    ensures Numeral(s, Value(Values(t), 10))
  {
    hide Show, Value, ZeroDigits, AllDigits;
    var k := DigitsShow(t);
    var z, n := ZeroDigits(k), Show(Value(Values(t), 10));
    assert "+" + (z + n) == "+" + z + n;
  }

  lemma PaddedParses(s: string, k: nat, n: nat, max: nat)
    requires n <= max && (s == ZeroDigits(k) + Show(n) || s == "+" + ZeroDigits(k) + Show(n))
    ensures ParseNat(s, max) == Some(n)
  {
    hide Show, Value;
    var t := ZeroDigits(k) + Show(n);
    assert AllDigits(t) && t != [] && IsDigit(t[0]);
    assert s == t || (s[0] == '+' && s[1..] == t);
    ValueOfShow(n);
    LeadingZeros(k, Show(n));
  }

  lemma NumeralChars(s: string, n: nat, c: char)
    requires Numeral(s, n) && !IsDigit(c) && c != '+'
    ensures c !in s
  {
    hide Show;
  }

  /** What was printed parses back. */
  lemma ParseShow(n: nat, max: nat)
    requires n <= max
    ensures ParseNat(Show(n), max) == Some(n)
  {
    ValueOfShow(n);
    assert IsDigit(Show(n)[0]);
  }

  function ZeroDigits(n: nat): (s: string)
    ensures |s| == n && AllDigits(s)
  {
    seq(n, _ => '0')
  }

  lemma {:induction false} LeadingZeros(n: nat, s: string)
    requires AllDigits(s)
    ensures Value(Values(ZeroDigits(n) + s), 10) == Value(Values(s), 10)
    decreases n
  {
    if n == 0 {
      assert ZeroDigits(0) + s == s;
    } else {
      var t := ZeroDigits(n - 1) + s;
      assert ZeroDigits(n) + s == ['0'] + t;
      assert Values(['0'] + t) == [0] + Values(t);
      ValueFront(0, Values(t), 10);
      LeadingZeros(n - 1, s);
    }
  }

  lemma {:induction false} ShowLength(n: nat, width: nat)
    requires n < Pow(10, width) && 0 < width
    ensures |Show(n)| <= width
  {
    if n >= 10 {
      assert width > 1 by { assert Pow(10, 1) == 10 * Pow(10, 0); }
      DivBelowPow(n, 10, width);
      ShowLength(n / 10, width - 1);
    }
  }

  /** A number below 10^width, padded with zeros to that width. */
  function Padded(n: nat, width: nat): (s: string)
    requires n < Pow(10, width) && 0 < width
    ensures |s| == width && AllDigits(s)
  {
    ShowLength(n, width);
    ZeroDigits(width - |Show(n)|) + Show(n)
  }

  lemma PaddedValue(n: nat, width: nat)
    requires n < Pow(10, width) && 0 < width
    ensures Value(Values(Padded(n, width)), 10) == n
  {
    ShowLength(n, width);
    LeadingZeros(width - |Show(n)|, Show(n));
    ValueOfShow(n);
  }

  /** Byte-wise order of strings. */
  predicate TextLess(a: string, b: string) {
    && b != []
    && (a == [] || a[0] < b[0] || (a[0] == b[0] && TextLess(a[1..], b[1..])))
  }

  lemma {:induction false} TextLessIsLex(a: string, b: string)
    requires AllDigits(a) && AllDigits(b)
    ensures TextLess(a, b) <==> LexLess(Values(a), Values(b))
  {
    if a != [] && b != [] {
      TextLessIsLex(a[1..], b[1..]);
      assert Values(a)[1..] == Values(a[1..]) && Values(b)[1..] == Values(b[1..]);
      assert a[0] < b[0] <==> DigitValue(a[0]) < DigitValue(b[0]);
      assert a[0] == b[0] <==> DigitValue(a[0]) == DigitValue(b[0]);
    }
  }

  lemma {:induction false} TextLessSuffix(a: string, b: string, t: string)
    requires |a| == |b|
    ensures TextLess(a + t, b + t) <==> TextLess(a, b)
    decreases |a|
  {
    if a == [] {
      assert a + t == t && b + t == t;
      NotLessThanItself(t);
    } else {
      assert (a + t)[1..] == a[1..] + t && (b + t)[1..] == b[1..] + t;
      TextLessSuffix(a[1..], b[1..], t);
    }
  }

  lemma {:induction false} NotLessThanItself(t: string)
    ensures !TextLess(t, t)
  {
    if t != [] {
      NotLessThanItself(t[1..]);
    }
  }

  /** Fixed-width names sort as strings exactly as their numbers do. */
  lemma PaddedOrder(m: nat, n: nat, width: nat, t: string)
    requires m < Pow(10, width) && n < Pow(10, width) && 0 < width
    ensures TextLess(Padded(m, width) + t, Padded(n, width) + t) <==> m < n
  {
    var a, b := Padded(m, width), Padded(n, width);
    TextLessSuffix(a, b, t);
    TextLessIsLex(a, b);
    LexIsNumeric(Values(a), Values(b), 10);
    PaddedValue(m, width);
    PaddedValue(n, width);
  }
}
