/**
Fixed-width positional notation in an arbitrary base. Base 256 is the big-endian encoding of ids,
lengths, header fields and receipt keys; base 10 is the numeric part of WAL file names.
The two facts everything else needs: digits and values are inverse to each other, and comparing two
digit strings of equal length lexicographically compares their values.
*/
module Positional {
  import opened Base

  function Pow(base: nat, n: nat): nat {
    if n == 0 then 1 else base * Pow(base, n - 1)
  }

  function Digits(v: nat, base: nat, width: nat): (s: seq<nat>)
    requires 2 <= base
    ensures |s| == width
    ensures forall i :: 0 <= i < |s| ==> s[i] < base
    decreases width, v
  {
    if width == 0 then [] else Digits(v / base, base, width - 1) + [v % base]
  }

  function Value(s: seq<nat>, base: nat): nat {
    if s == [] then 0 else Value(s[..|s| - 1], base) * base + s[|s| - 1]
  }

  /** Byte-wise (memcmp) order: a proper prefix is smaller, otherwise the first difference decides. */
  predicate LexLess(a: seq<nat>, b: seq<nat>) {
    && b != []
    && (a == [] || a[0] < b[0] || (a[0] == b[0] && LexLess(a[1..], b[1..])))
  }

  lemma MulMonotone(a: nat, b: nat, c: nat)
    requires a <= b
    ensures a * c <= b * c
  {
    assert b * c == a * c + (b - a) * c;
  }

  lemma DivMod(v: nat, base: nat)
    requires 0 < base
    ensures v == v / base * base + v % base && v % base < base
  {
  }

  lemma DivModUnique(q: nat, base: nat, d: nat)
    requires d < base
    ensures (q * base + d) / base == q && (q * base + d) % base == d
  {
    var v := q * base + d;
    var q' := v / base;
    DivMod(v, base);
    if q < q' {
      MulMonotone(q + 1, q', base);
    } else if q' < q {
      MulMonotone(q' + 1, q, base);
    }
  }

  lemma DivBelowPow(v: nat, base: nat, n: nat)
    requires 2 <= base && 0 < n && v < Pow(base, n)
    ensures v / base < Pow(base, n - 1)
  {
    DivMod(v, base);
    if Pow(base, n - 1) <= v / base {
      MulMonotone(Pow(base, n - 1), v / base, base);
      assert false;
    }
  }

  lemma ValueSnoc(s: seq<nat>, d: nat, base: nat)
    ensures Value(s + [d], base) == Value(s, base) * base + d
  {
    assert (s + [d])[..|s|] == s;
  }

  lemma {:induction false} ValueOfNextDigit(v: nat, q: nat, d: nat, base: nat, width: nat)
    requires 2 <= base && d < base && Value(Digits(q, base, width), base) == q
    requires v == q * base + d
    ensures Value(Digits(v, base, width + 1), base) == v
  {
    DivModUnique(q, base, d);
    ValueSnoc(Digits(q, base, width), d, base);
  }

  lemma {:induction false} ValueOfDigits(v: nat, base: nat, width: nat)
    requires 2 <= base && v < Pow(base, width)
    ensures Value(Digits(v, base, width), base) == v
    decreases width
  {
    if width > 0 {
      var q, d := v / base, v % base;
      DivBelowPow(v, base, width);
      ValueOfDigits(q, base, width - 1);
      DivMod(v, base);
      ValueOfNextDigit(v, q, d, base, width - 1);
    }
  }

  lemma {:induction false} DigitsOfValue(s: seq<nat>, base: nat)
    requires 2 <= base && forall i :: 0 <= i < |s| ==> s[i] < base
    ensures Digits(Value(s, base), base, |s|) == s
  {
    if s != [] {
      var t, d := s[..|s| - 1], s[|s| - 1];
      DivModUnique(Value(t, base), base, d);
      DigitsOfValue(t, base);
    }
  }

  lemma NextDigitBound(v: nat, p: nat, d: nat, base: nat)
    requires v < p && d < base
    ensures v * base + d < base * p
  {
    MulMonotone(v + 1, p, base);
    assert (v + 1) * base == v * base + base;
  }

  lemma {:induction false} ValueBound(s: seq<nat>, base: nat)
    requires 2 <= base && forall i :: 0 <= i < |s| ==> s[i] < base
    ensures Value(s, base) < Pow(base, |s|)
  {
    if s != [] {
      var t := s[..|s| - 1];
      ValueBound(t, base);
      NextDigitBound(Value(t, base), Pow(base, |t|), s[|s| - 1], base);
    }
  }

  lemma Distribute(d: nat, p: nat, v: nat, e: nat, base: nat)
    ensures (d * p + v) * base + e == d * (base * p) + (v * base + e)
  {
    assert (d * p + v) * base == d * p * base + v * base;
    assert d * p * base == d * (base * p);
  }

  /** The leading digit weighs base^(rest). */
  lemma {:induction false} ValueFront(d: nat, s: seq<nat>, base: nat)
    ensures Value([d] + s, base) == d * Pow(base, |s|) + Value(s, base)
  {
    if s == [] {
      assert Value([d], base) == Value([], base) * base + d by { ValueSnoc([], d, base); }
    } else {
      var t, e := s[..|s| - 1], s[|s| - 1];
      assert [d] + s == ([d] + t) + [e];
      ValueFront(d, t, base);
      ValueSnoc([d] + t, e, base);
      Distribute(d, Pow(base, |t|), Value(t, base), e, base);
    }
  }

  lemma LeadingDigitDecides(x: nat, y: nat, u: nat, v: nat, p: nat)
    requires u < p && v < p
    ensures x * p + u < y * p + v <==> x < y || (x == y && u < v)
  {
    if x < y {
      MulMonotone(x + 1, y, p);
    } else if y < x {
      MulMonotone(y + 1, x, p);
    }
  }

  lemma {:induction false} LexIsNumeric(a: seq<nat>, b: seq<nat>, base: nat)
    requires 2 <= base && |a| == |b|
    requires forall i :: 0 <= i < |a| ==> a[i] < base && b[i] < base
    ensures LexLess(a, b) <==> Value(a, base) < Value(b, base)
  {
    if a != [] {
      var a', b' := a[1..], b[1..];
      assert a == [a[0]] + a' && b == [b[0]] + b';
      LexIsNumeric(a', b', base);
      ValueFront(a[0], a', base);
      ValueFront(b[0], b', base);
      ValueBound(a', base);
      ValueBound(b', base);
      LeadingDigitDecides(a[0], b[0], Value(a', base), Value(b', base), Pow(base, |a'|));
    }
  }

  lemma {:induction false} LexOfDigits(v: nat, w: nat, base: nat, width: nat)
    requires 2 <= base && v < Pow(base, width) && w < Pow(base, width)
    ensures LexLess(Digits(v, base, width), Digits(w, base, width)) <==> v < w
    ensures Digits(v, base, width) == Digits(w, base, width) <==> v == w
  {
    ValueOfDigits(v, base, width);
    ValueOfDigits(w, base, width);
    LexIsNumeric(Digits(v, base, width), Digits(w, base, width), base);
  }

  // ---- base 256: the big-endian integers of utils.rs and of the receipt tables

  function Be(v: nat, width: nat): (s: seq<byte>)
    ensures |s| == width
  {
    Digits(v, 256, width)
  }

  function FromBe(s: seq<byte>): (v: nat)
    ensures |s| == 4 ==> v <= U32_MAX
    ensures |s| == 8 ==> v <= U64_MAX
  {
    BeLimits();
    ValueBound(s, 256);
    Value(s, 256)
  }

  lemma {:induction false} ValueOfZeros(z: seq<byte>)
    requires forall i :: 0 <= i < |z| ==> z[i] == 0
    ensures Value(z, 256) == 0 && FromBe(z) == 0
  {
    if z != [] {
      ValueOfZeros(z[..|z| - 1]);
    }
  }

  /** Encoding what was decoded gives the bytes back. */
  lemma BeOfFrom(s: seq<byte>)
    ensures Be(FromBe(s), |s|) == s
  {
    DigitsOfValue(s, 256);
  }

  /** Only the encoding of `v` decodes to `v`. */
  lemma FromBeUnique(s: seq<byte>, v: u64)
    requires |s| == 8 && FromBe(s) == v
    ensures s == Be(v, 8)
  {
    DigitsOfValue(s, 256);
  }

  lemma BeLimits()
    ensures Pow(256, 4) == U32_MAX + 1 && Pow(256, 8) == U64_MAX + 1
  {
    assert Pow(256, 2) == 65536 by { assert Pow(256, 1) == 256 by { assert Pow(256, 0) == 1; } }
    assert Pow(256, 4) == 65536 * 65536 by { assert Pow(256, 3) == 256 * 65536; }
    assert Pow(256, 6) == Pow(256, 4) * 65536 by { assert Pow(256, 5) == 256 * Pow(256, 4); }
    assert Pow(256, 7) == 256 * Pow(256, 6);
  }

  lemma U64RoundTrip(v: u64)
    ensures FromBe(Be(v, 8)) == v
  {
    BeLimits();
    ValueOfDigits(v, 256, 8);
  }

  lemma U32RoundTrip(v: u32)
    ensures FromBe(Be(v, 4)) == v
  {
    BeLimits();
    ValueOfDigits(v, 256, 4);
  }

  lemma U64KeyOrder(v: u64, w: u64)
    ensures LexLess(Be(v, 8), Be(w, 8)) <==> v < w
    ensures Be(v, 8) == Be(w, 8) <==> v == w
  {
    BeLimits();
    LexOfDigits(v, w, 256, 8);
  }
}
