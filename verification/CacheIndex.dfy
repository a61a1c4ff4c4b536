/**
The cache index on disk (hiqlite/src/lib.rs): the variants of a cache enum printed one per line, and
the check that a stored index still fits the current enum.
*/
module CacheIndex {
  import opened Base
  import opened Decimal

  /** The names of the variants, in index order. */
  type Variants = seq<string>

  const USIZE_MAX := U64_MAX

  function Line(i: nat, name: string): string {
    Show(i) + " " + name + "\n"
  }

  /** `hiqlite_cache_variants_normalized` */
  function Normalized(v: Variants): string
    decreases |v|
  {
    if v == [] then "" else Normalized(v[..|v| - 1]) + Line(|v| - 1, v[|v| - 1])
  }

  function StripCr(s: string): string {
    if s != [] && s[|s| - 1] == '\r' then s[..|s| - 1] else s
  }

  /** `str::lines`: a final part without a newline is a line as it stands. */
  function Lines(s: string): seq<string>
    decreases |s|
  {
    var k := IndexOf(s, '\n');
    if s == [] then []
    else if k == |s| then [s]
    else [StripCr(s[..k])] + Lines(s[k + 1..])
  }

  /** The line names an index and the name the current enum has there. */
  predicate LineFits(v: Variants, line: string) {
    var k := IndexOf(line, ' ');
    && k < |line|
    && var i := ParseNat(line[..k], USIZE_MAX);
      i.Some? && i.value < |v| && v[i.value] == line[k + 1..]
  }

  /** `hiqlite_cache_compatible_with` */
  predicate Compatible(v: Variants, stored: string) {
    var lines := Lines(stored);
    forall i :: 0 <= i < |lines| ==> LineFits(v, lines[i])
  }

  /** Names a line can carry: every Rust identifier is one. */
  predicate Printable(v: Variants) {
    && |v| <= USIZE_MAX
    && forall i :: 0 <= i < |v| ==> '\n' !in v[i] && (v[i] != [] ==> v[i][|v[i]| - 1] != '\r')
  }

  lemma {:induction false} FirstIndex(a: string, c: char, b: string)
    requires c !in a
    ensures IndexOf(a + [c] + b, c) == |a|
    decreases |a|
  {
    if a != [] {
      assert (a + [c] + b)[1..] == a[1..] + [c] + b;
      assert a[0] in a;
      FirstIndex(a[1..], c, b);
    }
  }

  lemma DigitsOnly(n: nat, c: char)
    requires !IsDigit(c)
    ensures c !in Show(n)
  {
  }

  /** A printed line, without its newline, fits exactly if the enum has that name at that index. */
  lemma PrintedLineFits(v: Variants, i: nat, name: string)
    requires i <= USIZE_MAX
    ensures LineFits(v, Show(i) + " " + name) <==> i < |v| && v[i] == name
  {
    var line := Show(i) + [' '] + name;
    assert Show(i) + " " + name == line;
    DigitsOnly(i, ' ');
    FirstIndex(Show(i), ' ', name);
    assert line[..|Show(i)|] == Show(i) && line[|Show(i)| + 1..] == name;
    ParseShow(i, USIZE_MAX);
  }

  /** The line is the index `i`, written as `s`, one space, and the name the enum has there. */
  ghost predicate Names(v: Variants, line: string, i: nat, s: string) {
    i < |v| && i <= USIZE_MAX && Numeral(s, i) && line == s + " " + v[i]
  }

  ghost predicate Named(v: Variants, line: string) {
    exists i: nat, s: string :: Names(v, line, i, s)
  }

  /** Of any text, exactly the lines of this form fit. */
  lemma LineFitsExact(v: Variants, line: string)
    ensures LineFits(v, line) <==> Named(v, line)
  {
    hide Numeral, ParseNat;
    if LineFits(v, line) {
      var c := IndexOf(line, ' ');
      var i := ParseNat(line[..c], USIZE_MAX).value;
      ParseExact(line[..c], USIZE_MAX, i);
      assert line == line[..c] + " " + line[c + 1..];
      assert Names(v, line, i, line[..c]);
    }
    forall i: nat, s: string | Names(v, line, i, s) ensures LineFits(v, line) {
      NumeralChars(s, i, ' ');
      assert line == s + [' '] + v[i];
      FirstIndex(s, ' ', v[i]);
      assert line[..|s|] == s && line[|s| + 1..] == v[i];
      ParseExact(s, USIZE_MAX, i);
    }
  }

  lemma LinesCons(line: string, rest: string)
    requires '\n' !in line
    ensures Lines(line + ['\n'] + rest) == [StripCr(line)] + Lines(rest)
  {
    var s := line + ['\n'] + rest;
    FirstIndex(line, '\n', rest);
    assert s[..|line|] == line && s[|line| + 1..] == rest;
  }

  lemma {:induction false} Found(s: string, c: char)
    requires c in s
    ensures IndexOf(s, c) < |s|
    decreases |s|
  {
    if s[0] != c {
      Found(s[1..], c);
    }
  }

  lemma FirstLine(a: string) returns (line: string, rest: string)
    requires a != [] && a[|a| - 1] == '\n'
    ensures a == line + ['\n'] + rest && '\n' !in line && (rest == [] || rest[|rest| - 1] == '\n')
  {
    var k := IndexOf(a, '\n');
    assert a[|a| - 1] in a;
    Found(a, '\n');
    line, rest := a[..k], a[k + 1..];
  }

  /** Text that ends in a newline is cut there. */
  lemma {:induction false} LinesAppend(a: string, body: string)
    requires a == [] || a[|a| - 1] == '\n'
    requires '\n' !in body && (body != [] ==> body[|body| - 1] != '\r')
    ensures Lines(a + body + "\n") == Lines(a) + [body]
    decreases |a|
  {
    hide Lines, StripCr;
    if a == [] {
      assert a + body + "\n" == body + ['\n'] + [];
      LinesCons(body, []);
      NoLines(body);
    } else {
      var line, rest := FirstLine(a);
      var tail := rest + body + "\n";
      assert a + body + "\n" == line + ['\n'] + tail;
      LinesCons(line, rest);
      LinesCons(line, tail);
      LinesAppend(rest, body);
      assert [StripCr(line)] + (Lines(rest) + [body]) == ([StripCr(line)] + Lines(rest)) + [body];
    }
  }

  lemma NoLines(body: string)
    requires body != [] ==> body[|body| - 1] != '\r'
    ensures Lines([]) == [] && StripCr(body) == body
  {
  }

  lemma {:induction false} LinesOfNormalized(v: Variants)
    requires Printable(v)
    ensures |Lines(Normalized(v))| == |v|
    ensures forall i :: 0 <= i < |v| ==> Lines(Normalized(v))[i] == Show(i) + " " + v[i]
    decreases |v|
  {
    if v != [] {
      var n := |v| - 1;
      var front, body := Normalized(v[..n]), Show(n) + " " + v[n];
      LinesOfNormalized(v[..n]);
      assert Normalized(v) == front + body + "\n";
      DigitsOnly(n, '\n');
      EndsInNewline(v[..n]);
      LinesAppend(front, body);
    }
  }

  lemma EndsInNewline(v: Variants)
    ensures Normalized(v) == [] || Normalized(v)[|Normalized(v)| - 1] == '\n'
  {
  }

  /** Text behind the last newline is a line too, as it stands. */
  lemma {:induction false} OpenLine(a: string, body: string)
    requires (a == [] || a[|a| - 1] == '\n') && '\n' !in body && body != []
    ensures Lines(a + body) == Lines(a) + [body]
    decreases |a|
  {
    hide Lines, StripCr;
    if a == [] {
      assert a + body == body;
      LoneLine(body);
    } else {
      var line, rest := FirstLine(a);
      assert a + body == line + ['\n'] + (rest + body);
      LinesCons(line, rest);
      LinesCons(line, rest + body);
      OpenLine(rest, body);
      assert [StripCr(line)] + (Lines(rest) + [body]) == ([StripCr(line)] + Lines(rest)) + [body];
    }
  }

  lemma LoneLine(body: string)
    requires '\n' !in body && body != []
    ensures Lines(body) == [body] && Lines([]) == []
  {
  }

  /** A carriage return before the newline does not belong to the line. */
  lemma CrlfLine(line: string, rest: string)
    requires '\n' !in line
    ensures Lines(line + "\r\n" + rest) == [line] + Lines(rest)
  {
    assert line + "\r\n" + rest == (line + ['\r']) + ['\n'] + rest;
    LinesCons(line + ['\r'], rest);
    assert (line + ['\r'])[..|line|] == line;
  }

  /** Any stored text is compatible exactly if each of its lines gives the name the enum has at its index. */
  lemma CompatibleExact(v: Variants, stored: string)
    ensures Compatible(v, stored) <==> forall j :: 0 <= j < |Lines(stored)| ==> Named(v, Lines(stored)[j])
  {
    hide LineFits, Lines, Named;
    forall line: string ensures LineFits(v, line) <==> Named(v, line) {
      LineFitsExact(v, line);
    }
  }

  /** A stored index is compatible exactly if its variants are a prefix of the current ones. */
  lemma CompatibleIffPrefix(stored: Variants, current: Variants)
    requires Printable(stored)
    ensures Compatible(current, Normalized(stored)) <==> stored <= current
  {
    LinesOfNormalized(stored);
    var lines := Lines(Normalized(stored));
    hide Lines, Normalized, LineFits, Show;
    forall i | 0 <= i < |stored|
      ensures LineFits(current, lines[i]) <==> i < |current| && current[i] == stored[i]
    {
      PrintedLineFits(current, i, stored[i]);
    }
    if Compatible(current, Normalized(stored)) {
      assert forall i :: 0 <= i < |stored| ==> LineFits(current, lines[i]);
      if |stored| > 0 {
        assert LineFits(current, lines[|stored| - 1]);
      }
    }
  }

  /** So the check is a partial order on enums: reflexive, transitive, antisymmetric. */
  lemma CompatibilityIsAnOrder(a: Variants, b: Variants, c: Variants)
    requires Printable(a) && Printable(b) && Printable(c)
    ensures Compatible(a, Normalized(a))
    ensures Compatible(b, Normalized(a)) && Compatible(c, Normalized(b)) ==> Compatible(c, Normalized(a))
    ensures Compatible(b, Normalized(a)) && Compatible(a, Normalized(b)) ==> a == b
  {
    CompatibleIffPrefix(a, a);
    CompatibleIffPrefix(a, b);
    CompatibleIffPrefix(b, c);
    CompatibleIffPrefix(a, c);
    CompatibleIffPrefix(b, a);
  }
}
