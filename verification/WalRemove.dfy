/**
`WalFileSet::shift_delete_logs`: purging entries from the front and truncating them from the back.
`purge(u)` calls it with the range (0, u), `truncate(k)` with (k, u64::MAX).
*/
module WalRemove {
  import opened Base
  import opened Records
  import opened Scan
  import opened WalSet

  /** Drop files from the front while they end below `until`. */
  function PopFront(v: seq<Seg>, until: nat): seq<Seg> {
    if v == [] || until <= v[0].h.idUntil then v else PopFront(v[1..], until)
  }

  /** Drop files from the back while they start above `from`. */
  function PopBack(v: seq<Seg>, from: nat): seq<Seg> {
    if v == [] || Last(v).h.idFrom <= from then v else PopBack(v[..|v| - 1], from)
  }

  /** Make `until` the first entry of the front file, if it starts below. */
  function CutFront(s: Seg, until: u64): Result<Seg, ReadError>
    requires s.h.dataStart.Some? == s.h.dataEnd.Some?
  {
    if s.h.idFrom < until && s.h.dataEnd.Some? then
      match ReadLogs(s.walNo, s.h, s.b, until, until, None)
      case Err(e) => Err(e)
      case Ok(out) =>
        if out.offset <= U32_MAX then
          Ok(s.(h := s.h.(idFrom := until, dataStart := Some(out.offset)), mapped := true))
        else Err(Integrity)
    else Ok(s)
  }

  /** Make `from - 1` the last entry of the back file. A file cut down to nothing is not mapped here. */
  function CutBack(s: Seg, from: u64): Result<Seg, ReadError>
    requires s.h.dataStart.Some? == s.h.dataEnd.Some?
  {
    if s.h.idFrom == from then Ok(s.(h := s.h.(idUntil := from, dataStart := None, dataEnd := None)))
    else if from <= s.h.idUntil && s.h.dataStart.Some? then
      match ReadLogs(s.walNo, s.h, s.b, from, from, None)
      case Err(e) => Err(e)
      case Ok(out) =>
        if 0 < from && 0 < out.offset <= U32_MAX then
          Ok(s.(h := s.h.(idUntil := from - 1, dataEnd := Some(out.offset - 1)), mapped := true))
        else Err(Integrity)
    else Ok(s)
  }

  predicate DataPaired(v: seq<Seg>) {
    forall i :: 0 <= i < |v| ==> v[i].h.dataStart.Some? == v[i].h.dataEnd.Some?
  }

  function ShiftDelete(v: seq<Seg>, from: u64, until: u64, walSize: nat): Result<seq<Seg>, ReadError>
    requires v != [] && DataPaired(v) && OFFSET_LOGS <= walSize
  {
    if from <= v[0].h.idFrom then
      var w := PopFront(v, until);
      if w == [] then Ok([Fresh(1, walSize)])
      else
        PopFrontIsSuffix(v, until);
        match CutFront(w[0], until)
        case Err(e) => Err(e)
        case Ok(s) => Ok([s] + w[1..])
    else if Last(v).h.idUntil <= until then
      var w := PopBack(v, from);
      if w == [] then Ok([Fresh(1, walSize)])
      else
        PopBackIsPrefix(v, from);
        match CutBack(Last(w), from)
        case Err(e) => Err(e)
        case Ok(s) => Ok(WithLast(w, s))
    else Ok(v)
  }

  /** How many files the front loop deletes. */
  function FrontCount(v: seq<Seg>, until: nat): (k: nat)
    ensures k <= |v|
  {
    if v == [] || until <= v[0].h.idUntil then 0 else 1 + FrontCount(v[1..], until)
  }

  lemma {:induction false} PopFrontIsSuffix(v: seq<Seg>, until: nat)
    ensures var k := FrontCount(v, until);
      && PopFront(v, until) == v[k..]
      && (forall i :: 0 <= i < k ==> v[i].h.idUntil < until)
      && (k < |v| ==> until <= v[k].h.idUntil)
    decreases |v|
  {
    if v != [] && v[0].h.idUntil < until {
      PopFrontIsSuffix(v[1..], until);
      var k := FrontCount(v[1..], until);
      assert v[1..][k..] == v[k + 1..];
      assert forall i :: 1 <= i < k + 1 ==> v[i] == v[1..][i - 1];
    }
  }

  function BackCount(v: seq<Seg>, from: nat): (k: nat)
    ensures k <= |v|
  {
    if v == [] || Last(v).h.idFrom <= from then |v| else BackCount(v[..|v| - 1], from)
  }

  lemma {:induction false} PopBackIsPrefix(v: seq<Seg>, from: nat)
    ensures var k := BackCount(v, from);
      && PopBack(v, from) == v[..k]
      && (forall i :: k <= i < |v| ==> from < v[i].h.idFrom)
      && (0 < k ==> v[k - 1].h.idFrom <= from)
    decreases |v|
  {
    if v != [] && from < Last(v).h.idFrom {
      var w := v[..|v| - 1];
      PopBackIsPrefix(w, from);
      var k := BackCount(w, from);
      assert w[..k] == v[..k];
      assert forall i :: k <= i < |w| ==> v[i] == w[i];
    }
  }

  /** What stays of a list that runs along with the files; nothing stays when a new first file is made. */
  function Kept<T>(v: seq<Seg>, from: u64, until: u64, cs: seq<T>): seq<T>
    requires v != [] && |cs| == |v|
  {
    if from <= v[0].h.idFrom then cs[FrontCount(v, until)..]
    else if Last(v).h.idUntil <= until then cs[..BackCount(v, from)]
    else cs
  }

  lemma KeptCases<T>(v: seq<Seg>, from: u64, until: u64, cs: seq<T>)
    requires v != [] && |cs| == |v|
    ensures from <= v[0].h.idFrom ==> Kept(v, from, until, cs) == cs[FrontCount(v, until)..]
    ensures v[0].h.idFrom < from && Last(v).h.idUntil <= until ==> Kept(v, from, until, cs) == cs[..BackCount(v, from)]
    ensures v[0].h.idFrom < from && until < Last(v).h.idUntil ==> Kept(v, from, until, cs) == cs
  {
    hide FrontCount, BackCount;
  }

  // ---- cutting one file

  lemma CutFrontOk(s: Seg, until: u64, walSize: nat)
    requires SegOk(s, walSize) && ValidWalSize(walSize)
    requires s.h.dataStart.Some? ==> until <= s.h.idUntil
    ensures CutFront(s, until).Ok?
    ensures var t := CutFront(s, until).value;
      && SegOk(t, walSize) && t.walNo == s.walNo && t.b == s.b && t.synced == s.synced
      && t.h.dataStart.Some? == s.h.dataStart.Some? && t.h.idUntil == s.h.idUntil
      && (s.mapped ==> t.mapped)
      && t.h.idFrom == (if s.h.dataStart.Some? then Max(s.h.idFrom, until) else s.h.idFrom)
      && Entries(t.h, t.b) == Entries(s.h, s.b)[t.h.idFrom - s.h.idFrom..]
  {
    hide ReadLogs, Next, Chain, Payloads, MemoFits, MemoMatches;
    EntriesLength(s.h, s.b);
    if s.h.idFrom < until && s.h.dataEnd.Some? {
      var ps, k, start := Entries(s.h, s.b), until - s.h.idFrom, s.h.dataStart.value;
      NoMemoFits(s.walNo, s.h, s.b);
      ReadLogsExact(s.walNo, s.h, s.b, until, until, None);
      ChainSplit(s.b, start, s.h.idFrom, ps, k);
      NextSplit(start, ps, k);
      var off := Next(start, ps[..k]);
      assert off <= Next(off, ps[k..]) <= |s.b|;
      var t := CutFront(s, until).value;
      HoldsEntries(t.h, t.b, ps[k..]);
    } else {
      assert Entries(s.h, s.b)[0..] == Entries(s.h, s.b);
    }
  }

  lemma NoMemoFits(walNo: nat, h: Header, b: seq<byte>)
    ensures MemoFits(None, walNo, h, b)
  {
  }

  lemma CutBackOk(s: Seg, from: u64, walSize: nat)
    requires SegOk(s, walSize) && ValidWalSize(walSize) && s.h.idFrom <= from
    ensures CutBack(s, from).Ok?
    ensures var t := CutBack(s, from).value;
      && SegOk(t, walSize) && t.walNo == s.walNo && t.b == s.b && t.synced == s.synced
      && t.h.idFrom == s.h.idFrom
      && Entries(t.h, t.b) == Entries(s.h, s.b)[..Clamp(from - s.h.idFrom, |Entries(s.h, s.b)|)]
      && t.mapped == (s.mapped || (s.h.idFrom < from <= s.h.idUntil && s.h.dataStart.Some?))
  {
    hide ReadLogs, Next, Chain, Payloads, MemoFits, MemoMatches;
    EntriesLength(s.h, s.b);
    var ps, k := Entries(s.h, s.b), from - s.h.idFrom;
    if s.h.idFrom < from <= s.h.idUntil && s.h.dataStart.Some? {
      var start := s.h.dataStart.value;
      NoMemoFits(s.walNo, s.h, s.b);
      ReadLogsExact(s.walNo, s.h, s.b, from, from, None);
      ChainSplit(s.b, start, s.h.idFrom, ps, k);
      NextSplit(start, ps, k);
      var off := Next(start, ps[..k]);
      assert off <= Next(off, ps[k..]) <= |s.b|;
      var t := CutBack(s, from).value;
      HoldsEntries(t.h, t.b, ps[..k]);
    } else {
      assert ps[..|ps|] == ps;
    }
  }

  // ---- the whole set

  lemma SetPaired(v: seq<Seg>, walSize: nat)
    requires SetOk(v, walSize)
    ensures DataPaired(v)
  {
    hide Holds;
    forall i | 0 <= i < |v| ensures v[i].h.dataStart.Some? == v[i].h.dataEnd.Some? {
      assert SegOk(v[i], walSize);
    }
  }

  lemma FreshSetOk(walNo: u64, walSize: nat)
    requires ValidWalSize(walSize)
    ensures SetOk([Fresh(walNo, walSize)], walSize) && LogOf([Fresh(walNo, walSize)]) == map[]
  {
    hide HeaderBytes;
    FlatSingle(Fresh(walNo, walSize));
  }

  /** A prefix of a linked set covers the ids up to the file behind it. */
  lemma PrefixLength(v: seq<Seg>, walSize: nat, k: nat)
    requires Linked(v, walSize) && k < |v|
    ensures |Flat(v[..k])| == v[k].h.idFrom - v[0].h.idFrom
  {
    hide SegOk, Entries;
    if k > 0 {
      LinkedTail(v, walSize, k);
      FlatLength(v[..k], walSize);
      assert JoinedAt(v, k - 1);
    }
  }

  lemma FlatCons(s: Seg, v: seq<Seg>)
    ensures Flat([s] + v) == Entries(s.h, s.b) + Flat(v)
  {
    hide Entries;
    assert ([s] + v)[1..] == v;
  }

  /** What `purge(u)` does: delete the files below `u` and cut the first remaining one, or start over. */
  function Purge(v: seq<Seg>, u: u64, walSize: nat): seq<Seg>
    requires v != [] && DataPaired(v) && OFFSET_LOGS <= walSize
  {
    var r := ShiftDelete(v, 0, u, walSize);
    if r.Ok? then r.value else v
  }

  function Truncate(v: seq<Seg>, k: u64, walSize: nat): seq<Seg>
    requires v != [] && DataPaired(v) && OFFSET_LOGS <= walSize
  {
    var r := ShiftDelete(v, k, U64_MAX, walSize);
    if r.Ok? then r.value else v
  }

  lemma PurgeShape(v: seq<Seg>, u: u64, walSize: nat)
    requires SetOk(v, walSize)
    ensures DataPaired(v) && ShiftDelete(v, 0, u, walSize).Ok?
    ensures var k := FrontCount(v, u);
      && (forall i :: 0 <= i < k ==> v[i].h.idUntil < u)
      && (k == |v| ==> Purge(v, u, walSize) == [Fresh(1, walSize)])
      && (k < |v| ==> u <= v[k].h.idUntil && CutFront(v[k], u).Ok?
                      && Purge(v, u, walSize) == Cut(v, k, CutFront(v[k], u).value))
  {
    hide Entries, Flat, FileOk, CutFront, PopFront, FrontCount, Fresh;
    SetPaired(v, walSize);
    PopFrontIsSuffix(v, u);
    var k := FrontCount(v, u);
    if k < |v| {
      assert SegOk(v[k], walSize);
      CutFrontOk(v[k], u, walSize);
      assert PopFront(v, u)[0] == v[k];
    }
  }

  /** `purge(u)` drops exactly the ids below `u`; entry `u` itself stays. */
  lemma PurgeDropsBelow(v: seq<Seg>, u: u64, walSize: nat)
    requires SetOk(v, walSize)
    ensures DataPaired(v)
    ensures SetOk(Purge(v, u, walSize), walSize)
    ensures LogOf(Purge(v, u, walSize)) == DropBelow(LogOf(v), u)
    ensures Last(v).mapped ==> Last(Purge(v, u, walSize)).mapped
  {
    hide Entries, Flat, FileOk, CutFront, FrontCount, Fresh, Purge;
    PurgeShape(v, u, walSize);
    var k := FrontCount(v, u);
    if k == |v| {
      FlatLength(v, walSize);
      MapDropBelow(v[0].h.idFrom, Flat(v), u);
      FreshSetOk(1, walSize);
      FreshMapped(1, walSize);
      assert SegOk(Last(v), walSize);
    } else {
      assert SegOk(v[k], walSize);
      PurgeInside(v, u, walSize, k);
    }
  }

  lemma FreshMapped(walNo: u64, walSize: nat)
    requires OFFSET_LOGS <= walSize
    ensures Fresh(walNo, walSize).mapped
  {
  }

  lemma DropInto<T>(a: seq<T>, e: seq<T>, r: seq<T>, d: nat)
    requires d <= |e|
    ensures (a + (e + r))[|a| + d..] == e[d..] + r
  {
  }

  /** The set with its first `k` files gone and file `k` replaced by a cut one. */
  function Cut(v: seq<Seg>, k: nat, s: Seg): seq<Seg>
    requires k < |v|
  {
    [s] + v[k..][1..]
  }

  lemma CutLinked(v: seq<Seg>, k: nat, s: Seg, walSize: nat)
    requires SetOk(v, walSize) && k < |v| && SegOk(s, walSize)
    requires s.walNo == v[k].walNo && s.h.idUntil == v[k].h.idUntil && s.h.dataStart.Some? == v[k].h.dataStart.Some?
    ensures SetOk(Cut(v, k, s), walSize)
  {
    hide SegOk;
    var w := Cut(v, k, s);
    assert forall i :: 1 <= i < |w| ==> w[i] == v[k + i];
    forall i | 0 <= i < |w| - 1 ensures JoinedAt(w, i) {
      assert JoinedAt(v, k + i);
    }
  }

  lemma CutFlat(v: seq<Seg>, k: nat, s: Seg, walSize: nat)
    requires SetOk(v, walSize) && k < |v|
    requires v[k].h.idFrom <= s.h.idFrom <= v[k].h.idFrom + |Entries(v[k].h, v[k].b)|
    requires Entries(s.h, s.b) == Entries(v[k].h, v[k].b)[s.h.idFrom - v[k].h.idFrom..]
    ensures v[0].h.idFrom <= s.h.idFrom <= v[0].h.idFrom + |Flat(v)|
    ensures Flat(Cut(v, k, s)) == Flat(v)[s.h.idFrom - v[0].h.idFrom..]
  {
    hide Entries, Flat, SegOk;
    var rest := v[k..][1..];
    FlatSplit(v, k);
    assert v[k..] == [v[k]] + rest;
    FlatCons(v[k], rest);
    FlatCons(s, rest);
    PrefixLength(v, walSize, k);
    DropInto(Flat(v[..k]), Entries(v[k].h, v[k].b), Flat(rest), s.h.idFrom - v[k].h.idFrom);
  }

  /** Where the cut lies in the flat log. */
  lemma CutPoint(v: seq<Seg>, u: u64, walSize: nat, k: nat, idFrom: nat)
    requires SetOk(v, walSize) && k < |v| && u <= v[k].h.idUntil
    requires 0 < k ==> v[k - 1].h.idUntil < u
    requires idFrom == if v[k].h.dataStart.Some? then Max(v[k].h.idFrom, u) else v[k].h.idFrom
    ensures idFrom - v[0].h.idFrom == Clamp(u - v[0].h.idFrom, |Flat(v)|)
    ensures v[k].h.idFrom <= idFrom <= v[k].h.idFrom + |Entries(v[k].h, v[k].b)|
  {
    hide Entries, Flat, FileOk;
    LastFileEnds(v, walSize, k);
    FlatLength(v, walSize);
    PrefixLength(v, walSize, k);
    if k > 0 {
      assert JoinedAt(v, k - 1);
    }
  }

  lemma PurgeInside(v: seq<Seg>, u: u64, walSize: nat, k: nat)
    requires SetOk(v, walSize) && k < |v| && v[k].h.dataStart.Some? == v[k].h.dataEnd.Some?
    requires u <= v[k].h.idUntil && (0 < k ==> v[k - 1].h.idUntil < u)
    ensures CutFront(v[k], u).Ok?
    ensures var w := Cut(v, k, CutFront(v[k], u).value);
      && SetOk(w, walSize)
      && LogOf(w) == DropBelow(LogOf(v), u)
      && (Last(v).mapped ==> Last(w).mapped)
  {
    hide Entries, Flat, FileOk, CutFront, MapOf, DropBelow;
    assert SegOk(v[k], walSize);
    CutFrontOk(v[k], u, walSize);
    var s := CutFront(v[k], u).value;
    CutLinked(v, k, s, walSize);
    CutPoint(v, u, walSize, k, s.h.idFrom);
    CutFlat(v, k, s, walSize);
    MapDropBelow(v[0].h.idFrom, Flat(v), u);
  }

  lemma LastFileEnds(v: seq<Seg>, walSize: nat, k: nat)
    requires SetOk(v, walSize) && k < |v|
    ensures v[k].h.dataStart.None? ==> k == |v| - 1 && v[k].h.idFrom == v[k].h.idUntil
    ensures After(v[k].h) <= After(Last(v).h)
    ensures |Entries(v[k].h, v[k].b)| == After(v[k].h) - v[k].h.idFrom
    decreases |v| - k
  {
    hide Holds, Entries;
    assert SegOk(v[k], walSize);
    EntriesLength(v[k].h, v[k].b);
    if k < |v| - 1 {
      assert JoinedAt(v, k);
      LastFileEnds(v, walSize, k + 1);
    }
  }

  // ---- truncation

  /** Truncating down to nothing: below the first id every file is deleted and numbering restarts at 1. */
  lemma TruncateAll(v: seq<Seg>, k: u64, walSize: nat)
    requires SetOk(v, walSize) && k <= v[0].h.idFrom
    ensures DataPaired(v) && ShiftDelete(v, k, U64_MAX, walSize) == Ok([Fresh(1, walSize)])
    ensures LogOf([Fresh(1, walSize)]) == DropFrom(LogOf(v), k) == map[]
  {
    hide Entries, Flat, FileOk, PopFront, FrontCount, Fresh;
    SetPaired(v, walSize);
    PopFrontIsSuffix(v, U64_MAX);
    var n := FrontCount(v, U64_MAX);
    assert n < |v| ==> SegOk(v[n], walSize);
    FreshSetOk(1, walSize);
  }

  /** The file `n - 1` that stays the last one holds the cut, or the cut lies behind all entries. */
  lemma CutInside(v: seq<Seg>, k: u64, walSize: nat, n: nat)
    requires SetOk(v, walSize) && 0 < n <= |v| && v[n - 1].h.idFrom <= k
    requires n < |v| ==> k < v[n].h.idFrom
    ensures |Flat(v[..n - 1])| == v[n - 1].h.idFrom - v[0].h.idFrom
    ensures Flat(v)[..Clamp(k - v[0].h.idFrom, |Flat(v)|)]
         == Flat(v[..n - 1]) + Entries(v[n - 1].h, v[n - 1].b)
            [..Clamp(k - v[n - 1].h.idFrom, |Entries(v[n - 1].h, v[n - 1].b)|)]
  {
    hide Entries, Flat, FileOk;
    var a, e, rest := Flat(v[..n - 1]), Entries(v[n - 1].h, v[n - 1].b), Flat(v[n..]);
    FlatSplit(v, n - 1);
    assert v[n - 1..] == [v[n - 1]] + v[n..];
    FlatCons(v[n - 1], v[n..]);
    PrefixLength(v, walSize, n - 1);
    LastFileEnds(v, walSize, n - 1);
    if n < |v| {
      assert JoinedAt(v, n - 1);
    } else {
      assert v[n..] == [];
      assert rest == [] by { FlatNil(); }
    }
    assert Flat(v) == a + (e + rest);
  }

  lemma FlatNil()
    ensures Flat([]) == []
  {
  }

  lemma PrefixLinked(v: seq<Seg>, n: nat, s: Seg, walSize: nat)
    requires SetOk(v, walSize) && 0 < n <= |v| && SegOk(s, walSize)
    requires s.walNo == v[n - 1].walNo && s.h.idFrom == v[n - 1].h.idFrom
    ensures SetOk(WithLast(v[..n], s), walSize)
  {
    hide SegOk;
    var w := WithLast(v[..n], s);
    assert forall i :: 0 <= i < n - 1 ==> w[i] == v[i];
    forall i | 0 <= i < |w| - 1 ensures JoinedAt(w, i) {
      assert JoinedAt(v, i);
    }
  }

  lemma TruncateInside(v: seq<Seg>, k: u64, walSize: nat, n: nat)
    requires SetOk(v, walSize) && 0 < n <= |v| && v[n - 1].h.idFrom <= k
    requires n < |v| ==> k < v[n].h.idFrom
    requires v[n - 1].h.dataStart.Some? == v[n - 1].h.dataEnd.Some?
    ensures CutBack(v[n - 1], k).Ok?
    ensures var w := WithLast(v[..n], CutBack(v[n - 1], k).value);
      && SetOk(w, walSize)
      && LogOf(w) == DropFrom(LogOf(v), k)
      && (Last(w).mapped <==> v[n - 1].mapped || (n < |v| && v[n - 1].h.idFrom < k)
                              || (n == |v| && v[n - 1].h.idFrom < k <= v[n - 1].h.idUntil
                                  && v[n - 1].h.dataStart.Some?))
  {
    hide Entries, Flat, FileOk, CutBack, MapOf, DropFrom;
    assert SegOk(v[n - 1], walSize);
    CutBackOk(v[n - 1], k, walSize);
    var s := CutBack(v[n - 1], k).value;
    PrefixLinked(v, n, s, walSize);
    CutInside(v, k, walSize, n);
    FlatLast(v[..n], s);
    assert v[..n][..n - 1] == v[..n - 1];
    MapDropFrom(v[0].h.idFrom, Flat(v), k);
    assert n < |v| ==> JoinedAt(v, n - 1);
    assert WithLast(v[..n], s)[0].h.idFrom == v[0].h.idFrom;
  }

  /** A sealed file, not the last one, that starts exactly at `k`: truncating there leaves it unmapped. */
  predicate SealedStart(v: seq<Seg>, k: nat) {
    exists i :: 0 < i < |v| - 1 && v[i].h.idFrom == k && !v[i].mapped
  }

  lemma TruncateShape(v: seq<Seg>, k: u64, walSize: nat)
    requires SetOk(v, walSize)
    ensures DataPaired(v) && ShiftDelete(v, k, U64_MAX, walSize).Ok?
    ensures k <= v[0].h.idFrom ==> Truncate(v, k, walSize) == [Fresh(1, walSize)]
    ensures v[0].h.idFrom < k ==>
      var n := BackCount(v, k);
      && 0 < n <= |v| && v[n - 1].h.idFrom <= k && (n < |v| ==> k < v[n].h.idFrom)
      && CutBack(v[n - 1], k).Ok? && Truncate(v, k, walSize) == WithLast(v[..n], CutBack(v[n - 1], k).value)
  {
    hide Entries, Flat, FileOk, CutBack, PopBack, BackCount, Fresh;
    SetPaired(v, walSize);
    if k <= v[0].h.idFrom {
      TruncateAll(v, k, walSize);
    } else {
      PopBackIsPrefix(v, k);
      var n := BackCount(v, k);
      assert SegOk(Last(v), walSize);
      assert SegOk(v[n - 1], walSize);
      CutBackOk(v[n - 1], k, walSize);
      assert Last(PopBack(v, k)) == v[n - 1];
    }
  }

  /**
  `truncate(k)` drops exactly the ids from `k` on. The new active file is writable, with one exception:
  a cut at the first id of a sealed file does not map that file again, and the next append panics.
  */
  lemma TruncateDropsFrom(v: seq<Seg>, k: u64, walSize: nat)
    requires SetOk(v, walSize)
    ensures DataPaired(v)
    ensures SetOk(Truncate(v, k, walSize), walSize)
    ensures LogOf(Truncate(v, k, walSize)) == DropFrom(LogOf(v), k)
    ensures Last(v).mapped ==> (Last(Truncate(v, k, walSize)).mapped <==> !SealedStart(v, k))
  {
    hide Entries, Flat, FileOk, CutBack, BackCount, Fresh, LogOf, DropFrom, Truncate;
    TruncateShape(v, k, walSize);
    IdsAscend(v, walSize);
    if k <= v[0].h.idFrom {
      TruncateAll(v, k, walSize);
      FreshSetOk(1, walSize);
      FreshMapped(1, walSize);
    } else {
      var n := BackCount(v, k);
      assert SegOk(v[n - 1], walSize);
      TruncateInside(v, k, walSize, n);
      if SealedStart(v, k) {
        var i :| 0 < i < |v| - 1 && v[i].h.idFrom == k && !v[i].mapped;
        assert i == n - 1;
      }
    }
  }

  ghost predicate Ascending(v: seq<Seg>) {
    forall i, j :: 0 <= i < j < |v| ==> v[i].h.idFrom < v[j].h.idFrom
  }

  lemma {:induction false} IdsAscend(v: seq<Seg>, walSize: nat)
    requires Linked(v, walSize)
    ensures Ascending(v)
    decreases |v|
  {
    hide Holds;
    if |v| > 1 {
      LinkedTail(v, walSize, 1);
      IdsAscend(v[1..], walSize);
      assert JoinedAt(v, 0);
      assert SegOk(v[0], walSize);
      forall i, j | 0 <= i < j < |v| ensures v[i].h.idFrom < v[j].h.idFrom {
        assert v[j] == v[1..][j - 1];
        if i > 0 {
          assert v[i] == v[1..][i - 1];
        } else if j > 1 {
          assert v[1] == v[1..][0];
        }
      }
    }
  }
}
