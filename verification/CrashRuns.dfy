/**
Crash repair over runs: as long as no truncation leaves records behind the end of the active file, that
file is append-only, so that whatever moment of the next append a crash hits, the check at the next
start ends with exactly the entries of the file, and the new one if it is complete.
*/
module CrashRuns {
  import opened Base
  import opened Records
  import opened CrashRepair
  import opened WalSet
  import opened WalRemove
  import opened WalRuns

  /**
  The bytes hold the records `ps` from offset `o` and zeros behind them, the header on disk knows the
  first `m`, and the entries of the file are the last of them: a purge does not write the header.
  */
  ghost predicate OnDisk(s: Seg, o: nat, id: nat, ps: seq<seq<byte>>, m: nat) {
    && AppendOnly(s.b, o, id, ps, m)
    && 0 <= s.h.idFrom - id < |ps|
    && Entries(s.h, s.b) == ps[s.h.idFrom - id..]
    && s.h.dataEnd.Some? && Next(o, ps) == s.h.dataEnd.value + 1
  }

  /** An unused file, or an append-only one whose header covers at least the first entry. */
  ghost predicate ActiveClean(s: Seg) {
    if s.h.dataStart.None? then s.h.dataEnd.None? && ZeroFrom(s.b, OFFSET_LOGS)
    else exists o, id, ps, m :: OnDisk(s, o, id, ps, m)
  }

  lemma FreshClean(walNo: u64, walSize: nat, id: u64)
    requires OFFSET_LOGS <= walSize
    ensures ActiveClean(Fresh(walNo, walSize).(h := Header(id, id, None, None)))
  {
    hide HeaderBytes;
  }

  lemma AppendedClean(s: Seg, id: u64, p: seq<byte>, walSize: nat)
    requires SegOk(s, walSize) && ValidWalSize(walSize) && ActiveClean(s) && 0 < |p| && HasSpace(s.h, |s.b|, |p|)
    requires s.h.dataStart.Some? ==> id == s.h.idUntil + 1
    ensures Start(s.h) + HEAD + |p| < |s.b|
    ensures var img := Appended(s.h, s.b, id, p);
      ActiveClean(s.(h := img.h, b := img.b))
  {
    hide FileOk, Appended, Entries, OnDisk;
    AppendedHolds(s.h, s.b, id, p);
    AppendedFields(s.h, s.b, id, p);
    if s.h.dataStart.None? {
      FirstOnDisk(s, id, p, walSize);
    } else {
      var o, id0, ps, m :| OnDisk(s, o, id0, ps, m);
      NextOnDisk(s, id, p, o, id0, ps, m, walSize);
    }
  }

  lemma FirstOnDisk(s: Seg, id: u64, p: seq<byte>, walSize: nat)
    requires SegOk(s, walSize) && ValidWalSize(walSize) && 0 < |p| && HasSpace(s.h, |s.b|, |p|)
    requires s.h.dataStart.None? && s.h.dataEnd.None? && ZeroFrom(s.b, OFFSET_LOGS)
    ensures Start(s.h) + HEAD + |p| < |s.b|
    ensures var img := Appended(s.h, s.b, id, p);
      OnDisk(s.(h := img.h, b := img.b), OFFSET_LOGS, id, [p], 1)
  {
    hide FileOk, Appended, AppendOnly, Entries, OnDisk, ZeroFrom, Next;
    FirstRecord(s, id, p, walSize);
    FirstAppendIsAppendOnly(s.h, s.b, id, p);
    var img := Appended(s.h, s.b, id, p);
    NextOne(OFFSET_LOGS, p);
    AllOnDisk(s.(h := img.h, b := img.b), OFFSET_LOGS, [p], 1);
  }

  lemma FirstRecord(s: Seg, id: u64, p: seq<byte>, walSize: nat)
    requires SegOk(s, walSize) && ValidWalSize(walSize) && 0 < |p| && HasSpace(s.h, |s.b|, |p|)
    requires s.h.dataStart.None? && s.h.dataEnd.None?
    ensures Start(s.h) + HEAD + |p| < |s.b|
    ensures var img := Appended(s.h, s.b, id, p);
      Entries(img.h, img.b) == [p] && img.h.idFrom == id && img.h.dataEnd == Some(OFFSET_LOGS + HEAD + |p|)
  {
    hide FileOk, Appended, Entries;
    AppendedHolds(s.h, s.b, id, p);
    AppendedFields(s.h, s.b, id, p);
    AppendedEnd(s.h, s.b, id, p);
    NoEntriesYet(s.h, s.b);
    assert [] + [p] == [p];
  }

  lemma AllOnDisk(t: Seg, o: nat, ps: seq<seq<byte>>, m: nat)
    requires AppendOnly(t.b, o, t.h.idFrom, ps, m) && Entries(t.h, t.b) == ps && ps != []
    requires t.h.dataEnd.Some? && Next(o, ps) == t.h.dataEnd.value + 1
    ensures OnDisk(t, o, t.h.idFrom, ps, m)
  {
    hide AppendOnly, Entries, Next;
    assert ps[0..] == ps;
  }

  lemma NextOnDisk(s: Seg, id: u64, p: seq<byte>, o: nat, id0: nat, ps: seq<seq<byte>>, m: nat, walSize: nat)
    requires SegOk(s, walSize) && ValidWalSize(walSize) && 0 < |p| && HasSpace(s.h, |s.b|, |p|)
    requires s.h.dataStart.Some? && id == s.h.idUntil + 1 && OnDisk(s, o, id0, ps, m)
    ensures Start(s.h) + HEAD + |p| < |s.b|
    ensures var img := Appended(s.h, s.b, id, p);
      OnDisk(s.(h := img.h, b := img.b), o, id0, ps + [p], m)
  {
    hide FileOk, Appended, AppendOnly, Entries, Chain, Next;
    AppendedHolds(s.h, s.b, id, p);
    AppendedFields(s.h, s.b, id, p);
    AppendedEnd(s.h, s.b, id, p);
    EndsAtStart(s, walSize);
    var d := s.h.idFrom - id0;
    AppendedBytes(s.h, s.b, id, p);
    AppendKeepsAppendOnly(s.b, o, id0, ps, m, p);
    NextSnoc(o, ps, p);
    assert (ps + [p])[d..] == ps[d..] + [p];
  }

  lemma AppendedEnd(h: Header, b: seq<byte>, id: u64, p: seq<byte>)
    requires OFFSET_LOGS <= |b| <= U32_MAX && Start(h) + HEAD + |p| <= |b|
    ensures Appended(h, b, id, p).h.dataEnd == Some(Start(h) + HEAD + |p|)
  {
    hide HeaderBytes, RecordBytes;
  }

  lemma AppendedBytes(h: Header, b: seq<byte>, id: u64, p: seq<byte>)
    requires OFFSET_LOGS <= |b| <= U32_MAX && Start(h) + HEAD + |p| <= |b| && h.dataStart.Some?
    ensures Appended(h, b, id, p).b == Splice(b, Start(h), RecordBytes(id, p))
  {
    hide HeaderBytes, RecordBytes;
  }

  lemma FlushedClean(s: Seg, walSize: nat)
    requires SegOk(s, walSize) && ValidWalSize(walSize) && ActiveClean(s)
    ensures ActiveClean(Flushed(s))
  {
    hide FileOk, HeaderBytes, Entries, Chain, Next;
    FlushedOk(s, walSize);
    if s.h.dataStart.Some? {
      EndsAtStart(s, walSize);
      var o, id0, ps, m :| OnDisk(s, o, id0, ps, m);
      var es, start := Entries(s.h, s.b), s.h.dataStart.value;
      assert es[..|es|] == es == es[0..];
      FileImage(s.h, s.b);
      FlushKeepsAppendOnly(s.b, start, s.h.idFrom, es, |es|);
      assert OnDisk(Flushed(s), start, s.h.idFrom, es, |es|);
    }
  }

  /** A purge cuts the file in memory; its bytes and the header on disk stay. */
  lemma PurgedClean(s: Seg, u: u64, walSize: nat)
    requires SegOk(s, walSize) && ValidWalSize(walSize) && ActiveClean(s)
    requires s.h.dataStart.Some? ==> u <= s.h.idUntil
    ensures s.h.dataStart.Some? == s.h.dataEnd.Some? && CutFront(s, u).Ok? && ActiveClean(CutFront(s, u).value)
  {
    hide FileOk, Entries, Chain, Next, AppendOnly;
    SegOrder(s, walSize);
    CutFrontOk(s, u, walSize);
    var t := CutFront(s, u).value;
    if s.h.dataStart.Some? {
      EntriesLength(s.h, s.b);
      EntriesLength(t.h, t.b);
      var o, id0, ps, m :| OnDisk(s, o, id0, ps, m);
      var d, k := s.h.idFrom - id0, t.h.idFrom - s.h.idFrom;
      assert ps[d..][k..] == ps[d + k..];
      assert OnDisk(t, o, id0, ps, m);
    }
  }

  /** A truncation that leaves records behind the end of a file that stays. */
  predicate Erases(v: seq<Seg>, op: Op)
    requires v != []
  {
    op.TruncateAt? && v[0].h.idFrom < op.k < After(Last(v).h)
  }

  ghost predicate ErasesNone(v: seq<Seg>, ops: seq<Op>, walSize: nat)
    requires SetOk(v, walSize) && LegalRun(v, ops, walSize)
    decreases |ops|
  {
    ops == [] || (!Erases(v, ops[0])
                  && (StepRefines(v, ops[0], walSize); ErasesNone(Step(v, ops[0], walSize), ops[1..], walSize)))
  }

  lemma StepActive(v: seq<Seg>, op: Op, walSize: nat)
    requires SetOk(v, walSize) && Legal(v, op, walSize) && ActiveClean(Last(v)) && !Erases(v, op)
    ensures Step(v, op, walSize) != [] && ActiveClean(Last(Step(v, op, walSize)))
  {
    hide FileOk, ActiveClean, Appended, Flushed, NewBytes, LogOf, Purge, Truncate, After;
    assert SegOk(Last(v), walSize);
    match op
    case Append(id, p) =>
      AppendExtendsLog(v, id, p, walSize);
      AppendActive(v, id, p, walSize);
    case Seal => FreshClean(Last(v).walNo + 1, walSize, Last(v).h.idUntil + 1);
    case PurgeTo(u) => PurgeActive(v, u, walSize);
    case TruncateAt(k) => TruncateActive(v, k, walSize);
    case Flush => FlushedClean(Last(v), walSize);
  }

  lemma PurgeActive(v: seq<Seg>, u: u64, walSize: nat)
    requires SetOk(v, walSize) && ActiveClean(Last(v))
    ensures DataPaired(v) && Purge(v, u, walSize) != [] && ActiveClean(Last(Purge(v, u, walSize)))
  {
    hide FileOk, ActiveClean, NewBytes, LogOf, Purge, CutFront, Linked, FrontCount;
    PurgeShape(v, u, walSize);
    var n := FrontCount(v, u);
    if n == |v| {
      FreshClean(1, walSize, 0);
    } else if n == |v| - 1 {
      LastOk(v, walSize);
      PurgedClean(v[n], u, walSize);
    }
  }

  lemma TruncateActive(v: seq<Seg>, k: u64, walSize: nat)
    requires SetOk(v, walSize) && ActiveClean(Last(v)) && !Erases(v, TruncateAt(k))
    ensures DataPaired(v) && Truncate(v, k, walSize) != [] && ActiveClean(Last(Truncate(v, k, walSize)))
  {
    hide FileOk, NewBytes, LogOf, Truncate, Linked, OnDisk;
    TruncateShape(v, k, walSize);
    LastOk(v, walSize);
    SegOrder(Last(v), walSize);
    if k <= v[0].h.idFrom {
      FreshClean(1, walSize, 0);
    } else {
      assert BackCount(v, k) == |v|;
    }
  }

  lemma AppendActive(v: seq<Seg>, id: u64, p: seq<byte>, walSize: nat)
    requires SetOk(v, walSize) && Legal(v, Append(id, p), walSize) && ActiveClean(Last(v))
    requires HasSpace(Last(v).h, |Last(v).b|, |p|) || Last(v).h.dataStart.Some?
    ensures ActiveClean(Last(AppendTo(v, id, p, walSize)))
  {
    hide FileOk, ActiveClean, Appended, Flushed, NewBytes, LogOf;
    assert SegOk(Last(v), walSize);
    if HasSpace(Last(v).h, |Last(v).b|, |p|) {
      AppendedClean(Last(v), id, p, walSize);
    } else {
      RollOverKeepsLog(v, walSize);
      var w := RollOver(v, walSize);
      assert SegOk(Last(w), walSize);
      FreshClean(Last(v).walNo + 1, walSize, Last(v).h.idUntil + 1);
      PayloadBounds(Last(w).h, walSize, |p|);
      AppendedClean(Last(w), id, p, walSize);
    }
  }

  lemma {:induction false} RunActive(v: seq<Seg>, ops: seq<Op>, walSize: nat)
    requires SetOk(v, walSize) && LegalRun(v, ops, walSize) && ErasesNone(v, ops, walSize) && ActiveClean(Last(v))
    ensures Run(v, ops, walSize) != [] && ActiveClean(Last(Run(v, ops, walSize)))
    decreases |ops|
  {
    hide ActiveClean, Step, Legal, Linked, Erases;
    if ops != [] {
      StepRefines(v, ops[0], walSize);
      StepActive(v, ops[0], walSize);
      RunActive(Step(v, ops[0], walSize), ops[1..], walSize);
    }
  }

  /** The check at the next start accepts the bytes `t` and ends with the records `ps`. */
  ghost predicate StartsWith(t: seq<byte>, heal: bool, s: nat, id: nat, ps: seq<seq<byte>>) {
    var h := ParseHeader(t);
    && OFFSET_LOGS <= |t| < U32_MAX && h.Ok? && h.value.dataStart.Some? == h.value.dataEnd.Some?
    && RepairedTo(h.value, t, heal, s, id, ps)
  }

  /**
  After any run, purges included, in which no truncation leaves records behind: if a crash hits the next
  append to a file that has data, anywhere, the next start ends with the records from the start in the
  header on disk, which end with the entries of the file, and with the new one if and only if its record
  is complete.
  */
  lemma CrashAfterRun(v: seq<Seg>, ops: seq<Op>, walSize: nat, id: u64, p: seq<byte>, t: seq<byte>, heal: bool)
    returns (h: Header, ps: seq<seq<byte>>)
    requires SetOk(v, walSize) && LegalRun(v, ops, walSize) && ErasesNone(v, ops, walSize) && ActiveClean(Last(v))
    requires Run(v, ops, walSize) != []
    requires var a := Last(Run(v, ops, walSize));
      && a.h.dataStart.Some? && id == a.h.idUntil + 1 && 0 < |p| && HasSpace(a.h, |a.b|, |p|)
      && CrashPoint(a.b, t, Start(a.h), id, p)
    ensures var a := Last(Run(v, ops, walSize));
      && ParseHeader(a.b) == Ok(h) && h.dataStart.Some?
      && 0 <= a.h.idFrom - h.idFrom < |ps| && ps[a.h.idFrom - h.idFrom..] == Entries(a.h, a.b)
      && StartsWith(t, heal, h.dataStart.value, h.idFrom, if RecordIn(t, Start(a.h), id, p) then ps + [p] else ps)
  {
    hide FileOk, Run, LegalRun, CrashPoint, RecordIn, Entries, Next, RepairedTo, ParseHeader, Linked;
    hide AppendOnly, ErasesNone;
    RunRefines(v, ops, walSize);
    RunActive(v, ops, walSize);
    var a := Last(Run(v, ops, walSize));
    LastOk(Run(v, ops, walSize), walSize);
    EndsAtStart(a, walSize);
    AppendedHolds(a.h, a.b, id, p);
    var o, id0, qs, m :| OnDisk(a, o, id0, qs, m);
    ps := qs;
    h := CrashNow(a, o, id0, ps, m, p, t, heal, walSize);
  }

  lemma CrashNow(a: Seg, o: nat, id0: nat, ps: seq<seq<byte>>, m: nat, p: seq<byte>, t: seq<byte>, heal: bool,
                 walSize: nat) returns (h: Header)
    requires SegOk(a, walSize) && a.h.dataStart.Some? && OnDisk(a, o, id0, ps, m) && a.h.idUntil < U64_MAX
    requires CrashPoint(a.b, t, Start(a.h), a.h.idUntil + 1, p) && Start(a.h) + Stride(p) <= |a.b|
    ensures ParseHeader(a.b) == Ok(h) && h.dataStart == Some(o) && h.idFrom == id0
    ensures StartsWith(t, heal, o, id0, if RecordIn(t, Start(a.h), a.h.idUntil + 1, p) then ps + [p] else ps)
  {
    hide FileOk, CrashPoint, RecordIn, Entries, Next, RepairedTo, ParseHeader, HeaderBytes, Chain;
    EndsAtStart(a, walSize);
    h := Covering(o, id0, ps, m);
    IdleRepairExact(a.b, o, id0, ps, m, heal);
    CrashRepairExact(a.b, o, id0, ps, m, p, t, heal);
    CrashLength(a.b, t, Start(a.h), a.h.idUntil + 1, p);
  }

  lemma LastOk(v: seq<Seg>, walSize: nat)
    requires SetOk(v, walSize)
    ensures SegOk(Last(v), walSize) && FileOk(Last(v).h, Last(v).b) && MIN_WAL_SIZE <= |Last(v).b| < U32_MAX
  {
    assert SegOk(Last(v), walSize);
  }

  lemma CrashLength(b: seq<byte>, t: seq<byte>, e: nat, id: u64, p: seq<byte>)
    requires CrashPoint(b, t, e, id, p)
    ensures |t| == |b|
  {
  }
}
