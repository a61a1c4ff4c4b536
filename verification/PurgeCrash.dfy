/**
A crash in the middle of a purge (hiqlite-wal/src/writer.rs): flush, persist the frontier, delete the
files one by one. No entry between the frontier and the first entry on disk may be missing.
*/
module PurgeCrash {
  import opened Base
  import opened Positional
  import opened Records
  import opened WalSet
  import opened WalRemove
  import opened WalRuns
  import opened WalDurability
  import opened WalMemo
  import opened Restart

  /** What a restart finds: the remaining files and the persisted index of the last purged entry, -1 for none. */
  datatype Disk = Disk(files: seq<Seg>, frontier: int)

  predicate HasData(b: seq<byte>) {
    var h := ParseHeader(b);
    h.Ok? && h.value.dataStart.Some?
  }

  /** The first id according to the header bytes of a file that has data. */
  predicate StartsBy(b: seq<byte>, id: int) {
    HasData(b) ==> ParseHeader(b).value.idFrom <= id
  }

  predicate StartsAt(b: seq<byte>, id: int) {
    HasData(b) ==> ParseHeader(b).value.idFrom == id
  }

  /** The directory after the crash: of each file the header of the last flush, or the one the system wrote back. */
  ghost predicate Survives(dir: Listing, files: seq<Seg>) {
    && Nameable(files)
    && (forall i :: 0 <= i < |files| ==>
         FileName(files[i].walNo) in dir && SurvivesAs(dir[FileName(files[i].walNo)], files[i]))
    && (forall n :: n in dir ==> n in Names(files))
  }

  predicate SurvivesAs(c: seq<byte>, s: Seg) {
    ParseHeader(c) == ParseHeader(s.b) || ParseHeader(c) == ParseHeader(s.synced)
  }

  /** The log read from the files `r` is empty, or its first id is at most one above the frontier. */
  predicate ReachesDownTo(r: seq<Seg>, frontier: int) {
    || (forall i :: 0 <= i < |r| ==> r[i].h.dataStart.None?)
    || (r[0].h.dataStart.Some? && r[0].h.idFrom <= frontier + 1)
  }

  /** Whatever the system wrote back before the crash, what `WalFileSet::read` finds leaves no hole. */
  ghost predicate NoHole(d: Disk) {
    forall dir, names :: Survives(dir, d.files) && IsListing(names, dir) ==>
        ReachesDownTo(ReadFiles(names, dir), d.frontier)
  }

  /** No header on its way to disk starts later than the header in memory, and none with data lost it. */
  predicate HeaderBehind(s: Seg) {
    StartsBy(s.synced, s.h.idFrom) && StartsBy(s.b, s.h.idFrom) && (s.h.dataStart.Some? ==> HasData(s.b))
  }

  /** Only the first file of a set is ever cut at the front; the headers of the others start where the file does. */
  predicate HeaderExact(s: Seg) {
    StartsAt(s.synced, s.h.idFrom) && StartsAt(s.b, s.h.idFrom)
  }

  ghost predicate Gapless(v: seq<Seg>, frontier: int)
    requires v != []
  {
    && v[0].h.idFrom <= frontier + 1
    && (forall i :: 0 <= i < |v| ==> HeaderBehind(v[i]))
    && (forall i :: 0 < i < |v| ==> HeaderExact(v[i]))
  }

  /** The listing of a crashed directory is the list of the names. */
  lemma SurvivingNames(v: seq<Seg>, walSize: nat, dir: Listing, names: seq<string>)
    requires Linked(v, walSize) && Survives(dir, v) && IsListing(names, dir)
    ensures names == Names(v)
  {
    hide SegOk, FileName, ParseHeader;
    NamesSorted(v, walSize);
    forall n ensures n in names <==> n in Names(v) {
      if n in Names(v) {
        var i :| 0 <= i < |v| && Names(v)[i] == n;
      }
    }
    SortedUnique(names, Names(v));
  }

  /** The first file is read, if its header can be. */
  lemma FirstRead(v: seq<Seg>, dir: Listing)
    requires Survives(dir, v) && v != [] && v[0].walNo <= U64_MAX
    ensures forall i :: 0 <= i < |Names(v)| ==> Names(v)[i] in dir
    ensures var c, r := dir[FileName(v[0].walNo)], ReadFiles(Names(v), dir);
      && (ParseHeader(c).Ok? ==> r != [] && r[0].h == ParseHeader(c).value)
      && (|v| == 1 && ParseHeader(c).Err? ==> r == []) && (|v| == 1 ==> |r| <= 1)
  {
    hide ParseHeader, FileName, ParseName;
    ParseFileName(v[0].walNo);
    assert Names(v)[0] == FileName(v[0].walNo);
  }

  /** A set that is on disk and whose first id is at most one above the frontier leaves no hole. */
  lemma GaplessNoHole(v: seq<Seg>, frontier: int, walSize: nat)
    requires SetOk(v, walSize) && HeaderBehind(v[0]) && Covered(v[0]) && v[0].h.idFrom <= frontier + 1
    ensures NoHole(Disk(v, frontier))
  {
    hide ParseHeader, FileName, SegOk, Entries, ReadFiles, FileOk;
    assert |v| > 1 ==> JoinedAt(v, 0);
    forall dir, names | Survives(dir, v) && IsListing(names, dir)
      ensures ReachesDownTo(ReadFiles(names, dir), frontier)
    {
      SurvivingNames(v, walSize, dir, names);
      FirstRead(v, dir);
    }
  }

  /** The moments of `purge(u)` at which the process may die. */
  function PurgePoints(v: seq<Seg>, before: int, u: u64, walSize: nat): (ds: seq<Disk>)
    requires v != [] && DataPaired(v) && OFFSET_LOGS <= walSize
  {
    [Disk(v, before)]
    + seq(FrontCount(v, u) + 1, j requires 0 <= j <= FrontCount(v, u) => Disk(v[j..], u))
    + [Disk(Purge(v, u, walSize), u)]
  }

  // ---- headers

  lemma SameHeaderBytes(b: seq<byte>, c: seq<byte>)
    requires |b| == |c| && OFFSET_LOGS <= |b| && b[..OFFSET_LOGS] == c[..OFFSET_LOGS]
    ensures ParseHeader(b) == ParseHeader(c)
  {
    hide FromBe;
    var p, q := b[..OFFSET_LOGS], c[..OFFSET_LOGS];
    assert p[..7] == b[..7] && q[..7] == c[..7] && p[7] == b[7] && q[7] == c[7];
    assert p[8..16] == b[8..16] && q[8..16] == c[8..16];
    assert p[16..24] == b[16..24] && q[16..24] == c[16..24];
    assert p[24..28] == b[24..28] && q[24..28] == c[24..28];
    assert p[28..32] == b[28..32] && q[28..32] == c[28..32];
  }

  lemma ZerosUnreadable(n: nat)
    ensures !HasData(Zeros(n))
  {
    hide FromBe;
    if OFFSET_LOGS <= n {
      assert Zeros(n)[..7][0] == 0;
    }
  }

  lemma FreshBehind(walNo: u64, walSize: nat, id: u64)
    requires OFFSET_LOGS <= walSize
    ensures var s := Fresh(walNo, walSize).(h := Header(id, id, None, None));
      HeaderBehind(s) && HeaderExact(s)
  {
    hide HeaderBytes, ParseHeader;
    ZerosUnreadable(walSize);
    assert NewBytes(walSize)[..OFFSET_LOGS] == HeaderBytes(NO_DATA);
    HeaderRoundTrip(NO_DATA, NewBytes(walSize));
  }

  lemma FlushedBehind(s: Seg, walSize: nat, mapped: bool)
    requires SegOk(s, walSize) && ValidWalSize(walSize)
    ensures HeaderBehind(Flushed(s).(mapped := mapped)) && HeaderExact(Flushed(s).(mapped := mapped))
  {
    hide HeaderBytes, ParseHeader, FileOk;
    SegOrder(s, walSize);
    var t := Flushed(s);
    assert t.b[..OFFSET_LOGS] == HeaderBytes(s.h);
    HeaderRoundTrip(s.h, t.b);
  }

  lemma AppendedBehind(s: Seg, id: u64, p: seq<byte>, walSize: nat)
    requires SegOk(s, walSize) && ValidWalSize(walSize) && HeaderBehind(s) && s.h.idFrom <= id
    requires 0 < |p| && HasSpace(s.h, |s.b|, |p|) && Start(s.h) + HEAD + |p| <= |s.b|
    ensures var img := Appended(s.h, s.b, id, p);
      var t := s.(h := img.h, b := img.b);
      HeaderBehind(t) && (HeaderExact(s) && (s.h.dataStart.None? ==> id == s.h.idFrom) ==> HeaderExact(t))
  {
    hide HeaderBytes, ParseHeader, FileOk, RecordBytes;
    SegOrder(s, walSize);
    var img := Appended(s.h, s.b, id, p);
    if s.h.dataStart.None? {
      assert img.b[..OFFSET_LOGS] == HeaderBytes(img.h);
      HeaderRoundTrip(img.h, img.b);
    } else {
      StartPastHeader(s, walSize);
      assert img.b[..OFFSET_LOGS] == s.b[..OFFSET_LOGS];
      SameHeaderBytes(s.b, img.b);
    }
  }

  lemma StartPastHeader(s: Seg, walSize: nat)
    requires SegOk(s, walSize) && s.h.dataStart.Some?
    ensures OFFSET_LOGS <= Start(s.h)
  {
    hide Chain, Payloads;
  }

  // ---- every step

  lemma RollOverGapless(v: seq<Seg>, frontier: int, walSize: nat)
    requires SetOk(v, walSize) && Last(v).walNo < U64_MAX && Last(v).h.dataStart.Some? && Gapless(v, frontier)
    ensures SegOk(Last(v), walSize) && Gapless(RollOver(v, walSize), frontier)
  {
    hide HeaderBehind, HeaderExact, FileOk, Flushed, NewBytes;
    assert SegOk(Last(v), walSize);
    var w := RollOver(v, walSize);
    FlushedBehind(Last(v), walSize, false);
    FreshBehind(Last(v).walNo + 1, walSize, Last(v).h.idUntil + 1);
    forall i | 0 <= i < |w| ensures HeaderBehind(w[i]) && (0 < i ==> HeaderExact(w[i])) {
      if i < |v| - 1 {
        assert w[i] == v[i];
      }
    }
  }

  lemma AppendLastGapless(v: seq<Seg>, id: u64, p: seq<byte>, frontier: int, walSize: nat)
    requires SetOk(v, walSize) && IsNext(v, id) && id <= MAX_ID && Gapless(v, frontier)
    requires 0 < |p| && HasSpace(Last(v).h, |Last(v).b|, |p|) && (NoEntries(v) ==> id <= frontier + 1)
    ensures SegOk(Last(v), walSize) && Start(Last(v).h) + HEAD + |p| < |Last(v).b|
    ensures var img := Appended(Last(v).h, Last(v).b, id, p);
      Gapless(WithLast(v, Last(v).(h := img.h, b := img.b)), frontier)
  {
    hide HeaderBehind, HeaderExact, FileOk, Appended, LogOf;
    var a := Last(v);
    AppendToLast(v, id, p, walSize);
    SegOrder(a, walSize);
    AppendedFields(a.h, a.b, id, p);
    AppendedBehind(a, id, p, walSize);
    var img := Appended(a.h, a.b, id, p);
    var w := WithLast(v, a.(h := img.h, b := img.b));
    forall i | 0 <= i < |w| ensures HeaderBehind(w[i]) && (0 < i ==> HeaderExact(w[i])) {
      if i < |v| - 1 {
        assert w[i] == v[i];
      }
    }
  }

  lemma AppendGapless(v: seq<Seg>, id: u64, p: seq<byte>, frontier: int, walSize: nat)
    requires SetOk(v, walSize) && Legal(v, Append(id, p), walSize) && Gapless(v, frontier)
    requires NoEntries(v) ==> id <= frontier + 1
    ensures HasSpace(Last(v).h, |Last(v).b|, |p|) || Last(v).h.dataStart.Some?
    ensures Gapless(AppendTo(v, id, p, walSize), frontier)
  {
    hide FileOk, Gapless, Appended, RollOver, SetOk;
    SetSize(v, walSize);
    AppendExtendsLog(v, id, p, walSize);
    if HasSpace(Last(v).h, |Last(v).b|, |p|) {
      AppendLastGapless(v, id, p, frontier, walSize);
    } else {
      RollOverGapless(v, frontier, walSize);
      RollOverKeepsLog(v, walSize);
      RolledOverNext(v, walSize);
      AppendLastGapless(RollOver(v, walSize), id, p, frontier, walSize);
    }
  }

  lemma CutBehind(s: Seg, t: Seg)
    requires HeaderBehind(s) && t.b == s.b && t.synced == s.synced && s.h.idFrom <= t.h.idFrom
    requires t.h.dataStart.Some? ==> s.h.dataStart.Some?
    ensures HeaderBehind(t) && (HeaderExact(s) && t.h.idFrom == s.h.idFrom ==> HeaderExact(t))
  {
    hide ParseHeader;
  }

  lemma CutBackData(s: Seg, k: u64)
    requires s.h.dataStart.Some? == s.h.dataEnd.Some? && CutBack(s, k).Ok?
    ensures CutBack(s, k).value.h.dataStart.Some? ==> s.h.dataStart.Some?
  {
    hide Scan.ReadLogs;
  }

  /** The first id of each file that can become the first one during `purge(u)`. */
  lemma FrontIds(v: seq<Seg>, before: int, u: u64, walSize: nat, j: nat)
    requires SetOk(v, walSize) && Gapless(v, before) && before <= u && j <= FrontCount(v, u) && j < |v|
    ensures v[j].h.idFrom <= u + 1
  {
    hide FileOk, FrontCount, HeaderBehind, HeaderExact;
    PopFrontIsSuffix(v, u);
    if j > 0 {
      assert JoinedAt(v, j - 1);
    }
  }

  lemma PurgeGapless(v: seq<Seg>, before: int, u: u64, walSize: nat)
    requires SetOk(v, walSize) && Gapless(v, before) && before <= u
    ensures DataPaired(v) && Purge(v, u, walSize) != [] && Gapless(Purge(v, u, walSize), u)
  {
    hide FileOk, Entries, CutFront, FrontCount, Purge, HeaderBehind, HeaderExact, NewBytes;
    PurgeShape(v, u, walSize);
    var k := FrontCount(v, u);
    var w := Purge(v, u, walSize);
    if k == |v| {
      FreshBehind(1, walSize, 0);
      assert Fresh(1, walSize).(h := Header(0, 0, None, None)) == Fresh(1, walSize);
    } else {
      FrontIds(v, before, u, walSize, k);
      assert SegOk(v[k], walSize);
      CutFrontOk(v[k], u, walSize);
      CutBehind(v[k], w[0]);
      forall i | 0 <= i < |w| ensures HeaderBehind(w[i]) && (0 < i ==> HeaderExact(w[i])) {
        if i > 0 {
          assert w[i] == v[k + i];
        }
      }
    }
  }

  lemma TruncateGapless(v: seq<Seg>, frontier: int, k: u64, walSize: nat)
    requires SetOk(v, walSize) && Gapless(v, frontier) && -1 <= frontier
    ensures DataPaired(v) && Truncate(v, k, walSize) != [] && Gapless(Truncate(v, k, walSize), frontier)
  {
    hide FileOk, Entries, CutBack, BackCount, Truncate, HeaderBehind, HeaderExact, NewBytes;
    TruncateShape(v, k, walSize);
    var w := Truncate(v, k, walSize);
    if k <= v[0].h.idFrom {
      FreshBehind(1, walSize, 0);
      assert Fresh(1, walSize).(h := Header(0, 0, None, None)) == Fresh(1, walSize);
    } else {
      var n := BackCount(v, k);
      assert SegOk(v[n - 1], walSize);
      CutBackOk(v[n - 1], k, walSize);
      CutBackData(v[n - 1], k);
      CutBehind(v[n - 1], Last(w));
      forall i | 0 <= i < |w| ensures HeaderBehind(w[i]) && (0 < i ==> HeaderExact(w[i])) {
        if i < n - 1 {
          assert w[i] == v[i];
        }
      }
    }
  }

  lemma FlushGapless(v: seq<Seg>, frontier: int, walSize: nat)
    requires SetOk(v, walSize) && Gapless(v, frontier)
    ensures SegOk(Last(v), walSize) && Gapless(WithLast(v, Flushed(Last(v))), frontier)
  {
    hide FileOk, HeaderBehind, HeaderExact, Flushed;
    var a := Last(v);
    assert SegOk(a, walSize);
    FlushedBehind(a, walSize, a.mapped);
    assert Flushed(a).(mapped := a.mapped) == Flushed(a);
    var w := WithLast(v, Flushed(a));
    forall i | 0 <= i < |w| ensures HeaderBehind(w[i]) && (0 < i ==> HeaderExact(w[i])) {
      if i < |v| - 1 {
        assert w[i] == v[i];
      }
    }
  }

  // ---- whole runs

  /** Purges move forward, and an empty log continues at the frontier at the latest. */
  ghost predicate Ordered(v: seq<Seg>, op: Op, frontier: int)
    requires v != []
  {
    match op
    case PurgeTo(u) => frontier <= u
    case Append(id, _) => NoEntries(v) ==> id <= frontier + 1
    case _ => true
  }

  function FrontierAfter(op: Op, frontier: int): int {
    if op.PurgeTo? then op.u else frontier
  }

  lemma StepGapless(v: seq<Seg>, op: Op, walSize: nat, frontier: int)
    requires SetOk(v, walSize) && Legal(v, op, walSize) && Gapless(v, frontier) && -1 <= frontier
    requires Ordered(v, op, frontier)
    ensures Step(v, op, walSize) != [] && Gapless(Step(v, op, walSize), FrontierAfter(op, frontier))
  {
    hide SetOk, Gapless, AppendTo, RollOver, Purge, Truncate, IsNext, Flushed;
    SetSize(v, walSize);
    match op
    case Append(id, p) => AppendGapless(v, id, p, frontier, walSize);
    case Seal => RollOverGapless(v, frontier, walSize);
    case PurgeTo(u) => PurgeGapless(v, frontier, u, walSize);
    case TruncateAt(k) => TruncateGapless(v, frontier, k, walSize);
    case Flush => FlushGapless(v, frontier, walSize);
  }

  ghost predicate OrderedRun(v: seq<Seg>, ops: seq<Op>, walSize: nat, frontier: int)
    requires SetOk(v, walSize) && LegalRun(v, ops, walSize)
    decreases |ops|
  {
    ops == [] || (
      && Ordered(v, ops[0], frontier)
      && (StepRefines(v, ops[0], walSize);
          OrderedRun(Step(v, ops[0], walSize), ops[1..], walSize, FrontierAfter(ops[0], frontier))))
  }

  function FrontierRun(ops: seq<Op>, frontier: int): int
    decreases |ops|
  {
    if ops == [] then frontier else FrontierRun(ops[1..], FrontierAfter(ops[0], frontier))
  }

  lemma {:induction false} RunGapless(v: seq<Seg>, ops: seq<Op>, walSize: nat, frontier: int)
    requires SetOk(v, walSize) && LegalRun(v, ops, walSize) && Gapless(v, frontier) && -1 <= frontier
    requires OrderedRun(v, ops, walSize, frontier)
    ensures Run(v, ops, walSize) != [] && Gapless(Run(v, ops, walSize), FrontierRun(ops, frontier))
    decreases |ops|
  {
    hide SetOk, Gapless, Step, Legal, Ordered;
    SetSize(v, walSize);
    if ops != [] {
      StepRefines(v, ops[0], walSize);
      StepGapless(v, ops[0], walSize, frontier);
      RunGapless(Step(v, ops[0], walSize), ops[1..], walSize, FrontierAfter(ops[0], frontier));
    }
  }

  /** What holds when a purge begins: the writer has just flushed, and file names are still short enough. */
  ghost predicate Purgeable(w: seq<Seg>, before: int, walSize: nat) {
    SetOk(w, walSize) && Gapless(w, before) && Durable(w, false) && Nameable(w)
  }

  /** `j` files are deleted, the new frontier is in place. */
  lemma DeletedNoHole(w: seq<Seg>, before: int, u: u64, walSize: nat, j: nat)
    requires Purgeable(w, before, walSize) && before <= u && j <= FrontCount(w, u)
    ensures NoHole(Disk(w[j..], u))
  {
    hide FileOk, FrontCount, HeaderBehind, HeaderExact, NoHole, Covered;
    if j < |w| {
      FrontIds(w, before, u, walSize, j);
      LinkedTail(w, walSize, j);
      GaplessNoHole(w[j..], u, walSize);
    } else {
      NothingNoHole(u);
      assert w[j..] == [];
    }
  }

  lemma PurgedNoHole(w: seq<Seg>, before: int, u: u64, walSize: nat)
    requires Purgeable(w, before, walSize) && before <= u
    ensures DataPaired(w) && NoHole(Disk(Purge(w, u, walSize), u))
  {
    hide FileOk, Purge, HeaderBehind, HeaderExact, NoHole, Covered, Linked;
    PurgeGapless(w, before, u, walSize);
    PurgeDropsBelow(w, u, walSize);
    PurgeDurable(w, u, walSize, false);
    GaplessNoHole(Purge(w, u, walSize), u, walSize);
  }

  /** At every moment of a purge the log a restart would read reaches down to the persisted frontier. */
  lemma PurgePointsNoHole(w: seq<Seg>, before: int, u: u64, walSize: nat, i: nat)
    requires Purgeable(w, before, walSize) && before <= u
    ensures DataPaired(w)
    ensures i < |PurgePoints(w, before, u, walSize)| ==> NoHole(PurgePoints(w, before, u, walSize)[i])
  {
    hide FileOk, FrontCount, Purge, HeaderBehind, HeaderExact, NoHole, Covered, Linked;
    PurgedNoHole(w, before, u, walSize);
    var k := FrontCount(w, u);
    if i == 0 {
      GaplessNoHole(w, before, walSize);
    } else if i <= k + 1 {
      DeletedNoHole(w, before, u, walSize, i - 1);
    }
  }

  /** After any run and the flush with which a purge begins, that is so at every moment of the purge. */
  lemma PurgeNeverLeavesHole(v: seq<Seg>, ops: seq<Op>, walSize: nat, frontier: int, dirty: bool, u: u64, i: nat)
    requires SetOk(v, walSize) && LegalRun(v, ops, walSize) && Gapless(v, frontier) && -1 <= frontier
    requires Durable(v, dirty) && OrderedRun(v, ops, walSize, frontier) && FrontierRun(ops, frontier) <= u
    requires !DirtyRun(ops, dirty) && Nameable(Run(v, ops, walSize))
    ensures var w, before := Run(v, ops, walSize), FrontierRun(ops, frontier);
      && w != [] && DataPaired(w)
      && (i < |PurgePoints(w, before, u, walSize)| ==> NoHole(PurgePoints(w, before, u, walSize)[i]))
  {
    hide FileOk, PurgePoints, HeaderBehind, HeaderExact, NoHole, LegalRun, Run, OrderedRun, FrontierRun, Covered;
    RunRefines(v, ops, walSize);
    RunGapless(v, ops, walSize, frontier);
    RunDurable(v, ops, walSize, dirty);
    PurgePointsNoHole(Run(v, ops, walSize), FrontierRun(ops, frontier), u, walSize, i);
  }

  lemma NothingNoHole(frontier: int)
    ensures NoHole(Disk([], frontier))
  {
    hide ParseHeader;
    forall dir, names | Survives(dir, []) && IsListing(names, dir)
      ensures ReachesDownTo(ReadFiles(names, dir), frontier)
    {
      Member(names);
    }
  }

  // ---- a deletion that fails

  /** A directory in which the first file survived as `c` and the others as the system cached them. */
  function Crashed(v: seq<Seg>, c: seq<byte>): (dir: Listing)
    requires Nameable(v)
    requires forall i, j :: 0 <= i < |v| && 0 <= j < |v| && FileName(v[i].walNo) == FileName(v[j].walNo) ==> i == j
  {
    map i | 0 <= i < |v| :: FileName(v[i].walNo) := if i == 0 then c else v[i].b
  }

  lemma NamesDistinct(v: seq<Seg>, walSize: nat)
    requires Linked(v, walSize) && Nameable(v)
    ensures forall i, j :: 0 <= i < |v| && 0 <= j < |v| && FileName(v[i].walNo) == FileName(v[j].walNo) ==> i == j
  {
    hide SegOk, FileName, ParseName;
    NumbersAscend(v, walSize);
    forall i, j | 0 <= i < |v| && 0 <= j < |v| && FileName(v[i].walNo) == FileName(v[j].walNo)
      ensures i == j
    {
      ParseFileName(v[i].walNo);
      ParseFileName(v[j].walNo);
    }
  }

  /** A first file that may survive with data and starts above the frontier is a hole. */
  lemma LateStartIsHole(v: seq<Seg>, frontier: int, walSize: nat, c: seq<byte>)
    requires SetOk(v, walSize) && Nameable(v) && (c == v[0].b || c == v[0].synced)
    requires HasData(c) && frontier + 1 < ParseHeader(c).value.idFrom
    ensures !NoHole(Disk(v, frontier))
  {
    hide ParseHeader, FileName, SegOk, ReadFiles;
    NamesDistinct(v, walSize);
    var dir := Crashed(v, c);
    assert dir[FileName(v[0].walNo)] == c;
    CrashedListing(v, walSize, c);
    FirstRead(v, dir);
    assert !ReachesDownTo(ReadFiles(Names(v), dir), frontier);
  }

  lemma CrashedListing(v: seq<Seg>, walSize: nat, c: seq<byte>)
    requires SetOk(v, walSize) && Nameable(v) && (c == v[0].b || c == v[0].synced)
    requires forall i, j :: 0 <= i < |v| && 0 <= j < |v| && FileName(v[i].walNo) == FileName(v[j].walNo) ==> i == j
    ensures Survives(Crashed(v, c), v) && IsListing(Names(v), Crashed(v, c))
  {
    hide ParseHeader, FileName, SegOk;
    var dir := Crashed(v, c);
    forall n | n in dir ensures n in Names(v) {
      var i :| 0 <= i < |v| && n == FileName(v[i].walNo);
      assert Names(v)[i] == n;
    }
    forall n | n in Names(v) ensures n in dir {
      var i :| 0 <= i < |v| && n == Names(v)[i];
    }
    NamesSorted(v, walSize);
  }

  /** A single file that cannot survive with data is an empty log. */
  lemma EmptyFileNoHole(v: seq<Seg>, frontier: int, walSize: nat)
    requires SetOk(v, walSize) && |v| == 1 && !HasData(v[0].b) && !HasData(v[0].synced)
    ensures NoHole(Disk(v, frontier))
  {
    hide ParseHeader, FileName, SegOk, ReadFiles;
    forall dir, names | Survives(dir, v) && IsListing(names, dir)
      ensures ReachesDownTo(ReadFiles(names, dir), frontier)
    {
      SurvivingNames(v, walSize, dir, names);
      FirstRead(v, dir);
    }
  }

  /**
  A purge deletes files from the front; when the deletion of file `j` fails, the first `j` files are
  gone and the frontier is set back to `before`. That leaves no hole if and only if no deleted file
  held an id above the old frontier, or nothing that is left can hold an entry.
  */
  lemma RevertedFrontier(v: seq<Seg>, before: int, walSize: nat, j: nat)
    requires Purgeable(v, before, walSize) && j < |v|
    ensures NoHole(Disk(v[j..], before)) <==>
      j == 0 || v[j - 1].h.idUntil <= before || (!HasData(v[j].b) && !HasData(v[j].synced))
    ensures v[j].h.dataStart.Some? ==> HasData(v[j].b)
  {
    hide ParseHeader, FileOk, Covered, NoHole, Entries;
    var w := v[j..];
    LinkedTail(v, walSize, j);
    assert HeaderBehind(v[j]) && (0 < j ==> HeaderExact(v[j]) && JoinedAt(v, j - 1));
    assert |w| > 1 ==> JoinedAt(w, 0);
    if j == 0 || v[j - 1].h.idUntil <= before {
      GaplessNoHole(w, before, walSize);
    } else if HasData(v[j].b) {
      LateStartIsHole(w, before, walSize, v[j].b);
    } else if HasData(v[j].synced) {
      LateStartIsHole(w, before, walSize, v[j].synced);
    } else {
      EmptyFileNoHole(w, before, walSize);
    }
  }
}
