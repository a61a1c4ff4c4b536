/**
What the writer may assume at its start. It begins with `is_dirty == false`: right after a clean
shutdown everything is on disk; after a start that repaired the last file it is so exactly when there
was nothing to repair.
*/
module Startup {
  import opened Base
  import opened Positional
  import opened Records
  import opened Repair
  import opened CrashRepair
  import opened WalSet
  import opened WalRemove
  import opened WalRuns
  import opened WalDurability
  import opened Restart

  lemma ReopenedCovered(s: Seg, walSize: nat)
    requires SegOk(s, walSize) && HeaderKept(s) && s.walNo < Pow(10, NAME_WIDTH)
    ensures Covered(Reopened(s))
  {
    hide FileOk, Entries, HeaderBytes, ParseHeader, FileName, Dropped;
    ReadsBack(s, walSize);
    if s.h.dataStart.Some? {
      EntriesLength(s.h, Dropped(s));
      SegOrder(s, walSize);
      assert Entries(s.h, Dropped(s))[0..Count(s.h)] == Entries(s.h, Dropped(s));
    }
  }

  lemma ReopenedDurable(v: seq<Seg>, walSize: nat)
    requires SetOk(v, walSize) && Clean(v) && Nameable(v)
    ensures Durable(ReopenedSet(v), false)
  {
    hide SegOk, HeaderKept, Covered, Reopened;
    var w := ReopenedSet(v);
    forall i | 0 <= i < |w| ensures Covered(w[i]) {
      assert SegOk(v[i], walSize);
      ReopenedCovered(v[i], walSize);
    }
  }

  /** A file that is not mapped for writing has no bytes that are not on disk. */
  predicate Synced(s: Seg) {
    s.mapped || s.synced == s.b
  }

  predicate AllSynced(v: seq<Seg>) {
    forall i :: 0 <= i < |v| ==> Synced(v[i])
  }

  lemma AppendSynced(v: seq<Seg>, id: u64, p: seq<byte>, walSize: nat)
    requires SetOk(v, walSize) && Legal(v, Append(id, p), walSize) && AllSynced(v)
    ensures HasSpace(Last(v).h, |Last(v).b|, |p|) || Last(v).h.dataStart.Some?
    ensures AllSynced(AppendTo(v, id, p, walSize))
  {
    hide FileOk, Appended, Linked, HeaderBytes, NewBytes;
    AppendExtendsLog(v, id, p, walSize);
    var w := AppendTo(v, id, p, walSize);
    forall i | 0 <= i < |w| ensures Synced(w[i]) {
      if i < |v| - 1 {
        assert w[i] == v[i];
      }
    }
  }

  lemma PurgeSynced(v: seq<Seg>, u: u64, walSize: nat)
    requires SetOk(v, walSize) && AllSynced(v)
    ensures DataPaired(v) && AllSynced(Purge(v, u, walSize))
  {
    hide FileOk, FrontCount, Linked, Purge, Synced, NewBytes;
    PurgeShape(v, u, walSize);
    var n, w := FrontCount(v, u), Purge(v, u, walSize);
    if n < |v| {
      CutFrontSynced(v[n], u);
      forall i | 0 <= i < |w| ensures Synced(w[i]) {
        if i > 0 {
          assert w[i] == v[n + i];
        }
      }
    } else {
      FreshSynced(walSize);
    }
  }

  lemma CutFrontSynced(s: Seg, u: u64)
    requires s.h.dataStart.Some? == s.h.dataEnd.Some? && Synced(s) && CutFront(s, u).Ok?
    ensures Synced(CutFront(s, u).value)
  {
  }

  lemma CutBackSynced(s: Seg, k: u64)
    requires s.h.dataStart.Some? == s.h.dataEnd.Some? && Synced(s) && CutBack(s, k).Ok?
    ensures Synced(CutBack(s, k).value)
  {
  }

  lemma FreshSynced(walSize: nat)
    requires OFFSET_LOGS <= walSize
    ensures Synced(Fresh(1, walSize))
  {
  }

  lemma TruncateSynced(v: seq<Seg>, k: u64, walSize: nat)
    requires SetOk(v, walSize) && AllSynced(v)
    ensures DataPaired(v) && AllSynced(Truncate(v, k, walSize))
  {
    hide FileOk, BackCount, Linked, Truncate, Synced, NewBytes;
    TruncateShape(v, k, walSize);
    var n, w := BackCount(v, k), Truncate(v, k, walSize);
    if v[0].h.idFrom < k {
      CutBackSynced(v[n - 1], k);
      forall i | 0 <= i < |w| ensures Synced(w[i]) {
        if i < n - 1 {
          assert w[i] == v[i];
        }
      }
    } else {
      FreshSynced(walSize);
    }
  }

  lemma StepSynced(v: seq<Seg>, op: Op, walSize: nat)
    requires SetOk(v, walSize) && Legal(v, op, walSize) && AllSynced(v)
    ensures AllSynced(Step(v, op, walSize))
  {
    hide FileOk, Linked, AppendTo, Purge, Truncate, NewBytes, HeaderBytes;
    match op
    case Append(id, p) => AppendSynced(v, id, p, walSize);
    case Seal =>
    case PurgeTo(u) => PurgeSynced(v, u, walSize);
    case TruncateAt(k) => TruncateSynced(v, k, walSize);
    case Flush =>
  }

  /** Over every run: only files mapped for writing can have bytes that are not on disk. */
  lemma {:induction false} RunSynced(v: seq<Seg>, ops: seq<Op>, walSize: nat)
    requires SetOk(v, walSize) && LegalRun(v, ops, walSize) && AllSynced(v)
    ensures AllSynced(Run(v, ops, walSize))
    decreases |ops|
  {
    hide SetOk, Step, Legal, AllSynced;
    if ops != [] {
      StepRefines(v, ops[0], walSize);
      StepSynced(v, ops[0], walSize);
      RunSynced(Step(v, ops[0], walSize), ops[1..], walSize);
    }
  }

  /** What is certainly on disk of a dropped file: all of it if it was mapped, else what was flushed before. */
  function DroppedSynced(s: Seg): seq<byte>
    requires OFFSET_LOGS <= |s.b|
  {
    if s.mapped then Flushed(s).synced else s.synced
  }

  /** The directory after a power loss right behind the shutdown. */
  ghost predicate HoldsSynced(dir: Listing, v: seq<Seg>)
    requires Nameable(v)
  {
    && (forall i :: 0 <= i < |v| ==>
          FileName(v[i].walNo) in dir && dir[FileName(v[i].walNo)] == DroppedSynced(v[i]))
    && (forall n :: n in dir ==> n in Names(v))
  }

  /**
  After any run and a clean shutdown, even if power is lost right behind it, the next start finds the
  whole log, and what it finds is durable as it is: `is_dirty` may start as false.
  */
  lemma CleanStartIsDurable(v: seq<Seg>, ops: seq<Op>, walSize: nat, dir: Listing, names: seq<string>)
    requires SetOk(v, walSize) && LegalRun(v, ops, walSize) && Clean(v) && ReopensRun(v, ops, walSize) && AllSynced(v)
    requires Nameable(Run(v, ops, walSize)) && HoldsSynced(dir, Run(v, ops, walSize)) && IsListing(names, dir)
    ensures ReadFiles(names, dir) != [] && Durable(ReadFiles(names, dir), false) && AllSynced(ReadFiles(names, dir))
    ensures LogOf(ReadFiles(names, dir)) == SpecRun(LogOf(v), ops)
  {
    hide SetOk, Clean, LegalRun, Run, ReopensRun, LogOf, SpecRun, IsListing, FileName, ReadFiles, HeaderBytes, Durable;
    var w := Run(v, ops, walSize);
    RunRefines(v, ops, walSize);
    RunClean(v, ops, walSize);
    RunSynced(v, ops, walSize);
    assert Restart.Holds(dir, w);
    CleanRestart(w, walSize, dir, names);
    ReopenedDurable(w, walSize);
  }

  /** The last file after the check of a start that found the bytes `t` on disk. */
  ghost function Checked(walNo: u64, t: seq<byte>, heal: bool, h: Header): Seg
    requires OFFSET_LOGS <= |t| < U32_MAX && h.dataStart.Some? == h.dataEnd.Some? && RepairFile(h, t, heal).Ok?
  {
    var r := RepairFile(h, t, heal).value;
    Seg(walNo, r.h, r.b, true, t)
  }

  /**
  Recovered records are entered into the header in memory and in the map, and nothing is flushed. So the
  last file is durable after the check if and only if the header on disk already knew all of them.
  */
  lemma CheckedIsCovered(walNo: u64, t: seq<byte>, s: nat, id: nat, ps: seq<seq<byte>>, m: nat, heal: bool)
    requires Image1(t, s, id, ps, m) && ParseHeader(t) == Ok(Covering(s, id, ps, m))
    requires RepairedTo(Covering(s, id, ps, m), t, heal, s, id, ps)
    ensures Covered(Checked(walNo, t, heal, Covering(s, id, ps, m))) <==> m == |ps|
  {
    hide ParseHeader, RepairFile, Chain, Next, FileOk, Entries;
    var h := Covering(s, id, ps, m);
    if m == |ps| {
      assert ps[..m] == ps;
      KnownIsOk(t, s, id, ps);
      assert Entries(h, t)[0..|ps|] == ps;
    }
  }

  lemma KnownIsOk(t: seq<byte>, s: nat, id: nat, ps: seq<seq<byte>>)
    requires Image1(t, s, id, ps, |ps|)
    ensures ps[..|ps|] == ps
    ensures FileOk(Covering(s, id, ps, |ps|), t) && Entries(Covering(s, id, ps, |ps|), t) == ps
  {
    hide Chain, Next;
    assert ps[..|ps|] == ps;
    HoldsEntries(Covering(s, id, ps, |ps|), t, ps);
  }

  /**
  A start after a crash inside an append: with the header covering `m` of the `n` records before it, the
  writer's `is_dirty == false` is right if and only if the check recovered nothing.
  */
  lemma RepairedStartExact(walNo: u64, b: seq<byte>, s: nat, id: nat, ps: seq<seq<byte>>, m: nat, p: seq<byte>,
                           t: seq<byte>, heal: bool)
    requires AppendOnly(b, s, id, ps, m)
    requires id + |ps| <= U64_MAX && Next(s, ps) + Stride(p) <= |b|
    requires CrashPoint(b, t, Next(s, ps), id + |ps|, p)
    ensures RepairFile(Covering(s, id, ps, m), t, heal).Ok?
    ensures var qs := if RecordIn(t, Next(s, ps), id + |ps|, p) then ps + [p] else ps;
      var a := Checked(walNo, t, heal, Covering(s, id, ps, m));
      && Entries(a.h, a.b) == qs
      && (Durable([a], false) <==> m == |qs|)
  {
    hide ParseHeader, RepairFile, Chain, Next, FileOk, Entries, RecordIn, CrashPoint, HeaderBytes, Covered;
    CrashRepairExact(b, s, id, ps, m, p, t, heal);
    CrashedImage(b, s, id, ps, m, p, t);
    if RecordIn(t, Next(s, ps), id + |ps|, p) {
      assert (ps + [p])[..m] == ps[..m];
      CheckedIsCovered(walNo, t, s, id, ps + [p], m, heal);
    } else {
      CheckedIsCovered(walNo, t, s, id, ps, m, heal);
    }
  }

  lemma CrashedImage(b: seq<byte>, s: nat, id: nat, ps: seq<seq<byte>>, m: nat, p: seq<byte>, t: seq<byte>)
    requires AppendOnly(b, s, id, ps, m)
    requires id + |ps| <= U64_MAX && Next(s, ps) + Stride(p) <= |b|
    requires CrashPoint(b, t, Next(s, ps), id + |ps|, p)
    ensures Image1(t, s, id, ps, m)
    ensures RecordIn(t, Next(s, ps), id + |ps|, p) ==> Image1(t, s, id, ps + [p], m)
  {
    hide Chain, Next, RecordIn, HeaderBytes, RecordBytes;
    var e := Next(s, ps);
    assert forall i :: 0 <= i < e ==> t[i] == t[..e][i] == b[i];
    ChainFrame(b, t, s, id, ps);
    if RecordIn(t, e, id + |ps|, p) {
      ChainSnoc(t, s, id, ps, p);
      NextSnoc(s, ps, p);
      assert (ps + [p])[..m] == ps[..m];
    }
  }

  /** After healing the durable header still covers the bad record: it stands for no valid file. */
  lemma RottenHeaderIsBad(b: seq<byte>, h: Header, id: nat, ps: seq<seq<byte>>)
    requires RottenBehind(b, h, id, ps)
    ensures !FileOk(h, b)
  {
    hide Payloads, Next, Chain, ReadRecord;
    if FileOk(h, b) {
      var s, es, n := h.dataStart.value, Entries(h, b), |ps|;
      ChainSplit(b, s, id, es, n);
      ChainPayloads(b, s, id, es[..n]);
      ChainPayloads(b, s, id, ps);
      FirstOfChain(b, Next(s, ps), id + n, es[n..]);
    }
  }

  /** So after a start that healed the last file, `is_dirty == false` is wrong. */
  lemma HealedStartIsNotDurable(walNo: u64, b: seq<byte>, h: Header, id: nat, ps: seq<seq<byte>>)
    requires RottenBehind(b, h, id, ps) && b[..OFFSET_LOGS] == HeaderBytes(h)
    ensures RepairFile(h, b, true).Ok?
    ensures !Durable([Checked(walNo, b, true, h)], false)
  {
    hide RepairFile, FileOk, Entries, HeaderBytes, Chain, Next, ParseHeader, BadAt;
    AutoHealKeepsPrefix(b, h, id, ps);
    RottenFacts(b, h, id, ps);
    HeaderRoundTrip(h, b);
    RottenHeaderIsBad(b, h, id, ps);
    var a := Checked(walNo, b, true, h);
    assert a.h.dataStart == h.dataStart && a.synced == b;
    assert !Covered(a) && Last([a]) == a;
  }
}
