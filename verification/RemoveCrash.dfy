/**
The moments of `Action::Remove` at which the process may die, seen by the next start: the ghost result
of `Writer.HandleRemove` as directories with a persisted frontier.
*/
module RemoveCrash {
  import opened Base
  import opened Positional
  import opened Records
  import opened WalSet
  import opened WalRemove
  import opened WalRuns
  import opened WalDurability
  import opened WalMemo
  import opened Restart
  import opened WalFileSets
  import opened Writers
  import opened PurgeCrash

  /** Each moment as a restart sees it; `index` decodes the persisted id of the last purged entry. */
  ghost function Disks(points: seq<(Metadata, seq<Seg>)>, index: Option<seq<byte>> -> int): (ds: seq<Disk>)
    ensures |ds| == |points|
    ensures forall i :: 0 <= i < |points| ==> ds[i] == Disk(points[i].1, index(points[i].0.lastPurged))
  {
    seq(|points|, i requires 0 <= i < |points| => Disk(points[i].1, index(points[i].0.lastPurged)))
  }

  /** What a purge by the writer goes through is what `PurgeCrash` speaks of. */
  lemma PointsArePurgePoints(v: seq<Seg>, from: u64, u: u64, w: seq<Seg>, before: Metadata, after: Metadata,
                             index: Option<seq<byte>> -> int, walSize: nat)
    requires SetOk(v, walSize) && DataPaired(v) && from <= v[0].h.idFrom && ShiftDelete(v, from, u, walSize) == Ok(w)
    requires index(after.lastPurged) == u
    ensures Disks(RemovePoints(before, v, u, after, w), index) == PurgePoints(v, index(before.lastPurged), u, walSize)
  {
    hide FrontCount, PopFront, CutFront, Linked;
    assert ShiftDelete(v, 0, u, walSize) == ShiftDelete(v, from, u, walSize);
    var points, ds := RemovePoints(before, v, u, after, w), PurgePoints(v, index(before.lastPurged), u, walSize);
    var k := FrontCount(v, u);
    assert |points| == |ds| == k + 3;
    forall i | 0 <= i < |points|
      ensures Disks(points, index)[i] == ds[i]
    {
      if 0 < i <= k + 1 {
        assert points[i] == Paired(after, Suffixes(v, k))[i - 1];
      }
    }
  }

  /** No moment of a purge by the writer leaves a hole. */
  lemma RemoveNeverLeavesHole(v: seq<Seg>, from: u64, u: u64, w: seq<Seg>, before: Metadata, after: Metadata,
                              index: Option<seq<byte>> -> int, walSize: nat, i: nat)
    requires Purgeable(v, index(before.lastPurged), walSize) && index(before.lastPurged) <= u
    requires DataPaired(v) && from <= v[0].h.idFrom && ShiftDelete(v, from, u, walSize) == Ok(w)
    requires index(after.lastPurged) == u && i < |RemovePoints(before, v, u, after, w)|
    ensures NoHole(Disks(RemovePoints(before, v, u, after, w), index)[i])
  {
    hide NoHole, PurgePoints, RemovePoints, ShiftDelete, Gapless, Durable;
    PointsArePurgePoints(v, from, u, w, before, after, index, walSize);
    PurgePointsNoHole(v, index(before.lastPurged), u, walSize, i);
  }

  /**
  When deletion `j` fails, every moment up to the failure is without a hole, and the moment after the
  frontier was set back is so if and only if no deleted file held an id above the old frontier, or
  nothing that is left can hold an entry.
  */
  lemma FailedRemove(v: seq<Seg>, u: u64, j: nat, before: Metadata, after: Metadata, reverted: Metadata,
                     index: Option<seq<byte>> -> int, walSize: nat, i: nat)
    requires Purgeable(v, index(before.lastPurged), walSize) && index(before.lastPurged) <= u
    requires j < FrontCount(v, u) && i < j + 3
    requires index(after.lastPurged) == u && index(reverted.lastPurged) == index(before.lastPurged)
    ensures |FailedPoints(before, v, j, after, reverted)| == j + 3
    ensures var ds := Disks(FailedPoints(before, v, j, after, reverted), index);
      && (i < j + 2 ==> NoHole(ds[i]))
      && (NoHole(ds[j + 2]) <==>
           j == 0 || v[j - 1].h.idUntil <= index(before.lastPurged) || (!HasData(v[j].b) && !HasData(v[j].synced)))
  {
    hide NoHole, FrontCount, Gapless, Durable, HasData, Purge;
    var points, f := FailedPoints(before, v, j, after, reverted), index(before.lastPurged);
    RevertedFrontier(v, f, walSize, j);
    assert points[j + 2] == (reverted, v[j..]);
    if i < j + 2 {
      PurgePointsNoHole(v, f, u, walSize, i);
      if 0 < i {
        assert points[i] == Paired(after, Suffixes(v, j))[i - 1];
      }
    }
  }

  // ---- a run that ends in a hole

  lemma AppendShape(v: seq<Seg>, id: u64, p: seq<byte>, walSize: nat)
    requires SetOk(v, walSize) && Legal(v, Append(id, p), walSize) && Last(v).h.dataStart.None?
    ensures var w := Step(v, Append(id, p), walSize);
      && SetOk(w, walSize) && |w| == |v| && w[..|v| - 1] == v[..|v| - 1]
      && Last(w).walNo == Last(v).walNo && Last(w).mapped && Last(w).h.idUntil == id && Last(w).h.dataStart.Some?
  {
    hide FileOk, Appended, LogOf;
    assert SegOk(Last(v), walSize);
    assert HasSpace(Last(v).h, |Last(v).b|, |p|) by {
      SegOrder(Last(v), walSize);
      PayloadBounds(Last(v).h, walSize, |p|);
    }
    AppendExtendsLog(v, id, p, walSize);
    AppendToLast(v, id, p, walSize);
    AppendedFields(Last(v).h, Last(v).b, id, p);
  }

  lemma SealShape(v: seq<Seg>, walSize: nat)
    requires SetOk(v, walSize) && Legal(v, Seal, walSize)
    ensures var w := Step(v, Seal, walSize);
      && SetOk(w, walSize) && |w| == |v| + 1 && w[..|v| - 1] == v[..|v| - 1] && w[|v| - 1].h == Last(v).h
      && Last(w).walNo == Last(v).walNo + 1 && Last(w).mapped && Last(w).h.dataStart.None?
      && Last(w).h.idUntil == Last(v).h.idUntil + 1
  {
    hide FileOk, LogOf, Flushed, NewBytes;
    StepRefines(v, Seal, walSize);
    assert SegOk(Last(v), walSize);
  }

  function ThreeFiles(p: seq<byte>): seq<Op> {
    [Append(1, p), Seal, Append(2, p), Seal, Append(3, p), Flush]
  }

  lemma {:induction false} RunCons(v: seq<Seg>, op: Op, ops: seq<Op>, walSize: nat)
    requires SetOk(v, walSize) && Legal(v, op, walSize)
    ensures SetOk(Step(v, op, walSize), walSize)
    ensures LegalRun(v, [op] + ops, walSize) <==> LegalRun(Step(v, op, walSize), ops, walSize)
    ensures LegalRun(v, [op] + ops, walSize) ==> Run(v, [op] + ops, walSize) == Run(Step(v, op, walSize), ops, walSize)
  {
    hide Step, Legal;
    StepRefines(v, op, walSize);
    assert ([op] + ops)[1..] == ops;
  }

  /** An entry and the sealing of its file. */
  lemma OneFile(v: seq<Seg>, id: u64, p: seq<byte>, walSize: nat)
    requires SetOk(v, walSize) && Last(v).mapped && Last(v).h.dataStart.None? && Last(v).walNo < 10
    requires IsNext(v, id) && id < 10 && 0 < |p| <= walSize - 50
    ensures LegalRun(v, [Append(id, p), Seal], walSize)
    ensures var w := Run(v, [Append(id, p), Seal], walSize);
      && SetOk(w, walSize) && |w| == |v| + 1 && w[..|v| - 1] == v[..|v| - 1]
      && w[|v| - 1].h.idUntil == id && w[|v| - 1].h.dataStart.Some? && w[|v| - 1].walNo == Last(v).walNo
      && Last(w).walNo == Last(v).walNo + 1 && Last(w).mapped && Last(w).h.dataStart.None? && IsNext(w, id + 1)
  {
    hide Step, FileOk, LegalRun, Run, Linked;
    AppendShape(v, id, p, walSize);
    var v1 := Step(v, Append(id, p), walSize);
    SealShape(v1, walSize);
    var v2 := Step(v1, Seal, walSize);
    RunNil(v2, walSize);
    RunCons(v1, Seal, [], walSize);
    RunCons(v, Append(id, p), [Seal], walSize);
    assert [Seal] + [] == [Seal] && [Append(id, p)] + [Seal] == [Append(id, p), Seal];
    SealNumber(v1, walSize);
  }

  lemma SealNumber(v: seq<Seg>, walSize: nat)
    requires SetOk(v, walSize) && Legal(v, Seal, walSize)
    ensures var w := Step(v, Seal, walSize);
      |w| == |v| + 1 && w[|v| - 1].walNo == Last(v).walNo
  {
    hide FileOk, Flushed, NewBytes;
    assert SegOk(Last(v), walSize);
  }

  /** Two runs, one after the other. */
  lemma {:induction false} RunAppend(v: seq<Seg>, first: seq<Op>, second: seq<Op>, walSize: nat)
    requires SetOk(v, walSize) && LegalRun(v, first, walSize)
    ensures SetOk(Run(v, first, walSize), walSize)
    ensures LegalRun(Run(v, first, walSize), second, walSize) ==>
      LegalRun(v, first + second, walSize)
          && Run(v, first + second, walSize) == Run(Run(v, first, walSize), second, walSize)
    decreases |first|
  {
    hide Step, Legal, SetOk;
    RunRefines(v, first, walSize);
    if first == [] {
      assert first + second == second;
    } else {
      StepRefines(v, first[0], walSize);
      RunAppend(Step(v, first[0], walSize), first[1..], second, walSize);
      assert first + second == [first[0]] + (first[1..] + second);
      RunCons(v, first[0], first[1..] + second, walSize);
    }
  }

  lemma LastEntry(v: seq<Seg>, id: u64, p: seq<byte>, walSize: nat)
    requires SetOk(v, walSize) && Last(v).mapped && Last(v).h.dataStart.None? && Last(v).walNo < 10
    requires IsNext(v, id) && id < 10 && 0 < |p| <= walSize - 50
    ensures LegalRun(v, [Append(id, p), Flush], walSize)
    ensures var w := Run(v, [Append(id, p), Flush], walSize);
      && |w| == |v| && (forall i :: 0 <= i < |v| - 1 ==> w[i].h == v[i].h && w[i].walNo == v[i].walNo)
      && Last(w).h.idUntil == id && Last(w).walNo == Last(v).walNo
  {
    hide Step, FileOk, LegalRun, Run, Linked;
    AppendShape(v, id, p, walSize);
    var v1 := Step(v, Append(id, p), walSize);
    FlushFacts(v1, walSize);
    LastOf(v1, Step(v1, Flush, walSize), walSize);
    RunNil(Step(v1, Flush, walSize), walSize);
    RunCons(v1, Flush, [], walSize);
    RunCons(v, Append(id, p), [Flush], walSize);
    assert [Flush] + [] == [Flush] && [Append(id, p)] + [Flush] == [Append(id, p), Flush];
    assert forall i :: 0 <= i < |v| - 1 ==> v1[i] == v1[..|v| - 1][i] == v[i];
  }

  /** Three entries, one per file. */
  lemma ThreeFilesRun(p: seq<byte>, walSize: nat)
    requires ValidWalSize(walSize) && 0 < |p| <= walSize - 50
    ensures var v := [Fresh(1, walSize)];
      && SetOk(v, walSize) && LegalRun(v, ThreeFiles(p), walSize)
      && var w := Run(v, ThreeFiles(p), walSize);
      && |w| == 3 && w[0].h.idUntil == 1 && w[1].h.idUntil == 2 && w[2].h.idUntil == 3
      && w[0].walNo == 1 && w[1].walNo == 2 && w[2].walNo == 3
  {
    hide FileOk, LegalRun, Run, Linked, NewBytes;
    var v := [Fresh(1, walSize)];
    FreshSetOk(1, walSize);
    var a, b, c := [Append(1, p), Seal], [Append(2, p), Seal], [Append(3, p), Flush];
    OneFile(v, 1, p, walSize);
    var v1 := Run(v, a, walSize);
    OneFile(v1, 2, p, walSize);
    var v2 := Run(v1, b, walSize);
    assert v2[0] == v2[..1][0] == v1[0];
    LastEntry(v2, 3, p, walSize);
    RunAppend(v, a, b, walSize);
    RunAppend(v, a + b, c, walSize);
    assert a + b + c == ThreeFiles(p);
  }

  lemma LastOf(v: seq<Seg>, w: seq<Seg>, walSize: nat)
    requires SetOk(v, walSize) && Legal(v, Flush, walSize) && w == Step(v, Flush, walSize)
    ensures |w| == |v| && forall i :: 0 <= i < |v| ==> w[i].h == v[i].h && w[i].walNo == v[i].walNo
  {
    hide FileOk, HeaderBytes;
    assert SegOk(Last(v), walSize);
  }

  /**
  The hole is reached: three files with one entry each, entry 0 purged before (frontier 0), a purge up to 3
  whose second deletion fails. File 1 is gone, the frontier is 0 again, and the log starts at 2.
  */
  lemma FailedRemoveLeavesHole(p: seq<byte>, walSize: nat)
    requires ValidWalSize(walSize) && 0 < |p| <= walSize - 50
    ensures var v := [Fresh(1, walSize)];
      && SetOk(v, walSize) && LegalRun(v, ThreeFiles(p), walSize)
      && var w := Run(v, ThreeFiles(p), walSize);
      && |w| == 3 && Purgeable(w, 0, walSize) && FrontCount(w, 3) == 2
      && !NoHole(Disk(w[1..], 0))
  {
    hide FileOk, LegalRun, Run, Linked, NewBytes, Gapless, Durable, NoHole, HasData;
    ThreeFilesRun(p, walSize);
    var v, ops := [Fresh(1, walSize)], ThreeFiles(p);
    var w := Run(v, ops, walSize);
    FreshStart(walSize);
    OrderedThreeFiles(p, walSize);
    RunRefines(v, ops, walSize);
    RunGapless(v, ops, walSize, 0);
    RunDurable(v, ops, walSize, false);
    TwoBelow(w);
    ShortNumbers(w, walSize);
    RevertedFrontier(w, 0, walSize, 1);
    SealedHasData(w, 1, walSize);
  }

  lemma SealedHasData(w: seq<Seg>, i: nat, walSize: nat)
    requires SetOk(w, walSize) && i < |w| - 1
    ensures w[i].h.dataStart.Some?
  {
    hide SegOk;
    assert JoinedAt(w, i);
  }

  lemma TwoBelow(w: seq<Seg>)
    requires |w| == 3 && w[0].h.idUntil == 1 && w[1].h.idUntil == 2 && w[2].h.idUntil == 3
    ensures FrontCount(w, 3) == 2
  {
    var t := w[1..];
    assert t[1..] == [w[2]] && FrontCount([w[2]], 3) == 0;
    assert FrontCount(t, 3) == 1;
  }

  lemma FreshStart(walSize: nat)
    requires ValidWalSize(walSize)
    ensures var v := [Fresh(1, walSize)];
      SetOk(v, walSize) && Gapless(v, 0) && Durable(v, false)
  {
    hide FileOk, NewBytes, HeaderBehind, HeaderExact;
    FreshSetOk(1, walSize);
    FreshBehind(1, walSize, 0);
    assert Fresh(1, walSize).(h := Header(0, 0, None, None)) == Fresh(1, walSize);
  }

  lemma ShortNumbers(w: seq<Seg>, walSize: nat)
    requires SetOk(w, walSize) && |w| == 3 && w[0].walNo == 1 && w[1].walNo == 2 && w[2].walNo == 3
    ensures Nameable(w)
  {
    hide FileOk;
    assert SegOk(w[0], walSize) && SegOk(w[1], walSize) && SegOk(w[2], walSize);
    ManyNames();
  }

  lemma ManyNames()
    ensures 3 < Pow(10, NAME_WIDTH)
  {
    PowGrows(NAME_WIDTH);
  }

  lemma {:induction false} PowGrows(n: nat)
    ensures n < Pow(10, n)
  {
    if 0 < n {
      PowGrows(n - 1);
    }
  }

  /** The appends of the run are in order: no log is ever empty but at the start, which is at the frontier. */
  lemma OrderedThreeFiles(p: seq<byte>, walSize: nat)
    requires ValidWalSize(walSize) && 0 < |p| <= walSize - 50
    requires var v := [Fresh(1, walSize)];
      SetOk(v, walSize) && LegalRun(v, ThreeFiles(p), walSize)
    ensures OrderedRun([Fresh(1, walSize)], ThreeFiles(p), walSize, 0) && FrontierRun(ThreeFiles(p), 0) == 0
    ensures !DirtyRun(ThreeFiles(p), false)
  {
    hide Step, FileOk, NewBytes;
    OrderedFrom([Fresh(1, walSize)], ThreeFiles(p), 0, walSize);
    NoPurge(ThreeFiles(p), 0);
    EndsClean(ThreeFiles(p)[..5], false);
    assert ThreeFiles(p)[..5] + [Flush] == ThreeFiles(p);
  }

  lemma {:induction false} NoPurge(ops: seq<Op>, frontier: int)
    requires forall i :: 0 <= i < |ops| ==> !ops[i].PurgeTo?
    ensures FrontierRun(ops, frontier) == frontier
    decreases |ops|
  {
    if ops != [] {
      NoPurge(ops[1..], frontier);
    }
  }

  /** A flush at the end leaves nothing dirty. */
  lemma {:induction false} EndsClean(ops: seq<Op>, dirty: bool)
    ensures !DirtyRun(ops + [Flush], dirty)
    decreases |ops|
  {
    if ops == [] {
      assert [] + [Flush] == [Flush] && [Flush][1..] == [];
    } else {
      assert (ops + [Flush])[1..] == ops[1..] + [Flush];
      EndsClean(ops[1..], DirtyAfter(ops[0], dirty));
    }
  }

  /** A run of appends, seals and flushes is ordered if its first append is. */
  lemma {:induction false} OrderedFrom(v: seq<Seg>, ops: seq<Op>, frontier: int, walSize: nat)
    requires SetOk(v, walSize) && LegalRun(v, ops, walSize)
    requires forall i :: 0 <= i < |ops| ==> ops[i].Append? || ops[i].Seal? || ops[i].Flush?
    requires NoEntries(v) ==> ops != [] && ops[0].Append? && ops[0].id <= frontier + 1
    ensures OrderedRun(v, ops, walSize, frontier)
    decreases |ops|
  {
    hide Step, SetOk, Legal;
    if ops != [] {
      SetSize(v, walSize);
      StepRefines(v, ops[0], walSize);
      StaysNonEmpty(v, ops[0], walSize);
      OrderedFrom(Step(v, ops[0], walSize), ops[1..], frontier, walSize);
    }
  }

  lemma StaysNonEmpty(v: seq<Seg>, op: Op, walSize: nat)
    requires SetOk(v, walSize) && Legal(v, op, walSize) && (op.Append? || op.Seal? || (op.Flush? && !NoEntries(v)))
    ensures Step(v, op, walSize) != [] && !NoEntries(Step(v, op, walSize))
  {
    hide FileOk, Appended, LogOf, NewBytes, HeaderBytes;
    assert SegOk(Last(v), walSize);
    if op.Append? {
      AppendExtendsLog(v, op.id, op.p, walSize);
    }
  }
}
