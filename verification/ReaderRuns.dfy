/**
Which file a reader's map belongs to. File numbers are reused: after everything was removed they start
at 1 again, and after a truncation the next roll-over takes a deleted number. Here every file that is
ever made gets an identity of its own, so that runs of the writer can be followed by identity.
*/
module ReaderRuns {
  import opened Base
  import opened Records
  import opened Scan
  import opened WalSet
  import opened WalRemove
  import opened WalRuns
  import opened Publication

  /** The identities of the files of a set, in order, and the next unused one. */
  datatype Made = Made(ids: seq<nat>, next: nat)

  function Added(m: Made): Made {
    Made(m.ids + [m.next], m.next + 1)
  }

  /** A single new file instead of all others. */
  function Restarted(m: Made): Made {
    Made([m.next], m.next + 1)
  }

  /** What a step makes and deletes. */
  ghost function Track(v: seq<Seg>, op: Op, m: Made, walSize: nat): Made
    requires SetOk(v, walSize) && Legal(v, op, walSize) && |m.ids| == |v|
  {
    match op
    case Append(_, p) => if HasSpace(Last(v).h, |Last(v).b|, |p|) then m else Added(m)
    case Seal => Added(m)
    case PurgeTo(u) => if FrontCount(v, u) == |v| then Restarted(m) else m.(ids := m.ids[FrontCount(v, u)..])
    case TruncateAt(k) => if k <= v[0].h.idFrom then Restarted(m) else m.(ids := m.ids[..BackCount(v, k)])
    case Flush => m
  }

  /** Identities ascend, and none is ahead of the counter: files are added at the back only. */
  ghost predicate Ascending(m: Made) {
    (forall i, j :: 0 <= i < j < |m.ids| ==> m.ids[i] < m.ids[j]) && forall i :: 0 <= i < |m.ids| ==> m.ids[i] < m.next
  }

  /** The file with this identity has this number. */
  predicate IsFile(v: seq<Seg>, m: Made, id: nat, walNo: nat)
    requires |m.ids| == |v|
  {
    exists i :: 0 <= i < |v| && m.ids[i] == id && v[i].walNo == walNo
  }

  /** The numbers of the files after a step: those of a slice, possibly one more, or a new beginning at 1. */
  lemma StepNumbers(v: seq<Seg>, op: Op, m: Made, walSize: nat)
    requires SetOk(v, walSize) && Legal(v, op, walSize) && |m.ids| == |v|
    ensures var w, n := Step(v, op, walSize), Track(v, op, m, walSize);
      && |n.ids| == |w| && m.next <= n.next
      && forall j :: 0 <= j < |w| ==>
           n.ids[j] == m.next || IsFile(v, m, n.ids[j], w[j].walNo)
  {
    hide FileOk, Purge, Truncate, Appended, LogOf, HeaderBytes, NewBytes, CutFront, CutBack;
    match op
    case Append(id, p) => AppendNumbers(v, id, p, m, walSize);
    case Seal => SealNumbers(v, m, walSize);
    case PurgeTo(u) => PurgeNumbers(v, u, m, walSize);
    case TruncateAt(k) => TruncateNumbers(v, k, m, walSize);
    case Flush =>
      assert SegOk(Last(v), walSize);
      Same(v, m, Step(v, op, walSize), m);
  }

  /** Position by position the same numbers and identities. */
  lemma Same(v: seq<Seg>, m: Made, w: seq<Seg>, n: Made)
    requires |v| == |m.ids| && |w| == |n.ids| <= |v|
    requires forall j :: 0 <= j < |w| ==> w[j].walNo == v[j].walNo && n.ids[j] == m.ids[j]
    ensures forall j :: 0 <= j < |w| ==> IsFile(v, m, n.ids[j], w[j].walNo)
  {
  }

  lemma SealNumbers(v: seq<Seg>, m: Made, walSize: nat)
    requires SetOk(v, walSize) && Legal(v, Seal, walSize) && |m.ids| == |v|
    ensures var w, n := Step(v, Seal, walSize), Added(m);
      && |n.ids| == |w| == |v| + 1
      && (forall j :: 0 <= j < |v| ==> n.ids[j] == m.ids[j] && w[j].walNo == v[j].walNo) && n.ids[|v|] == m.next
      && w[|v|].walNo == Last(v).walNo + 1
  {
    hide FileOk, HeaderBytes, NewBytes, Flushed;
    assert SegOk(Last(v), walSize);
  }

  lemma AppendNumbers(v: seq<Seg>, id: u64, p: seq<byte>, m: Made, walSize: nat)
    requires SetOk(v, walSize) && Legal(v, Append(id, p), walSize) && |m.ids| == |v|
    ensures var w, n := Step(v, Append(id, p), walSize), Track(v, Append(id, p), m, walSize);
      && |n.ids| == |w| && |v| <= |w| <= |v| + 1
      && (forall j :: 0 <= j < |v| ==> n.ids[j] == m.ids[j] && w[j].walNo == v[j].walNo)
      && (|w| == |v| + 1 ==> n.ids[|v|] == m.next && w[|v|].walNo == Last(v).walNo + 1)
  {
    hide FileOk, HeaderBytes, NewBytes, Flushed, Appended, LogOf;
    assert SegOk(Last(v), walSize);
    AppendExtendsLog(v, id, p, walSize);
  }

  lemma PurgeNumbers(v: seq<Seg>, u: u64, m: Made, walSize: nat)
    requires SetOk(v, walSize) && |m.ids| == |v|
    ensures Legal(v, PurgeTo(u), walSize)
    ensures var w, n := Step(v, PurgeTo(u), walSize), Track(v, PurgeTo(u), m, walSize);
      var k := FrontCount(v, u);
      && |n.ids| == |w| && (k == |v| ==> |w| == 1 && w[0].walNo == 1)
      && (k < |v| ==> |w| == |v| - k && forall j :: 0 <= j < |w| ==>
          n.ids[j] == m.ids[k + j] && w[j].walNo == v[k + j].walNo)
  {
    hide FileOk, CutFront, FrontCount, Purge, NewBytes, LogOf, Linked, Cut;
    PurgeShape(v, u, walSize);
    var k := FrontCount(v, u);
    if k < |v| {
      CutNumber(v, k, u, walSize);
      CutNumbers(v, k, CutFront(v[k], u).value);
    }
  }

  lemma CutNumbers(v: seq<Seg>, k: nat, s: Seg)
    requires k < |v| && s.walNo == v[k].walNo
    ensures |Cut(v, k, s)| == |v| - k && forall j :: 0 <= j < |v| - k ==> Cut(v, k, s)[j].walNo == v[k + j].walNo
  {
  }

  lemma CutNumber(v: seq<Seg>, k: nat, u: u64, walSize: nat)
    requires SetOk(v, walSize) && k < |v| && u <= v[k].h.idUntil
    ensures v[k].h.dataStart.Some? == v[k].h.dataEnd.Some?
    ensures CutFront(v[k], u).Ok? && CutFront(v[k], u).value.walNo == v[k].walNo
  {
    hide FileOk, CutFront, Entries;
    assert SegOk(v[k], walSize);
    CutFrontOk(v[k], u, walSize);
    SegOrder(v[k], walSize);
  }

  lemma TruncateNumbers(v: seq<Seg>, k: u64, m: Made, walSize: nat)
    requires SetOk(v, walSize) && |m.ids| == |v|
    ensures Legal(v, TruncateAt(k), walSize)
    ensures var w, n := Step(v, TruncateAt(k), walSize), Track(v, TruncateAt(k), m, walSize);
      && |n.ids| == |w| && (k <= v[0].h.idFrom ==> |w| == 1 && w[0].walNo == 1)
      && (v[0].h.idFrom < k ==>
           |w| == BackCount(v, k) <= |v| && forall j :: 0 <= j < |w| ==>
               n.ids[j] == m.ids[j] && w[j].walNo == v[j].walNo)
  {
    hide FileOk, CutBack, BackCount, Truncate, NewBytes, LogOf;
    TruncateShape(v, k, walSize);
    if v[0].h.idFrom < k {
      var n := BackCount(v, k);
      assert SegOk(v[n - 1], walSize);
      CutBackOk(v[n - 1], k, walSize);
    }
  }

  lemma TrackAscends(v: seq<Seg>, op: Op, m: Made, walSize: nat)
    requires SetOk(v, walSize) && Legal(v, op, walSize) && |m.ids| == |v| && Ascending(m)
    ensures Ascending(Track(v, op, m, walSize))
  {
    hide SetOk, Legal, FrontCount, BackCount;
  }

  ghost function TrackRun(v: seq<Seg>, ops: seq<Op>, m: Made, walSize: nat): (n: Made)
    requires SetOk(v, walSize) && LegalRun(v, ops, walSize) && |m.ids| == |v|
    decreases |ops|
  {
    if ops == [] then m
    else
      StepRefines(v, ops[0], walSize);
      StepNumbers(v, ops[0], m, walSize);
      TrackRun(Step(v, ops[0], walSize), ops[1..], Track(v, ops[0], m, walSize), walSize)
  }

  /** A file that was there at the beginning still has its number. */
  ghost predicate Survivors(v: seq<Seg>, m: Made, w: seq<Seg>, n: Made)
    requires |m.ids| == |v| && |n.ids| == |w|
  {
    && m.next <= n.next
    && forall j :: 0 <= j < |w| && n.ids[j] < m.next ==>
         IsFile(v, m, n.ids[j], w[j].walNo)
  }

  lemma SurvivorsCompose(u: seq<Seg>, l: Made, v: seq<Seg>, m: Made, w: seq<Seg>, n: Made)
    requires |l.ids| == |u| && |m.ids| == |v| && |n.ids| == |w|
    requires Survivors(u, l, v, m) && Survivors(v, m, w, n)
    ensures Survivors(u, l, w, n)
  {
    forall j | 0 <= j < |w| && n.ids[j] < l.next
      ensures IsFile(u, l, n.ids[j], w[j].walNo)
    {
      assert IsFile(v, m, n.ids[j], w[j].walNo);
      var k :| 0 <= k < |v| && m.ids[k] == n.ids[j] && v[k].walNo == w[j].walNo;
      assert IsFile(u, l, m.ids[k], v[k].walNo);
    }
  }

  lemma {:induction false} RunSurvivors(v: seq<Seg>, ops: seq<Op>, m: Made, walSize: nat)
    requires SetOk(v, walSize) && LegalRun(v, ops, walSize) && |m.ids| == |v| && Ascending(m)
    ensures var w, n := Run(v, ops, walSize), TrackRun(v, ops, m, walSize);
      |n.ids| == |w| && Ascending(n) && Survivors(v, m, w, n)
    decreases |ops|
  {
    hide SetOk, Step, Legal, Track, Ascending;
    if ops == [] {
      Same(v, m, v, m);
    } else {
      var w, n := Step(v, ops[0], walSize), Track(v, ops[0], m, walSize);
      StepRefines(v, ops[0], walSize);
      StepNumbers(v, ops[0], m, walSize);
      TrackAscends(v, ops[0], m, walSize);
      RunSurvivors(w, ops[1..], n, walSize);
      SurvivorsCompose(v, m, w, n, Run(w, ops[1..], walSize), TrackRun(w, ops[1..], n, walSize));
    }
  }

  // ---- the files themselves

  /** `made` are all files ever made, by identity; `cs` are those of the identities `ids`. */
  ghost predicate NamedBy<T>(cs: seq<T>, ids: seq<nat>, made: seq<T>) {
    |cs| == |ids| && forall j :: 0 <= j < |ids| ==> ids[j] < |made| && cs[j] == made[ids[j]]
  }

  function KeptOrNew(ids: seq<nat>, m: Made): Made {
    if ids == [] then Restarted(m) else m.(ids := ids)
  }

  /** A removal follows the identities as it follows the files. */
  lemma RemoveKept(v: seq<Seg>, op: Op, m: Made, walSize: nat)
    requires SetOk(v, walSize) && Legal(v, op, walSize) && |m.ids| == |v|
    ensures op.PurgeTo? ==> Track(v, op, m, walSize) == KeptOrNew(Kept(v, 0, op.u, m.ids), m)
    ensures op.TruncateAt? ==> Track(v, op, m, walSize) == KeptOrNew(Kept(v, op.k, U64_MAX, m.ids), m)
  {
    hide FileOk, Linked, FrontCount, BackCount;
    if op.TruncateAt? {
      TruncateShape(v, op.k, walSize);
      AllBelowMax(v, walSize);
    }
  }

  lemma AllBelowMax(v: seq<Seg>, walSize: nat)
    requires SetOk(v, walSize)
    ensures FrontCount(v, U64_MAX) == |v|
  {
    hide FileOk, FrontCount;
    assert forall i :: 0 <= i < |v| ==> SegOk(v[i], walSize);
    assert forall i :: 0 <= i < |v| ==> v[i].h.idUntil < U64_MAX;
    PopFrontIsSuffix(v, U64_MAX);
  }

  lemma KeptFollows<T>(v: seq<Seg>, from: u64, until: u64, cs: seq<T>, ids: seq<nat>, made: seq<T>)
    requires v != [] && |cs| == |v| && NamedBy(cs, ids, made)
    ensures NamedBy(Kept(v, from, until, cs), Kept(v, from, until, ids), made)
  {
    hide FrontCount, BackCount;
  }

  /** Every other step only adds files, with the next identities. */
  ghost predicate Grown(m: Made, n: Made) {
    && m.ids <= n.ids && n.next == m.next + (|n.ids| - |m.ids|)
    && forall j :: |m.ids| <= j < |n.ids| ==> n.ids[j] == m.next + (j - |m.ids|)
  }

  lemma {:induction false} RunGrows(v: seq<Seg>, ops: seq<Op>, m: Made, walSize: nat)
    requires SetOk(v, walSize) && LegalRun(v, ops, walSize) && |m.ids| == |v|
    requires forall i :: 0 <= i < |ops| ==> !ops[i].PurgeTo? && !ops[i].TruncateAt?
    ensures Grown(m, TrackRun(v, ops, m, walSize))
    decreases |ops|
  {
    hide SetOk, Step, Legal;
    if ops != [] {
      StepRefines(v, ops[0], walSize);
      StepNumbers(v, ops[0], m, walSize);
      RunGrows(Step(v, ops[0], walSize), ops[1..], Track(v, ops[0], m, walSize), walSize);
    }
  }

  /**
  The identities name the files themselves, so that `RefreshableExact` is about them. After a removal:
  what stays is named by the same identities, and a new first file by the next one.
  */
  lemma RemoveFollows<T>(v: seq<Seg>, op: Op, m: Made, before: seq<T>, after: seq<T>, made: seq<T>, walSize: nat)
    requires SetOk(v, walSize) && Legal(v, op, walSize) && (op.PurgeTo? || op.TruncateAt?)
    requires |before| == |v| && NamedBy(before, m.ids, made) && m.next == |made|
    requires var kept := if op.PurgeTo? then Kept(v, 0, op.u, before) else Kept(v, op.k, U64_MAX, before);
      if kept == [] then |after| == 1 else after == kept
    ensures var n := Track(v, op, m, walSize);
      if |made| < n.next then NamedBy(after, n.ids, made + after) && n.next == |made + after|
      else NamedBy(after, n.ids, made) && n.next == |made|
  {
    hide FrontCount, BackCount, Track, Kept;
    RemoveKept(v, op, m, walSize);
    if op.PurgeTo? {
      KeptFollows(v, 0, op.u, before, m.ids, made);
    } else {
      KeptFollows(v, op.k, U64_MAX, before, m.ids, made);
    }
  }

  /** After any run that removes nothing: the old files are the first ones, the new ones take the next identities. */
  lemma AppendsFollow<T>(v: seq<Seg>, ops: seq<Op>, m: Made, before: seq<T>, after: seq<T>, made: seq<T>, walSize: nat)
    requires SetOk(v, walSize) && LegalRun(v, ops, walSize)
    requires forall i :: 0 <= i < |ops| ==> !ops[i].PurgeTo? && !ops[i].TruncateAt?
    requires |before| == |v| && NamedBy(before, m.ids, made) && m.next == |made|
    requires before <= after && |after| == |Run(v, ops, walSize)|
    ensures var n := TrackRun(v, ops, m, walSize);
      NamedBy(after, n.ids, made + after[|before|..]) && n.next == |made + after[|before|..]|
  {
    hide Run, TrackRun, LegalRun, SetOk;
    RunGrows(v, ops, m, walSize);
    TrackLength(v, ops, m, walSize);
    var n := TrackRun(v, ops, m, walSize);
    forall j | 0 <= j < |n.ids|
      ensures n.ids[j] < |made + after[|before|..]| && after[j] == (made + after[|before|..])[n.ids[j]]
    {
      if j < |before| {
        assert n.ids[j] == m.ids[j] && after[j] == before[j];
      }
    }
  }

  lemma {:induction false} TrackLength(v: seq<Seg>, ops: seq<Op>, m: Made, walSize: nat)
    requires SetOk(v, walSize) && LegalRun(v, ops, walSize) && |m.ids| == |v|
    ensures |TrackRun(v, ops, m, walSize).ids| == |Run(v, ops, walSize)|
    decreases |ops|
  {
    hide SetOk, Step, Legal, Track;
    if ops != [] {
      StepRefines(v, ops[0], walSize);
      StepNumbers(v, ops[0], m, walSize);
      TrackLength(Step(v, ops[0], walSize), ops[1..], Track(v, ops[0], m, walSize), walSize);
    }
  }

  // ---- the reader's copy

  type Copy = seq<LocalFile<nat>>

  /** The copy right after a refresh: every file of the set, and maps of these very files. */
  ghost predicate Current(fs: Copy, v: seq<Seg>, m: Made)
    requires |m.ids| == |v|
  {
    && LocalMetas(fs) == MetasOf(v)
    && forall i :: 0 <= i < |fs| && fs[i].mmap.Some? ==> fs[i].mmap.value == m.ids[i]
  }

  /** What the next refresh needs (`Reader.Behind`), with identities for maps. */
  ghost predicate Refreshable(fs: Copy, a: int, w: seq<Seg>, n: Made)
    requires |n.ids| == |w| && w != []
  {
    && !Overtaken(|fs|, a, w[0].walNo, |w|)
    && forall i :: 0 <= i < |fs| && fs[i].mmap.Some? ==> CurrentAt(fs[i].mmap.value, a + i - w[0].walNo, n)
  }

  predicate CurrentAt(id: nat, j: int, n: Made) {
    0 <= j < |n.ids| ==> n.ids[j] == id
  }

  /**
  A file made since the refresh has a number the copy still has mapped, or the first number the copy
  lists, without being the first file.
  */
  ghost predicate Reused(fs: Copy, a: int, m: Made, w: seq<Seg>, n: Made)
    requires |n.ids| == |w|
  {
    exists j :: 0 <= j < |w| && m.next <= n.ids[j] && ListedAgain(fs, a, w, j)
  }

  predicate ListedAgain(fs: Copy, a: int, w: seq<Seg>, j: nat)
    requires j < |w|
  {
    var i := w[j].walNo - a;
    0 <= i < |fs| && (fs[i].mmap.Some? || (i == 0 && 0 < j))
  }

  /**
  From a current copy, whatever run the writer makes until the next request: the refresh will work if
  and only if no number the copy has mapped, or lists first, was given to a new file.
  */
  lemma RefreshableExact(fs: Copy, v: seq<Seg>, m: Made, ops: seq<Op>, walSize: nat)
    requires SetOk(v, walSize) && LegalRun(v, ops, walSize) && |m.ids| == |v| && Ascending(m) && Current(fs, v, m)
    ensures var w, n := Run(v, ops, walSize), TrackRun(v, ops, m, walSize);
      && |n.ids| == |w| && w != []
      && (Refreshable(fs, v[0].walNo, w, n) <==> !Reused(fs, v[0].walNo, m, w, n))
  {
    RunRefines(v, ops, walSize);
    RunSurvivors(v, ops, m, walSize);
    var w, n, a := Run(v, ops, walSize), TrackRun(v, ops, m, walSize), v[0].walNo;
    SetNumbered(v, walSize);
    SetNumbered(w, walSize);
    hide Run, TrackRun, LegalRun, Linked, Current, Survivors, Ascending;
    if !Refreshable(fs, a, w, n) {
      NotRefreshable(fs, v, m, w, n);
    }
    if Reused(fs, a, m, w, n) {
      ReusedFails(fs, v, m, w, n);
    }
  }

  /** The sets of two moments, their files by identity, and the copy of the first. */
  ghost predicate Between(fs: Copy, v: seq<Seg>, m: Made, w: seq<Seg>, n: Made) {
    && v != [] && w != [] && |m.ids| == |v| && |n.ids| == |w| && Ascending(m) && Ascending(n)
    && Survivors(v, m, w, n) && Current(fs, v, m)
    && NumberedFrom(MetasOf(v), v[0].walNo) && NumberedFrom(MetasOf(w), w[0].walNo)
  }

  lemma NumberAt(v: seq<Seg>, i: nat)
    requires v != [] && NumberedFrom(MetasOf(v), v[0].walNo) && i < |v|
    ensures v[i].walNo == v[0].walNo + i
  {
    assert MetasOf(v)[i].walNo == v[0].walNo + i;
  }

  /** A survivor is where its number says it was. */
  lemma SurvivorAt(fs: Copy, v: seq<Seg>, m: Made, w: seq<Seg>, n: Made, j: nat)
    requires Between(fs, v, m, w, n) && j < |w| && n.ids[j] < m.next
    ensures var i := w[j].walNo - v[0].walNo;
      0 <= i < |v| == |fs| && n.ids[j] == m.ids[i]
  {
    assert IsFile(v, m, n.ids[j], w[j].walNo);
    var i :| 0 <= i < |v| && m.ids[i] == n.ids[j] && v[i].walNo == w[j].walNo;
    NumberAt(v, i);
    assert |LocalMetas(fs)| == |fs|;
  }

  lemma NotRefreshable(fs: Copy, v: seq<Seg>, m: Made, w: seq<Seg>, n: Made)
    requires Between(fs, v, m, w, n) && !Refreshable(fs, v[0].walNo, w, n)
    ensures Reused(fs, v[0].walNo, m, w, n)
  {
    hide Between, Reused;
    BetweenFacts(fs, v, m, w, n);
    var a, c := v[0].walNo, w[0].walNo;
    if Overtaken(|fs|, a, c, |w|) {
      OvertakenReuses(fs, v, m, w, n);
    } else {
      var i :| 0 <= i < |fs| && fs[i].mmap.Some? && !CurrentAt(fs[i].mmap.value, a + i - c, n);
      StaleReuses(fs, v, m, w, n, i);
    }
  }

  lemma BetweenFacts(fs: Copy, v: seq<Seg>, m: Made, w: seq<Seg>, n: Made)
    requires Between(fs, v, m, w, n)
    ensures v != [] && w != [] && |m.ids| == |v| == |fs| && |n.ids| == |w|
  {
    assert |LocalMetas(fs)| == |fs|;
  }

  lemma OvertakenReuses(fs: Copy, v: seq<Seg>, m: Made, w: seq<Seg>, n: Made)
    requires Between(fs, v, m, w, n) && Overtaken(|fs|, v[0].walNo, w[0].walNo, |w|)
    ensures Reused(fs, v[0].walNo, m, w, n)
  {
    var a := v[0].walNo;
    var j := a - w[0].walNo;
    NumberAt(w, j);
    hide Survivors, Current, NumberedFrom;
    if n.ids[j] < m.next {
      SurvivorAt(fs, v, m, w, n, 0);
    }
    assert ListedAgain(fs, a, w, j);
  }

  lemma StaleReuses(fs: Copy, v: seq<Seg>, m: Made, w: seq<Seg>, n: Made, i: nat)
    requires Between(fs, v, m, w, n) && i < |fs| && fs[i].mmap.Some?
    requires !CurrentAt(fs[i].mmap.value, v[0].walNo + i - w[0].walNo, n)
    ensures Reused(fs, v[0].walNo, m, w, n)
  {
    var a := v[0].walNo;
    var j := a + i - w[0].walNo;
    NumberAt(w, j);
    hide Survivors, NumberedFrom, Ascending;
    if n.ids[j] < m.next {
      SurvivorAt(fs, v, m, w, n, j);
    }
    assert ListedAgain(fs, a, w, j);
  }

  lemma ReusedFails(fs: Copy, v: seq<Seg>, m: Made, w: seq<Seg>, n: Made)
    requires Between(fs, v, m, w, n) && Reused(fs, v[0].walNo, m, w, n)
    ensures !Refreshable(fs, v[0].walNo, w, n)
  {
    hide Between;
    BetweenFacts(fs, v, m, w, n);
    var j :| 0 <= j < |w| && m.next <= n.ids[j] && ListedAgain(fs, v[0].walNo, w, j);
    NumberNow(fs, v, m, w, n, j);
    var i := w[j].walNo - v[0].walNo;
    if fs[i].mmap.Some? {
      MapIsOld(fs, v, m, w, n, i);
      assert !CurrentAt(fs[i].mmap.value, j, n);
    }
  }

  lemma NumberNow(fs: Copy, v: seq<Seg>, m: Made, w: seq<Seg>, n: Made, j: nat)
    requires Between(fs, v, m, w, n) && j < |w|
    ensures w[j].walNo == w[0].walNo + j
  {
    NumberAt(w, j);
  }

  /** The maps of the copy are of files that were there at its refresh. */
  lemma MapIsOld(fs: Copy, v: seq<Seg>, m: Made, w: seq<Seg>, n: Made, i: nat)
    requires Between(fs, v, m, w, n) && i < |fs| && fs[i].mmap.Some?
    ensures fs[i].mmap.value < m.next
  {
    assert |LocalMetas(fs)| == |fs|;
  }

  // ---- runs that never reuse a number

  /** The step deletes no file at the back and does not start again at 1. */
  ghost predicate Forward(v: seq<Seg>, op: Op)
    requires v != []
  {
    match op
    case PurgeTo(u) => FrontCount(v, u) < |v|
    case TruncateAt(k) => v[0].h.idFrom < k && BackCount(v, k) == |v|
    case _ => true
  }

  ghost predicate ForwardRun(v: seq<Seg>, ops: seq<Op>, walSize: nat)
    requires SetOk(v, walSize) && LegalRun(v, ops, walSize)
    decreases |ops|
  {
    ops == [] || (
      && Forward(v, ops[0])
      && (StepRefines(v, ops[0], walSize); ForwardRun(Step(v, ops[0], walSize), ops[1..], walSize)))
  }

  /** No file made since has a number up to `top`. */
  ghost predicate Above(m: Made, top: int, w: seq<Seg>, n: Made)
    requires |n.ids| == |w| && w != []
  {
    top <= Last(w).walNo && forall j :: 0 <= j < |w| && m.next <= n.ids[j] ==> top < w[j].walNo
  }

  /** The same files and possibly a new one behind them. */
  lemma AboveGrows(first: Made, top: int, v: seq<Seg>, m: Made, w: seq<Seg>, n: Made)
    requires |m.ids| == |v| && |n.ids| == |w| && v != [] && |v| <= |w| <= |v| + 1 && Above(first, top, v, m)
    requires forall j :: 0 <= j < |v| ==> n.ids[j] == m.ids[j] && w[j].walNo == v[j].walNo
    requires |w| == |v| + 1 ==> w[|v|].walNo == Last(v).walNo + 1
    ensures Above(first, top, w, n)
  {
  }

  /** Fewer files at the front. */
  lemma AboveShrinks(first: Made, top: int, v: seq<Seg>, m: Made, w: seq<Seg>, n: Made, k: nat)
    requires |m.ids| == |v| && |n.ids| == |w| && k < |v| && |w| == |v| - k && Above(first, top, v, m)
    requires forall j :: 0 <= j < |w| ==> n.ids[j] == m.ids[k + j] && w[j].walNo == v[k + j].walNo
    ensures Above(first, top, w, n)
  {
  }

  lemma StepAbove(first: Made, top: int, v: seq<Seg>, op: Op, m: Made, walSize: nat)
    requires SetOk(v, walSize) && Legal(v, op, walSize) && |m.ids| == |v| && Forward(v, op)
    requires Above(first, top, v, m) && first.next <= m.next
    ensures var w, n := Step(v, op, walSize), Track(v, op, m, walSize);
      |n.ids| == |w| && w != [] && Above(first, top, w, n) && first.next <= n.next
  {
    hide Step, Track, Linked, FrontCount, BackCount, Above, Legal;
    StepNumbers(v, op, m, walSize);
    var w, n := Step(v, op, walSize), Track(v, op, m, walSize);
    match op
    case Append(id, p) =>
      AppendNumbers(v, id, p, m, walSize);
      AboveGrows(first, top, v, m, w, n);
    case Seal =>
      SealNumbers(v, m, walSize);
      TrackSeal(v, m, walSize);
      AboveGrows(first, top, v, m, w, n);
    case PurgeTo(u) =>
      PurgeNumbers(v, u, m, walSize);
      AboveShrinks(first, top, v, m, w, n, FrontCount(v, u));
    case TruncateAt(k) =>
      TruncateNumbers(v, k, m, walSize);
      AboveGrows(first, top, v, m, w, n);
    case Flush =>
      FlushNumbers(v, walSize);
      TrackFlush(v, m, walSize);
      AboveGrows(first, top, v, m, w, n);
  }

  lemma TrackSeal(v: seq<Seg>, m: Made, walSize: nat)
    requires SetOk(v, walSize) && Legal(v, Seal, walSize) && |m.ids| == |v|
    ensures Track(v, Seal, m, walSize) == Added(m)
  {
  }

  lemma TrackFlush(v: seq<Seg>, m: Made, walSize: nat)
    requires SetOk(v, walSize) && Legal(v, Flush, walSize) && |m.ids| == |v|
    ensures Track(v, Flush, m, walSize) == m
  {
  }

  lemma FlushNumbers(v: seq<Seg>, walSize: nat)
    requires SetOk(v, walSize) && Legal(v, Flush, walSize)
    ensures var w := Step(v, Flush, walSize);
      |w| == |v| && forall j :: 0 <= j < |v| ==> w[j].walNo == v[j].walNo
  {
    hide FileOk, HeaderBytes;
    assert SegOk(Last(v), walSize);
  }

  lemma {:induction false} RunAbove(first: Made, top: int, v: seq<Seg>, ops: seq<Op>, m: Made, walSize: nat)
    requires SetOk(v, walSize) && LegalRun(v, ops, walSize) && |m.ids| == |v| && ForwardRun(v, ops, walSize)
    requires Above(first, top, v, m) && first.next <= m.next
    ensures var w, n := Run(v, ops, walSize), TrackRun(v, ops, m, walSize);
      |n.ids| == |w| && w != [] && Above(first, top, w, n)
    decreases |ops|
  {
    hide Step, Legal, Track, Above, Forward, Linked;
    if ops != [] {
      StepRefines(v, ops[0], walSize);
      StepNumbers(v, ops[0], m, walSize);
      StepAbove(first, top, v, ops[0], m, walSize);
      RunAbove(first, top, Step(v, ops[0], walSize), ops[1..], Track(v, ops[0], m, walSize), walSize);
    }
  }

  /** So over every run that only appends, seals, flushes and purges or cuts part of the log, the refresh works. */
  lemma ForwardRefreshes(fs: Copy, v: seq<Seg>, m: Made, ops: seq<Op>, walSize: nat)
    requires SetOk(v, walSize) && LegalRun(v, ops, walSize) && |m.ids| == |v| && Ascending(m) && Current(fs, v, m)
    requires ForwardRun(v, ops, walSize)
    ensures var w, n := Run(v, ops, walSize), TrackRun(v, ops, m, walSize);
      |n.ids| == |w| && w != [] && Refreshable(fs, v[0].walNo, w, n)
  {
    SetNumbered(v, walSize);
    NumberAt(v, |v| - 1);
    assert Above(m, v[0].walNo + |v| - 1, v, m);
    hide Run, TrackRun, LegalRun, ForwardRun, Linked, Refreshable;
    RunAbove(m, v[0].walNo + |v| - 1, v, ops, m, walSize);
    RefreshableExact(fs, v, m, ops, walSize);
    assert |fs| == |v| by { assert |LocalMetas(fs)| == |MetasOf(v)|; }
  }

  // ---- the stale map

  /** Everything is purged: number 1 is a new file, and a copy that has number 1 mapped keeps the old map. */
  lemma FullPurgeIsStale(fs: Copy, v: seq<Seg>, m: Made, u: u64, walSize: nat)
    requires SetOk(v, walSize) && |m.ids| == |v| && Ascending(m) && Current(fs, v, m)
    requires v[0].walNo == 1 && fs != [] && fs[0].mmap.Some? && FrontCount(v, u) == |v|
    ensures Legal(v, PurgeTo(u), walSize)
    ensures var w, n := Step(v, PurgeTo(u), walSize), Track(v, PurgeTo(u), m, walSize);
      && |n.ids| == |w| && w != [] && w[0].walNo == 1 && !Refreshable(fs, 1, w, n)
      && |Retained(fs, MetasOf(w))| <= |w|
      && Refreshed(fs, MetasOf(w))[0].mmap == Some(m.ids[0]) && n.ids[0] != m.ids[0]
  {
    hide FileOk, Purge, FrontCount, NewBytes, LogOf, Refreshed, Retained;
    PurgeNumbers(v, u, m, walSize);
    SetNumbered(v, walSize);
    var w, n := Step(v, PurgeTo(u), walSize), Track(v, PurgeTo(u), m, walSize);
    assert !CurrentAt(fs[0].mmap.value, 0, n);
    assert NumberedFrom(MetasOf(w), 1);
    RefreshExact(fs, MetasOf(w), 1, 1);
    RefreshKeepsMaps(fs, MetasOf(w), 1, 1, 0);
  }

  /** Through the old map an entry of the new file is not found: the old records all end below it. */
  lemma {:induction false} StaleReadFails(walNo: nat, first: nat, b: seq<byte>, off: nat, id: nat, ps: seq<seq<byte>>,
                                          from: nat, until: nat)
    requires Chain(b, off, id, ps) && id + |ps| <= from <= until && ReadRecord(b, Next(off, ps)).None?
    ensures ScanFrom(walNo, first, b, off, from, until, 0, []) == Err(Integrity)
    decreases |ps|
  {
    hide ReadRecord, RecordIn;
    if ps != [] {
      ReadRecordIn(b, off, id, ps[0]);
      StaleReadFails(walNo, first, b, off + Stride(ps[0]), id + 1, ps[1..], from, until);
    }
  }
}
