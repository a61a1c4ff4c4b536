/**
The reader task of the log store (`run` in hiqlite-wal/src/reader.rs): a local copy of the file set,
refreshed from the shared one before each request, read-only maps that are kept between requests, and
the memo of the last entry read.
*/
module Readers {
  import opened Base
  import opened Records
  import opened Scan
  import opened WalFiles
  import opened WalSet
  import opened WalRemove
  import opened WalMemo
  import opened Publication
  import opened WalFileSets
  import opened Serve
  import opened ReaderRuns

  class Reader {
    const wal: WalFileSet
    const shared: SharedSet<array<byte>>
    const copy: SharedSet<array<byte>>
    var memo: Option<Memo>

    /** The shared copy shows the writer's files, and the reader's objects are its own. */
    ghost predicate Linked()
      reads this, wal, wal.files, wal.contents, shared, copy
    {
      && wal.Ready() && this !in wal.Repr && shared !in wal.Repr && copy !in wal.Repr && copy != shared
      && LocalMetas(shared.files) == MetasOf(wal.view)
      && MemoGood(memo, wal.view)
    }

    /** Numbers of the local copy start at `a`, the writer's did not overtake it, and its maps are of present files. */
    ghost predicate Behind(a: int)
      reads wal, copy
    {
      && wal.view != []
      && NumberedFrom(LocalMetas(copy.files), a)
      && !Overtaken(|copy.files|, a, wal.view[0].walNo, |wal.view|)
      && MapsStillRight(copy.files, a, wal.view[0].walNo, wal.contents)
    }

    /** The local copy shows exactly the writer's files. */
    ghost predicate UpToDate()
      reads wal, copy
    {
      && |copy.files| == |wal.view| == |wal.contents|
      && LocalMetas(copy.files) == MetasOf(wal.view)
      && MapsRight(copy.files, wal.contents)
    }

    constructor (wal: WalFileSet, shared: SharedSet<array<byte>>)
      requires wal.Ready() && shared !in wal.Repr && LocalMetas(shared.files) == MetasOf(wal.view)
      ensures Linked() && UpToDate() && this.wal == wal && this.shared == shared && memo == None
    {
      this.wal, this.shared, memo := wal, shared, None;
      copy := new SharedSet(shared.active, LocalMetas(shared.files));
    }

    /**
    Take the shared values over before a request. The copy is right afterwards if and only if it was not
    overtaken and keeps no map of a deleted file; `ReaderRuns` says after which runs of the writer.
    */
    method Refresh(ghost a: int)
      requires Linked() && NumberedFrom(LocalMetas(copy.files), a)
      modifies copy
      ensures Linked() && (UpToDate() <==> old(Behind(a)))
    {
      hide Retained, Refreshed, SegOk, FileIs, Distinct, MemoGood, MapsRight, MapsStillRight, Overtaken;
      SetNumbered(wal.view, wal.walSize);
      var metas := LocalMetas(shared.files);
      RefreshResult(copy.files, metas, wal.contents, a, wal.view[0].walNo);
      copy.active := shared.active;
      copy.CloneFilesFrom(metas);
    }

    /**
    `Behind` in terms of identities: `made` are all files ever made, and `n` says which of them the set
    has now. Together with `ReaderRuns.RefreshableExact` this says when the next request is served right.
    */
    lemma BehindExact(a: int, made: seq<array<byte>>, n: Made, fs: Copy)
      requires Linked() && |n.ids| == |wal.view| && Distinct(made) && NamedBy(wal.contents, n.ids, made)
      requires LocalMetas(copy.files) == LocalMetas(fs)
      requires forall i :: 0 <= i < |fs| ==> SameMap(copy.files, fs, made, i)
      ensures Behind(a) <==> NumberedFrom(LocalMetas(fs), a) && Refreshable(fs, a, wal.view, n)
    {
      hide SegOk, FileIs, MemoGood, NumberedFrom;
      assert |LocalMetas(copy.files)| == |copy.files| && |LocalMetas(fs)| == |fs|;
      forall i | 0 <= i < |fs|
        ensures copy.files[i].mmap.Some? == fs[i].mmap.Some?
        ensures fs[i].mmap.Some? ==>
          (RightAt(copy.files[i].mmap.value, a + i - wal.view[0].walNo, wal.contents) <==>
           CurrentAt(fs[i].mmap.value, a + i - wal.view[0].walNo, n))
      {
        assert SameMap(copy.files, fs, made, i);
      }
    }

    /** Appends make files, but delete none: the next request is served right. */
    twostate lemma AfterAppend()
      requires old(Linked()) && old(UpToDate()) && wal.Ready() && copy.files == old(copy.files)
      requires old(wal.contents) <= wal.contents && wal.view[0].walNo == old(wal.view[0].walNo)
      ensures Behind(wal.view[0].walNo)
    {
      hide SegOk, FileIs, MemoGood, Distinct;
      SetNumbered(old(wal.view), wal.walSize);
      forall i | 0 <= i < |copy.files| && copy.files[i].mmap.Some?
        ensures RightAt(copy.files[i].mmap.value, i, wal.contents)
      {
        assert copy.files[i].mmap.value == old(wal.contents)[i] == wal.contents[i];
      }
    }

    /**
    A removal leaves the next request right if some file stays, and also if none does, unless the copy has
    file number 1 mapped, whose number the new first file takes. `v` are the files when they are deleted.
    */
    twostate lemma AfterRemove(v: seq<Seg>, from: u64, until: u64)
      requires old(Linked()) && old(UpToDate()) && wal.Ready() && copy.files == old(copy.files)
      requires SetOk(v, wal.walSize) && MetasOf(v) == old(MetasOf(wal.view)) && |v| == |old(wal.contents)|
      requires DataPaired(v) && ShiftDelete(v, from, until, wal.walSize) == Ok(wal.view)
      requires Kept(v, from, until, old(wal.contents)) != [] ==>
        wal.contents == Kept(v, from, until, old(wal.contents))
      requires Kept(v, from, until, old(wal.contents)) == [] ==> |wal.contents| == 1 && fresh(wal.contents[0])
      ensures Behind(v[0].walNo) <==> Kept(v, from, until, v) != [] || !MapsFirst(copy.files, v[0].walNo)
    {
      hide SegOk, FileIs, MemoGood, Distinct, WalSet.Linked, ShiftDelete, Kept, MapsStillRight, MapsFirst;
      SetNumbered(v, wal.walSize);
      RemovedNumbers(v, from, until, old(wal.contents), wal.walSize);
      var a, c := v[0].walNo, wal.view[0].walNo;
      assert |LocalMetas(copy.files)| == |copy.files|;
      if Kept(v, from, until, v) != [] {
        KeptMapsRight(copy.files, old(wal.contents), a, c, wal.contents);
      } else {
        FirstMapsRight(copy.files, old(wal.contents), a, wal.contents[0]);
        assert wal.contents == [wal.contents[0]];
      }
    }

    /** `read_logs` on local file `i`, which is mapped first where necessary. */
    method ReadFile(i: nat, from: u64, until: u64) returns (res: Result<ReadOut, ReadError>, panicked: bool)
      requires Linked() && UpToDate() && i < |copy.files|
      modifies copy`files
      ensures Linked() && UpToDate()
      ensures panicked <==> TryRead(wal.view[i], from, until, memo).Panic?
      ensures !panicked ==> TryRead(wal.view[i], from, until, memo) == Got(res)
    {
      hide FileOk, Distinct, Scan.ReadLogs, LocalMetas, MetasOf;
      LocalValues(i);
      var f := copy.files[i];
      var h := f.meta.h;
      var mmap := if f.mmap.Some? then f.mmap.value else wal.contents[i];
      copy.files := copy.files[i := f.(mmap := Some(mmap))];
      panicked, res := false, Err(Integrity);
      if h.dataStart.Some? {
        MemoBound(memo, wal.view, wal.walSize, i);
        res := ReadMapped(f.meta.walNo, h, mmap, from, until, memo);
      } else if from < h.idFrom {
        res := Err(BelowThreshold);
      } else if h.idUntil < until {
        res := Err(AboveThreshold);
      } else if until < from {
        res := Err(Reversed);
      } else {
        panicked := true;
      }
    }

    /** The file that contains the end of the request stays mapped, the ones before it are unmapped. */
    method DropMap(i: nat)
      requires Linked() && UpToDate() && i < |copy.files|
      modifies copy`files
      ensures Linked() && UpToDate()
    {
      hide FileOk, Distinct, MemoGood;
      copy.files := copy.files[i := copy.files[i].(mmap := None)];
      assert LocalMetas(copy.files) == LocalMetas(old(copy.files));
    }

    /** One file of the loop: what is sent, and whether that was all. */
    method ServeFile(i: nat, from: u64, until: u64) returns (items: seq<Item>, stop: bool, panicked: bool)
      requires Linked() && UpToDate() && i < |copy.files| && from <= wal.view[i].h.idUntil
      modifies this`memo, copy`files
      ensures Linked() && UpToDate()
      ensures ServedFile(wal.view[i], from, until, old(memo), items, stop, panicked, memo)
    {
      hide FileOk, Distinct, Scan.ReadLogs, FileIs, TryRead, MemoGood, LocalMetas, MetasOf;
      LocalValues(i);
      var idUntil := copy.files[i].meta.h.idUntil;
      var res;
      res, panicked := ReadFile(i, from, Min(idUntil, until));
      items, stop := [], true;
      if !panicked {
        if res.Err? {
          items := [Fail(res.error)];
        } else {
          items := Items(res.value.logs);
          ReadKeepsMemo(wal.view, wal.walSize, i, from, Min(idUntil, until), memo);
          memo := OrElse(res.value.memo, memo);
          stop := until <= idUntil;
          if !stop {
            DropMap(i);
          }
        }
      }
    }

    /** `Action::Logs`: what `ServeLogs` says, and the reader stays in order. */
    method HandleLogs(from: u64, until: u64, ghost a: int) returns (items: seq<Item>, panicked: bool)
      requires Linked() && Behind(a)
      modifies this`memo, copy
      ensures Linked() && UpToDate()
      ensures Served(items, memo, panicked) == ServeLogs(wal.view, from, until, old(memo))
    {
      hide Distinct, TryRead, MemoGood, LocalMetas, MetasOf, ServeLogs, ServedFile;
      ghost var all := ServeLogs(wal.view, from, until, memo);
      Refresh(a);
      items, panicked := [], false;
      var fromNext: u64 := from;
      var i := 0;
      assert wal.view[0..] == wal.view;
      while i < |copy.files|
        invariant i <= |copy.files| && Linked() && UpToDate()
        invariant Continues(all, items, ServeLogs(wal.view[i..], fromNext, until, memo))
      {
        LocalValues(i);
        ghost var before := memo;
        NextFile(wal.view, i, fromNext, until, memo);
        var idUntil := copy.files[i].meta.h.idUntil;
        if fromNext <= idUntil {
          var more, stop, panic := ServeFile(i, fromNext, until);
          FileServed(wal.view, i, fromNext, until, before, more, stop, panic, memo);
          items := items + more;
          if stop {
            panicked := panic;
            return;
          }
          fromNext := idUntil + 1;
        }
        i := i + 1;
      }
      NoFilesLeft(fromNext, until, memo);
      assert wal.view[i..] == [];
    }

    /** `Action::LogState`: the payload of the latest entry, none exactly when the log is empty. */
    method HandleLogState(ghost a: int) returns (last: Option<seq<byte>>)
      requires Linked() && Behind(a)
      modifies this`memo, copy
      ensures Linked() && UpToDate()
      ensures last.None? <==> LogOf(wal.view) == map[]
      ensures last.Some? ==>
        exists id :: id in LogOf(wal.view) && LogOf(wal.view)[id] == last.value
            && forall j :: j in LogOf(wal.view) ==> j <= id
    {
      hide FileOk, Distinct, FileIs, TryRead, MemoGood, LogOf, LatestId, LatestFile, WalSet.Linked;
      Refresh(a);
      LatestIsLast(wal.view, wal.walSize, memo);
      var found, k, id := Latest();
      if !found {
        return None;
      }
      ghost var v := wal.view;
      var res, panic := ReadFile(k, id, id);
      memo := OrElse(res.value.memo, memo);
      assert Items(res.value.logs)[0] == Data(LogOf(v)[id]);
      last := Some(res.value.logs[0].1);
      if k < |copy.files| - 1 {
        DropMap(k);
      }
    }

    /** The latest id and its file: the last one, or the one before it while the last one is empty. */
    method Latest() returns (found: bool, k: nat, id: u64)
      requires Linked() && UpToDate()
      ensures wal.view != [] && (found <==> LatestId(wal.view).Some?)
      ensures found ==> k < |copy.files| && k == LatestFile(wal.view) && id == LatestId(wal.view).value
    {
      hide FileOk, Distinct, FileIs, MemoGood;
      var n := |copy.files|;
      LocalValues(n - 1);
      found, k, id := true, n - 1, copy.files[n - 1].meta.h.idUntil;
      if copy.files[n - 1].meta.h.dataStart.None? {
        if n == 1 {
          return false, 0, 0;
        }
        LocalValues(n - 2);
        k, id := n - 2, copy.files[n - 2].meta.h.idUntil;
      }
    }

    lemma LocalValues(i: nat)
      requires Linked() && UpToDate() && i < |copy.files|
      ensures copy.files[i].meta == Meta(wal.view[i].walNo, wal.view[i].h)
      ensures wal.contents[i][..] == wal.view[i].b && SegOk(wal.view[i], wal.walSize) && wal.walSize < U32_MAX
    {
      hide FileOk, Distinct;
      assert LocalMetas(copy.files)[i] == MetasOf(wal.view)[i];
    }
  }

  /** Every map is a map of the file at its place. */
  ghost predicate MapsRight<M>(fs: seq<LocalFile<M>>, contents: seq<M>)
    requires |fs| <= |contents|
  {
    forall i :: 0 <= i < |fs| && fs[i].mmap.Some? ==> fs[i].mmap.value == contents[i]
  }

  /** Every map of a file whose number is still there is a map of the file that has this number now. */
  /** Where the files that stay come from, by number, and the number of a new beginning. */
  lemma RemovedNumbers<T>(v: seq<Seg>, from: u64, until: u64, cs: seq<T>, walSize: nat)
    requires SetOk(v, walSize) && DataPaired(v) && |cs| == |v| && ShiftDelete(v, from, until, walSize).Ok?
    ensures var w := ShiftDelete(v, from, until, walSize).value;
      var d := if from <= v[0].h.idFrom then FrontCount(v, until) else 0;
      && (Kept(v, from, until, v) == [] <==> Kept(v, from, until, cs) == [])
      && (Kept(v, from, until, v) == [] ==> |w| == 1 && w[0].walNo == 1)
      && (Kept(v, from, until, v) != [] ==>
          && w != [] && d < |v| && w[0].walNo == v[d].walNo && d + |w| <= |v|
          && Kept(v, from, until, cs) == cs[d..d + |w|])
  {
    hide FileOk, FrontCount, BackCount, ShiftDelete, Linked, Truncate, Purge;
    DeleteCases(v, from, until, walSize);
    KeptCases(v, from, until, v);
    KeptCases(v, from, until, cs);
    if from <= v[0].h.idFrom {
      RemovedFront(v, until, walSize);
    } else if Last(v).h.idUntil <= until {
      RemovedBack(v, from, walSize);
    } else {
      assert cs[0..|v|] == cs;
    }
  }

  lemma RemovedFront(v: seq<Seg>, until: u64, walSize: nat)
    requires SetOk(v, walSize) && DataPaired(v)
    ensures ShiftDelete(v, 0, until, walSize).Ok?
    ensures var w, n := ShiftDelete(v, 0, until, walSize).value, FrontCount(v, until);
      && (n == |v| ==> |w| == 1 && w[0].walNo == 1)
      && (n < |v| ==> |w| == |v| - n && w[0].walNo == v[n].walNo)
  {
    hide FileOk, FrontCount, ShiftDelete, Linked;
    PurgeShape(v, until, walSize);
    PurgeNumbers(v, until, Made(seq(|v|, _ => 0), 0), walSize);
  }

  lemma RemovedBack(v: seq<Seg>, from: u64, walSize: nat)
    requires SetOk(v, walSize) && DataPaired(v) && v[0].h.idFrom < from
    ensures ShiftDelete(v, from, U64_MAX, walSize).Ok?
    ensures var w, n := ShiftDelete(v, from, U64_MAX, walSize).value, BackCount(v, from);
      0 < n == |w| <= |v| && w[0].walNo == v[0].walNo
  {
    hide FileOk, BackCount, ShiftDelete, Linked;
    TruncateShape(v, from, walSize);
    TruncateNumbers(v, from, Made(seq(|v|, _ => 0), 0), walSize);
  }

  ghost predicate MapsStillRight<M>(fs: seq<LocalFile<M>>, a: int, c: int, contents: seq<M>) {
    forall i :: 0 <= i < |fs| && fs[i].mmap.Some? ==> RightAt(fs[i].mmap.value, a + i - c, contents)
  }

  lemma KeptMapsRight<M>(fs: seq<LocalFile<M>>, before: seq<M>, a: int, c: int, after: seq<M>)
    requires |fs| == |before| && MapsRight(fs, before)
    requires 0 <= c - a && c - a + |after| <= |before| && after == before[c - a..c - a + |after|]
    ensures MapsStillRight(fs, a, c, after)
  {
  }

  lemma FirstMapsRight<M>(fs: seq<LocalFile<M>>, before: seq<M>, a: int, new': M)
    requires |fs| == |before| && MapsRight(fs, before) && forall i :: 0 <= i < |before| ==> before[i] != new'
    ensures MapsStillRight(fs, a, 1, [new']) <==> !MapsFirst(fs, a)
  {
    forall i | 0 <= i < |fs| && fs[i].mmap.Some?
      ensures RightAt(fs[i].mmap.value, a + i - 1, [new']) <==> a + i != 1
    {
      assert fs[i].mmap.value == before[i];
    }
  }

  /** File number 1 is mapped. */
  ghost predicate MapsFirst<M>(fs: seq<LocalFile<M>>, a: int) {
    exists i :: 0 <= i < |fs| && fs[i].mmap.Some? && a + i == 1
  }

  ghost predicate RightAt<M>(mmap: M, j: int, contents: seq<M>) {
    0 <= j < |contents| ==> mmap == contents[j]
  }

  /** The refresh gives the other list with right maps if and only if the copy was not overtaken and its maps were. */
  lemma RefreshResult<M>(fs: seq<LocalFile<M>>, metas: seq<Meta>, contents: seq<M>, a: int, c: int)
    requires NumberedFrom(LocalMetas(fs), a) && NumberedFrom(metas, c) && |contents| == |metas|
    ensures |Retained(fs, metas)| <= |metas|
    ensures var gs := Refreshed(fs, metas);
      (LocalMetas(gs) == metas && MapsRight(gs, contents)) <==>
      (!Overtaken(|fs|, a, c, |metas|) && MapsStillRight(fs, a, c, contents))
  {
    hide Retained, Refreshed, NumberedFrom;
    RefreshExact(fs, metas, a, c);
    if !Overtaken(|fs|, a, c, |metas|) {
      forall i | 0 <= i < |metas|
        ensures Refreshed(fs, metas)[i].mmap == if a <= c + i < a + |fs| then fs[c + i - a].mmap else None
      {
        RefreshKeepsMaps(fs, metas, a, c, i);
      }
      MapsKept(fs, a, c, Refreshed(fs, metas), contents);
    }
  }

  lemma MapsKept<M>(fs: seq<LocalFile<M>>, a: int, c: int, gs: seq<LocalFile<M>>, contents: seq<M>)
    requires |gs| == |contents|
    requires forall i :: 0 <= i < |gs| ==> gs[i].mmap == if a <= c + i < a + |fs| then fs[c + i - a].mmap else None
    ensures MapsRight(gs, contents) <==> MapsStillRight(fs, a, c, contents)
  {
    if MapsRight(gs, contents) {
      forall i | 0 <= i < |fs| && fs[i].mmap.Some?
        ensures RightAt(fs[i].mmap.value, a + i - c, contents)
      {
        if 0 <= a + i - c < |contents| {
          assert gs[a + i - c].mmap == fs[i].mmap;
        }
      }
    }
    if MapsStillRight(fs, a, c, contents) {
      forall i | 0 <= i < |gs| && gs[i].mmap.Some?
        ensures gs[i].mmap.value == contents[i]
      {
        assert RightAt(fs[c + i - a].mmap.value, i, contents);
      }
    }
  }

  /** The same map, or none, once as an array and once as the number of the file it maps. */
  ghost predicate SameMap(files: seq<LocalFile<array<byte>>>, fs: Copy, made: seq<array<byte>>, i: nat)
    requires i < |fs|
  {
    && i < |files| && files[i].mmap.Some? == fs[i].mmap.Some?
    && (fs[i].mmap.Some? ==> fs[i].mmap.value < |made| && files[i].mmap.value == made[fs[i].mmap.value])
  }

  /** `items` have been sent, `rest` is still to come. */
  ghost predicate Continues(all: Served, items: seq<Item>, rest: Served) {
    all == rest.(items := items + rest.items)
  }

  /** What a read of the overlap of the range with file `s` sends, and the memo after it. */
  ghost predicate ServedFile(s: Seg, from: nat, until: nat, before: Option<Memo>, items: seq<Item>, stop: bool,
                             panicked: bool, after: Option<Memo>) {
    match TryRead(s, from, Min(s.h.idUntil, until), before)
    case Panic => items == [] && stop && panicked && after == before
    case Got(Err(e)) => items == [Fail(e)] && stop && !panicked && after == before
    case Got(Ok(out)) =>
      items == Items(out.logs) && stop == (until <= s.h.idUntil) && !panicked && after == OrElse(out.memo, before)
  }

  /** A file that ends before the range is passed over. */
  lemma NextFile(v: seq<Seg>, i: nat, from: nat, until: nat, memo: Option<Memo>)
    requires i < |v|
    ensures v[i].h.idUntil < from ==> ServeLogs(v[i..], from, until, memo) == ServeLogs(v[i + 1..], from, until, memo)
  {
    hide TryRead;
    assert v[i..][0] == v[i] && v[i..][1..] == v[i + 1..];
  }

  /** The rest of the answer after one file. */
  lemma FileServed(v: seq<Seg>, i: nat, from: nat, until: nat, before: Option<Memo>, items: seq<Item>, stop: bool,
                   panicked: bool, after: Option<Memo>)
    requires i < |v| && from <= v[i].h.idUntil && ServedFile(v[i], from, until, before, items, stop, panicked, after)
    ensures var all := ServeLogs(v[i..], from, until, before);
      && (stop ==> all == Served(items, after, panicked))
      && (!stop ==> !panicked && Continues(all, items, ServeLogs(v[i + 1..], v[i].h.idUntil + 1, until, after)))
  {
    hide TryRead;
    assert v[i..][0] == v[i] && v[i..][1..] == v[i + 1..];
  }

  lemma NoFilesLeft(from: nat, until: nat, memo: Option<Memo>)
    ensures ServeLogs([], from, until, memo) == Served([], memo, false)
  {
  }

  lemma ReadKeepsMemo(v: seq<Seg>, walSize: nat, i: nat, from: nat, until: nat, memo: Option<Memo>)
    requires SetOk(v, walSize) && i < |v| && MemoGood(memo, v)
    requires TryRead(v[i], from, until, memo).Got? && TryRead(v[i], from, until, memo).res.Ok?
    ensures MemoGood(OrElse(TryRead(v[i], from, until, memo).res.value.memo, memo), v)
  {
    hide ScanFrom, LogOf, MemoGood;
    ReadOverlap(v, walSize, i, from, until, memo);
  }

  lemma MemoBound(memo: Option<Memo>, v: seq<Seg>, walSize: nat, i: nat)
    requires SetOk(v, walSize) && MemoGood(memo, v) && i < |v| && v[i].h.dataStart.Some?
    ensures memo.Some? && memo.value.walNo == v[i].walNo && memo.value.idFrom == v[i].h.idFrom ==>
      memo.value.dataEnd < U32_MAX
  {
    hide Payloads, Chain;
    if memo.Some? && memo.value.walNo == v[i].walNo && memo.value.idFrom == v[i].h.idFrom {
      assert MemoSafe(memo.value, v[i]);
      assert SegOk(v[i], walSize);
      var s := v[i];
      var ps, k := Entries(s.h, s.b), memo.value.lastLogId - s.h.idFrom + 1;
      NextSplit(s.h.dataStart.value, ps, k);
    }
  }
}
