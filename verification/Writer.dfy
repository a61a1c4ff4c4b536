/**
The writer task of the log store (`run` in hiqlite-wal/src/writer.rs): one method per action. Each is
specified by the steps it takes (module `WalRuns`), so that everything proved about runs (refinement of
the log, durability, memos) holds for the writer, and each leaves the shared copy up to date.
*/
module Writers {
  import opened Base
  import opened Records
  import opened WalSet
  import opened WalRemove
  import opened WalRuns
  import opened WalDurability
  import opened Publication
  import opened WalFileSets

  datatype LogSync = Immediate | ImmediateAsync | IntervalMillis(ms: u64)

  datatype Metadata = Metadata(lastPurged: Option<seq<byte>>, vote: Option<seq<byte>>)

  type Entry = (u64, seq<byte>)

  /** The guard of the writer, 16 bytes looser than what a file has room for. */
  function DataLenLimit(walSize: u32): int {
    walSize - OFFSET_LOGS - 2
  }

  /** How many entries of a batch come before the first oversized one. */
  function Accepted(batch: seq<Entry>, walSize: u32): (n: nat)
    ensures n <= |batch|
    ensures forall i :: 0 <= i < n ==> |batch[i].1| <= DataLenLimit(walSize)
    ensures n < |batch| ==> DataLenLimit(walSize) < |batch[n].1|
  {
    if batch == [] || DataLenLimit(walSize) < |batch[0].1| then 0 else 1 + Accepted(batch[1..], walSize)
  }

  function Appends(batch: seq<Entry>): (ops: seq<Op>)
    ensures |ops| == |batch| && forall i :: 0 <= i < |ops| ==> ops[i] == Append(batch[i].0, batch[i].1)
  {
    seq(|batch|, i requires 0 <= i < |batch| => Append(batch[i].0, batch[i].1))
  }

  const ROLL_LIMIT := 4 * 1024

  class Writer {
    const wal: WalFileSet
    const shared: SharedSet<array<byte>>
    const sync: LogSync
    var isDirty: bool
    var meta: Metadata
    /** What `Metadata::write` has put into the metadata file; the file is replaced atomically. */
    var metaFile: Metadata

    /** The shared copy shows the writer's files, except possibly the values of the active one. */
    ghost predicate PublishedButActive()
      reads wal, shared
    {
      && shared.active == wal.active
      && |shared.files| == |wal.view|
      && (forall i :: 0 <= i < |wal.view| - 1 ==>
           LocalMetas(shared.files)[i] == Meta(wal.view[i].walNo, wal.view[i].h))
      && (wal.view != [] ==> Last(LocalMetas(shared.files)).walNo == Last(wal.view).walNo)
    }

    ghost predicate Published()
      reads wal, shared
    {
      shared.active == wal.active && LocalMetas(shared.files) == MetasOf(wal.view)
    }

    ghost predicate Valid()
      reads this, wal, wal.files, wal.contents, shared
    {
      && wal.Ready()
      && this !in wal.Repr && shared !in wal.Repr
      && Published()
      && Durable(wal.view, isDirty)
    }

    /**
    A writer takes over the set of a start. It takes the set to be on disk, and everything else holds if
    that is so; module `Startup` says when it is.
    */
    constructor (wal: WalFileSet, shared: SharedSet<array<byte>>, sync: LogSync, meta: Metadata)
      requires wal.Ready() && shared !in wal.Repr
      requires shared.active == wal.active && LocalMetas(shared.files) == MetasOf(wal.view)
      ensures !isDirty && this.wal == wal && this.shared == shared && this.sync == sync && this.meta == metaFile == meta
      ensures Valid() <==> Durable(wal.view, false)
    {
      this.wal, this.shared, this.sync, this.meta, this.metaFile := wal, shared, sync, meta, meta;
      isDirty := false;
    }

    /** Copy the active index and all files into the shared set, whose numbers start at `a`. */
    method Publish(ghost a: int)
      requires wal.Ready() && shared !in wal.Repr
      requires NumberedFrom(LocalMetas(shared.files), a) && (a <= wal.view[0].walNo || |wal.view| == 1)
      modifies shared
      ensures Published()
    {
      hide Refreshed, Retained, SegOk;
      var metas := ReadMetas();
      SetNumbered(wal.view, wal.walSize);
      RefreshExact(shared.files, metas, a, wal.view[0].walNo);
      shared.active := wal.active;
      shared.CloneFilesFrom(metas);
    }

    lemma SharedNumbered()
      requires wal.Ready() && PublishedButActive()
      ensures NumberedFrom(LocalMetas(shared.files), wal.view[0].walNo)
    {
      hide SegOk;
      SetNumbered(wal.view, wal.walSize);
      assert forall i :: 0 <= i < |wal.view| ==> MetasOf(wal.view)[i].walNo == wal.view[i].walNo;
    }

    method ReadMetas() returns (metas: seq<Meta>)
      requires wal.Valid()
      ensures metas == MetasOf(wal.view)
    {
      hide SegOk;
      metas := [];
      for i := 0 to |wal.files|
        invariant metas == MetasOf(wal.view)[..i]
      {
        var f := wal.files[i];
        metas := metas + [Meta(f.walNo, f.H())];
      }
    }

    /** `flush_blocking` */
    method FlushBlocking()
      requires Valid() && (isDirty ==> Last(wal.view).mapped)
      modifies this`isDirty, wal`view, Last(wal.contents)
      ensures Valid() && !isDirty && wal.Repr == old(wal.Repr)
      ensures SetOk(old(wal.view), wal.walSize)
      ensures wal.view == FlushIf(old(isDirty), old(wal.view), wal.walSize)
      ensures MetasOf(wal.view) == MetasOf(old(wal.view)) && Last(wal.view).mapped == old(Last(wal.view).mapped)
    {
      hide Durable, Linked, Flushed, LogOf, FileIs, Distinct;
      if !isDirty {
        return;
      }
      ghost var v := wal.view;
      FlushFacts(v, wal.walSize);
      FlushDurable(v, wal.walSize, true);
      wal.FlushActive();
      isDirty := false;
    }

    /** Roll over and publish when the active file has no space for the entry. */
    method MakeSpace(id: u64, bytes: seq<byte>)
      requires wal.Ready() && this !in wal.Repr && shared !in wal.Repr && PublishedButActive()
      requires Legal(wal.view, Append(id, bytes), wal.walSize)
      modifies wal.Repr, shared
      ensures wal.Ready() && PublishedButActive() && fresh(wal.Repr - old(wal.Repr))
      ensures SetOk(old(wal.view), wal.walSize) && 0 < |bytes| && id <= MAX_ID
      ensures Last(wal.view).mapped && IsNext(wal.view, id) && HasSpace(Last(wal.view).h, wal.walSize, |bytes|)
      ensures AppendedView(wal.view, id, bytes, wal.walSize) == Step(old(wal.view), Append(id, bytes), wal.walSize)
      ensures old(wal.contents) <= wal.contents
    {
      hide Linked, WalSet.RollOver, AppendedView, AppendTo, IsNext, FileIs, Distinct;
      hide LocalMetas, HasSpace, NumberedFrom;
      ghost var v := wal.view;
      AppendParts(v, id, bytes, wal.walSize);
      var space := wal.ActiveHasSpace(|bytes|);
      if !space {
        SharedNumbered();
        wal.RollOver();
        Publish(v[0].walNo);
      }
    }

    /** One entry of a batch. */
    method AppendEntry(id: u64, bytes: seq<byte>)
      requires wal.Ready() && this !in wal.Repr && shared !in wal.Repr && PublishedButActive()
      requires Legal(wal.view, Append(id, bytes), wal.walSize)
      modifies wal.Repr, shared
      ensures wal.Ready() && PublishedButActive() && fresh(wal.Repr - old(wal.Repr))
      ensures SetOk(old(wal.view), wal.walSize) && Last(wal.view).mapped
      ensures wal.view == Step(old(wal.view), Append(id, bytes), wal.walSize)
      ensures old(wal.contents) <= wal.contents
    {
      hide Linked, AppendedView, Step, IsNext, FileIs, Distinct, Legal, LocalMetas, HasSpace;
      MakeSpace(id, bytes);
      AppendedMetas(wal.view, id, bytes, wal.walSize);
      wal.AppendActive(id, bytes);
    }

    /** Entries are taken until the end of the batch or an oversized entry. */
    method AppendBatch(batch: seq<Entry>) returns (ok: bool)
      requires wal.Ready() && this !in wal.Repr && shared !in wal.Repr && PublishedButActive()
      requires LegalRun(wal.view, Appends(batch[..Accepted(batch, wal.walSize)]), wal.walSize)
      requires Last(wal.view).mapped
      modifies wal.Repr, shared
      ensures wal.Ready() && PublishedButActive() && fresh(wal.Repr - old(wal.Repr)) && Last(wal.view).mapped
      ensures ok <==> Accepted(batch, wal.walSize) == |batch|
      ensures SetOk(old(wal.view), wal.walSize)
      ensures wal.view == Run(old(wal.view), Appends(batch[..Accepted(batch, wal.walSize)]), wal.walSize)
      ensures old(wal.contents) <= wal.contents
    {
      hide Linked, Step, Legal, LegalRun, Run, FileIs, Distinct, LocalMetas, PublishedButActive;
      ghost var v := wal.view;
      ghost var n := Accepted(batch, wal.walSize);
      var i := 0;
      ok := true;
      RunNil(v, wal.walSize);
      assert batch[..0] == [] && Appends([]) == [];
      while i < |batch|
        invariant i <= n && wal.Ready() && PublishedButActive() && fresh(wal.Repr - old(wal.Repr))
        invariant this !in wal.Repr && shared !in wal.Repr && Last(wal.view).mapped && old(wal.contents) <= wal.contents
        invariant LegalRun(v, Appends(batch[..i]), wal.walSize)
        invariant wal.view == Run(v, Appends(batch[..i]), wal.walSize)
      {
        if |batch[i].1| > DataLenLimit(wal.walSize) {
          ok := false;
          break;
        }
        ghost var op := Append(batch[i].0, batch[i].1);
        assert Appends(batch[..i + 1]) == Appends(batch[..i]) + [op];
        PrefixLegal(v, Appends(batch[..n]), i + 1, wal.walSize);
        assert Appends(batch[..n])[..i + 1] == Appends(batch[..i + 1]);
        RunSnoc(v, Appends(batch[..i]), op, wal.walSize);
        AppendEntry(batch[i].0, batch[i].1);
        i := i + 1;
      }
    }

    /** Copy the values of the active file into the shared set. */
    method PublishActive()
      requires wal.Ready() && shared !in wal.Repr && PublishedButActive()
      modifies shared
      ensures Published()
    {
      hide SegOk, Distinct;
      var f := wal.files[wal.active.value];
      shared.CloneActiveFrom(Meta(f.walNo, f.H()));
    }

    /**
    `Action::Append`. The callback reports success only after the whole batch is in the files, and in
    `Immediate` mode (`is_dirty` false, see `Valid`) on disk, no matter how many files it spans.
    */
    method HandleAppend(batch: seq<Entry>) returns (ack: bool, callback: bool)
      requires Valid() && Last(wal.view).mapped && BatchLegal(wal.view, batch, wal.walSize)
      modifies this, wal.Repr, shared
      ensures Valid() && fresh(wal.Repr - old(wal.Repr)) && Last(wal.view).mapped
      ensures isDirty <==> !sync.Immediate?
      ensures ack <==> Accepted(batch, wal.walSize) == |batch|
      ensures callback == ack && meta == old(meta) && metaFile == old(metaFile)
      ensures SetOk(old(wal.view), wal.walSize)
      ensures wal.view == AppendOutcome(old(wal.view), batch, sync, wal.walSize)
      ensures LogOf(wal.view) == SpecRun(old(LogOf(wal.view)), Appends(batch[..Accepted(batch, wal.walSize)]))
      ensures 4096 <= SpaceLeft(Last(wal.view))
      ensures old(wal.contents) <= wal.contents
    {
      hide Linked, FlushIf, SealIfFull, LegalRun, Run, FileIs, Distinct, Durable, PublishedButActive, Published;
      hide Accepted, Appends, LocalMetas, MetasOf, SetOk, ValidWalSize;
      hide LogOf, SpecRun, SpaceLeft;
      ghost var v := wal.view;
      ack := TakeAndFlush(batch);
      AppendOutcomeExact(v, batch, sync, wal.walSize);
      callback := ack;
      RollEarly();
    }

    /** The batch is in the files and published, and in `Immediate` mode on disk. */
    method TakeAndFlush(batch: seq<Entry>) returns (ok: bool)
      requires Valid() && Last(wal.view).mapped && BatchLegal(wal.view, batch, wal.walSize)
      modifies this`isDirty, wal.Repr, shared
      ensures Valid() && fresh(wal.Repr - old(wal.Repr)) && Last(wal.view).mapped
      ensures isDirty <==> !sync.Immediate?
      ensures ok <==> Accepted(batch, wal.walSize) == |batch|
      ensures SetOk(old(wal.view), wal.walSize)
      ensures wal.view == TakenView(old(wal.view), batch, sync, wal.walSize)
      ensures old(wal.contents) <= wal.contents && Last(wal.view).walNo < U64_MAX
    {
      hide Linked, FlushIf, LegalRun, Run, FileIs, Distinct, Durable, PublishedButActive;
      hide Accepted, Appends, LocalMetas, MetasOf;
      ok := TakeBatch(batch);
      if sync.Immediate? {
        FlushBlocking();
      }
    }

    /** The batch is in the files and published; nothing is flushed. */
    method TakeBatch(batch: seq<Entry>) returns (ok: bool)
      requires Valid() && Last(wal.view).mapped && BatchLegal(wal.view, batch, wal.walSize)
      modifies this`isDirty, wal.Repr, shared
      ensures Valid() && fresh(wal.Repr - old(wal.Repr)) && Last(wal.view).mapped && isDirty
      ensures ok <==> Accepted(batch, wal.walSize) == |batch|
      ensures SetOk(old(wal.view), wal.walSize)
      ensures wal.view == Run(old(wal.view), Appends(batch[..Accepted(batch, wal.walSize)]), wal.walSize)
      ensures old(wal.contents) <= wal.contents
    {
      hide Linked, Step, Legal, LegalRun, Run, FileIs, Distinct, Durable, LocalMetas, MetasOf, Accepted, Appends;
      ghost var v := wal.view;
      BatchDurable(v, Appends(batch[..Accepted(batch, wal.walSize)]), wal.walSize, isDirty);
      ok := AppendBatch(batch);
      PublishActive();
      isDirty := true;
    }

    /** Roll over right away when little space is left. */
    method RollEarly()
      requires Valid() && Last(wal.view).mapped && Last(wal.view).walNo < U64_MAX
      modifies wal.Repr, shared
      ensures Valid() && fresh(wal.Repr - old(wal.Repr)) && Last(wal.view).mapped
      ensures SetOk(old(wal.view), wal.walSize) && wal.view == SealIfFull(old(wal.view), wal.walSize)
      ensures old(wal.contents) <= wal.contents
    {
      hide Linked, FileIs, Distinct, Durable, WalSet.RollOver, MetasOf, LocalMetas;
      ghost var v := wal.view;
      var left := wal.ActiveSpaceLeft();
      if left < ROLL_LIMIT {
        SealFacts(v, wal.walSize, isDirty);
        SetNumbered(v, wal.walSize);
        wal.RollOver();
        Publish(v[0].walNo);
      }
    }

    /** `Metadata::write` with a new frontier, for a purge. */
    method PersistFrontier(lastLog: Option<seq<byte>>)
      modifies this`meta, this`metaFile
      ensures meta == if lastLog.Some? then old(meta).(lastPurged := lastLog) else old(meta)
      ensures metaFile == if lastLog.Some? then meta else old(metaFile)
    {
      if lastLog.Some? {
        meta := meta.(lastPurged := lastLog);
        metaFile := meta;
      }
    }

    /** `shift_delete_logs` and, if every deletion succeeded, the publication. */
    method DeleteFiles(from: u64, until: u64, fail: Option<nat>) returns (ok: bool, ghost trace: seq<seq<Seg>>)
      requires Valid() && !isDirty
      modifies wal.Repr, shared
      ensures wal.Valid() && fresh(wal.Repr - old(wal.Repr)) && SetOk(old(wal.view), wal.walSize)
      ensures ok <==> !DeletionFails(old(wal.view), from, until, fail)
      ensures DataPaired(old(wal.view)) && (!ok ==> fail.Some? && fail.value < |old(wal.view)|)
      ensures ok ==> Valid() && ShiftDelete(old(wal.view), from, until, wal.walSize) == Ok(wal.view)
      ensures |old(wal.contents)| == |old(wal.view)| > 0
      ensures ok && Kept(old(wal.view), from, until, old(wal.contents)) != [] ==>
        wal.contents == Kept(old(wal.view), from, until, old(wal.contents))
      ensures ok && Kept(old(wal.view), from, until, old(wal.contents)) == [] ==>
        |wal.contents| == 1 && fresh(wal.contents[0])
      ensures from <= old(wal.view)[0].h.idFrom ==>
        trace == Suffixes(old(wal.view), if ok then FrontCount(old(wal.view), until) else fail.value)
      ensures !ok ==> wal.view == AfterFailure(old(wal.view), from, fail.value)
      ensures !ok ==> wal.active == Some(|old(wal.view)| - 1) && |wal.files| < |old(wal.view)|
      ensures !ok ==> shared.active == old(shared.active) && shared.files == old(shared.files)
    {
      hide Linked, FileIs, Distinct, Durable, LogOf, ShiftDelete, MetasOf, LocalMetas, FrontCount, BackCount, Suffixes;
      ghost var v := wal.view;
      RemoveStep(v, from, until, wal.walSize);
      SetNumbered(v, wal.walSize);
      ok, trace := wal.ShiftDeleteLogs(from, until, fail);
      if ok {
        Publish(v[0].walNo);
      }
    }

    /** Flush, persist the frontier, delete: everything of `Action::Remove` but the answer to a failure. */
    method RemoveFiles(from: u64, until: u64, lastLog: Option<seq<byte>>, fail: Option<nat>)
      returns (ok: bool, ghost v: seq<Seg>, ghost trace: seq<seq<Seg>>)
      requires Valid() && (isDirty ==> Last(wal.view).mapped)
      modifies this, wal.Repr, shared
      ensures wal.Valid() && fresh(wal.Repr - old(wal.Repr)) && !isDirty && SetOk(old(wal.view), wal.walSize)
      ensures v == FlushIf(old(isDirty), old(wal.view), wal.walSize) && v != [] && MetasOf(v) == MetasOf(old(wal.view))
      ensures ok <==> !DeletionFails(v, from, until, fail)
      ensures !ok ==> fail.Some? && fail.value < |v|
      ensures ok ==> Valid() && LogOf(wal.view) == Remaining(v, from, until)
      ensures ok ==> DataPaired(v) && ShiftDelete(v, from, until, wal.walSize) == Ok(wal.view)
      ensures |old(wal.contents)| == |v| == |old(wal.view)|
      ensures ok && Kept(v, from, until, old(wal.contents)) != [] ==>
        wal.contents == Kept(v, from, until, old(wal.contents))
      ensures ok && Kept(v, from, until, old(wal.contents)) == [] ==>
        |wal.contents| == 1 && fresh(wal.contents[0])
      ensures from <= v[0].h.idFrom ==> trace == Suffixes(v, if ok then FrontCount(v, until) else fail.value)
      ensures !ok ==> wal.view == AfterFailure(v, from, fail.value)
      ensures !ok ==> wal.active == Some(|v| - 1) && |wal.files| < |v|
      ensures !ok ==> shared.active == old(shared.active) && shared.files == old(shared.files)
      ensures meta == if lastLog.Some? then old(meta).(lastPurged := lastLog) else old(meta)
      ensures metaFile == if lastLog.Some? then meta else old(metaFile)
    {
      hide Linked, FileIs, Distinct, Durable, LogOf, FlushIf, ShiftDelete, Remaining, MetasOf, LocalMetas;
      hide DeletionFails, AfterFailure, Suffixes, FrontCount, Kept;
      FlushBlocking();
      v := wal.view;
      RemoveStep(v, from, until, wal.walSize);
      PersistFrontier(lastLog);
      ok, trace := DeleteFiles(from, until, fail);
    }

    /**
    `Action::Remove`: flush, persist the purge frontier, then delete; if deletion number `fail` fails,
    set the frontier back and report the error. `purge(u)` arrives as (0, u) with a new frontier,
    `truncate(k)` as (k, u64::MAX) without one. After a failure the writer's list no longer has the file
    it could not delete, the shared copy still has all of them, and the active index is out of range.
    */
    method HandleRemove(from: u64, until: u64, lastLog: Option<seq<byte>>, fail: Option<nat>)
      returns (ok: bool, ghost points: seq<(Metadata, seq<Seg>)>)
      requires Valid() && (isDirty ==> Last(wal.view).mapped)
      modifies this, wal.Repr, shared
      ensures wal.Valid() && fresh(wal.Repr - old(wal.Repr)) && !isDirty && SetOk(old(wal.view), wal.walSize)
      ensures ok <==> !DeletionFails(old(wal.view), from, until, fail)
      ensures ok ==> Valid() && LogOf(wal.view) == Remaining(old(wal.view), from, until)
      ensures ok ==>
        var v := FlushIf(old(isDirty), old(wal.view), wal.walSize);
        DataPaired(v) && ShiftDelete(v, from, until, wal.walSize) == Ok(wal.view)
      ensures |old(wal.contents)| == |old(wal.view)| > 0
      ensures ok && Kept(old(wal.view), from, until, old(wal.contents)) != [] ==>
        wal.contents == Kept(old(wal.view), from, until, old(wal.contents))
      ensures ok && Kept(old(wal.view), from, until, old(wal.contents)) == [] ==>
        |wal.contents| == 1 && fresh(wal.contents[0])
      ensures from <= old(wal.view)[0].h.idFrom ==>
        var v := FlushIf(old(isDirty), old(wal.view), wal.walSize);
        points == if ok then RemovePoints(old(metaFile), v, until, metaFile, wal.view)
                  else FailedPoints(old(metaFile), v, fail.value, Purged(old(meta), old(metaFile), lastLog), metaFile)
      ensures !ok ==> wal.view == AfterFailure(FlushIf(old(isDirty), old(wal.view), wal.walSize), from, fail.value)
      ensures !ok ==> wal.active == Some(|old(wal.view)| - 1) && |wal.files| < |old(wal.view)|
      ensures ok ==> meta == if lastLog.Some? then old(meta).(lastPurged := lastLog) else old(meta)
      ensures metaFile == if lastLog.Some? then meta else old(metaFile)
      ensures !ok ==> meta == old(meta) && shared.active == old(shared.active) && shared.files == old(shared.files)
    {
      hide Linked, FileIs, Distinct, Durable, LogOf, FlushIf, ShiftDelete, Remaining, MetasOf, LocalMetas;
      hide DeletionFails, AfterFailure, FrontCount, Kept, SetOk, Suffixes, Points, Published;
      var previous := meta.lastPurged;
      ghost var before := metaFile;
      ghost var v, trace;
      ok, v, trace := RemoveFiles(from, until, lastLog, fail);
      RemainingSame(old(wal.view), v, from, until, wal.walSize);
      SameDeletions(old(wal.view), v, from, until, fail, old(wal.contents));
      ghost var after := metaFile;
      if ok {
        points := Points(before, v, after, trace, (after, wal.view));
      } else {
        if lastLog.Some? {
          meta := meta.(lastPurged := previous);
          metaFile := meta;
        }
        points := Points(before, v, after, trace, (metaFile, v[fail.value..]));
      }
    }

    method HandleVote(value: seq<byte>)
      requires Valid() && (isDirty ==> Last(wal.view).mapped)
      modifies this, wal`view, Last(wal.contents)
      ensures Valid() && !isDirty && LogOf(wal.view) == old(LogOf(wal.view))
      ensures meta == metaFile == old(meta).(vote := Some(value))
    {
      hide Linked, FileIs, Distinct, Durable, LogOf, FlushIf;
      FlushBlocking();
      meta := meta.(vote := Some(value));
      metaFile := meta;
    }

    method HandleSync()
      requires Valid() && (isDirty ==> Last(wal.view).mapped)
      modifies this, wal`view, Last(wal.contents)
      ensures Valid() && !isDirty && LogOf(wal.view) == old(LogOf(wal.view))
      ensures meta == old(meta) && metaFile == old(metaFile)
    {
      hide Linked, FileIs, Distinct, Durable, LogOf, FlushIf;
      FlushBlocking();
    }

    /** The writer ends: header and data of the active file and the metadata are on disk. */
    method HandleShutdown()
      requires Valid() && Last(wal.view).mapped
      modifies this, wal`view, Last(wal.contents)
      ensures Valid() && !isDirty && metaFile == meta == old(meta)
      ensures SetOk(old(wal.view), wal.walSize) && wal.view == FlushIf(true, old(wal.view), wal.walSize)
    {
      hide Linked, FileIs, Distinct, Durable, LogOf, FlushIf;
      isDirty := true;
      DurableWeaken(wal.view, old(isDirty));
      FlushBlocking();
      metaFile := meta;
    }
  }

  ghost function Paired(m: Metadata, trace: seq<seq<Seg>>): (r: seq<(Metadata, seq<Seg>)>)
    ensures |r| == |trace| && forall i :: 0 <= i < |r| ==> r[i] == (m, trace[i])
  {
    seq(|trace|, i requires 0 <= i < |trace| => (m, trace[i]))
  }

  /** Metadata file and files at each moment of a purge: the frontier is persisted before the first deletion. */
  ghost function RemovePoints(before: Metadata, v: seq<Seg>, until: u64, after: Metadata, w: seq<Seg>)
    : seq<(Metadata, seq<Seg>)>
  {
    Points(before, v, after, Suffixes(v, FrontCount(v, until)), (after, w))
  }

  /** Before the removal, after each deletion, and at the end. */
  ghost function Points(before: Metadata, v: seq<Seg>, after: Metadata, trace: seq<seq<Seg>>, end: (Metadata, seq<Seg>))
    : seq<(Metadata, seq<Seg>)>
  {
    [(before, v)] + Paired(after, trace) + [end]
  }

  /** The metadata file while files are being deleted. */
  function Purged(meta: Metadata, metaFile: Metadata, lastLog: Option<seq<byte>>): Metadata {
    if lastLog.Some? then meta.(lastPurged := lastLog) else metaFile
  }

  /** The same when deletion number `j` fails and the frontier is set back. */
  ghost function FailedPoints(before: Metadata, v: seq<Seg>, j: nat, after: Metadata, reverted: Metadata)
    : seq<(Metadata, seq<Seg>)>
  {
    if |v| < j then [] else Points(before, v, after, Suffixes(v, j), (reverted, v[j..]))
  }

  /** Files went at one end, the others are still the same files. */
  /** What is left of the log after `shift_delete_logs`. */
  ghost function Remaining(v: seq<Seg>, from: u64, until: u64): Log
    requires v != []
  {
    if from <= v[0].h.idFrom then DropBelow(LogOf(v), until)
    else if Last(v).h.idUntil <= until then DropFrom(LogOf(v), from)
    else LogOf(v)
  }

  lemma RemainingSame(v: seq<Seg>, w: seq<Seg>, from: u64, until: u64, walSize: nat)
    requires v != [] && w != [] && LogOf(v) == LogOf(w) && MetasOf(v) == MetasOf(w)
    ensures Remaining(v, from, until) == Remaining(w, from, until) && v[0].h == w[0].h && |v| == |w|
  {
    hide LogOf;
    assert MetasOf(v)[0].h == v[0].h && MetasOf(w)[0].h == w[0].h;
    assert MetasOf(v)[|v| - 1].h == Last(v).h && MetasOf(w)[|v| - 1].h == Last(w).h;
  }

  /** Which files are deleted depends on the header values alone. */
  lemma {:induction false} SameFrontCount(v: seq<Seg>, w: seq<Seg>, until: nat)
    requires MetasOf(v) == MetasOf(w)
    ensures FrontCount(v, until) == FrontCount(w, until)
    decreases |v|
  {
    assert |MetasOf(v)| == |v| && |MetasOf(w)| == |w|;
    if v != [] {
      assert MetasOf(v)[0].h == v[0].h && MetasOf(w)[0].h == w[0].h;
      assert MetasOf(v[1..]) == MetasOf(v)[1..] && MetasOf(w[1..]) == MetasOf(w)[1..];
      SameFrontCount(v[1..], w[1..], until);
    }
  }

  lemma {:induction false} SameBackCount(v: seq<Seg>, w: seq<Seg>, from: nat)
    requires MetasOf(v) == MetasOf(w)
    ensures BackCount(v, from) == BackCount(w, from)
    decreases |v|
  {
    assert |MetasOf(v)| == |v| && |MetasOf(w)| == |w|;
    if v != [] {
      var n := |v| - 1;
      assert MetasOf(v)[n].h == v[n].h && MetasOf(w)[n].h == w[n].h;
      assert MetasOf(v[..n]) == MetasOf(v)[..n] && MetasOf(w[..n]) == MetasOf(w)[..n];
      SameBackCount(v[..n], w[..n], from);
    }
  }

  lemma SameCounts(v: seq<Seg>, w: seq<Seg>, from: u64, until: u64)
    requires v != [] && w != [] && MetasOf(v) == MetasOf(w)
    ensures |v| == |w| && v[0].h == w[0].h && Last(v).h == Last(w).h
    ensures FrontCount(v, until) == FrontCount(w, until) && BackCount(v, from) == BackCount(w, from)
  {
    SameFrontCount(v, w, until);
    SameBackCount(v, w, from);
    hide FrontCount, BackCount;
    assert |MetasOf(v)| == |v| && |MetasOf(w)| == |w|;
    assert MetasOf(v)[0].h == v[0].h && MetasOf(w)[0].h == w[0].h;
    assert MetasOf(v)[|v| - 1].h == Last(v).h && MetasOf(w)[|v| - 1].h == Last(w).h;
  }

  /** A removal depends on the headers only, so a flush before it makes no difference. */
  lemma SameDeletions<T>(v: seq<Seg>, w: seq<Seg>, from: u64, until: u64, fail: Option<nat>, cs: seq<T>)
    requires v != [] && w != [] && MetasOf(v) == MetasOf(w) && |cs| == |v|
    ensures |v| == |w| && DeletionFails(v, from, until, fail) == DeletionFails(w, from, until, fail)
    ensures Kept(v, from, until, cs) == Kept(w, from, until, cs)
  {
    hide FrontCount, BackCount;
    SameCounts(v, w, from, until);
  }

  lemma RemoveStep(v: seq<Seg>, from: u64, until: u64, walSize: u32)
    requires SetOk(v, walSize) && Durable(v, false)
    ensures DataPaired(v) && ShiftDelete(v, from, until, walSize).Ok?
    ensures var w := ShiftDelete(v, from, until, walSize).value;
      && SetOk(w, walSize) && Durable(w, false) && LogOf(w) == Remaining(v, from, until)
      && (v[0].walNo <= w[0].walNo || |w| == 1)
  {
    hide FileOk, PopFront, PopBack, CutFront, CutBack, Durable, Fresh, LogOf, Linked;
    SetPaired(v, walSize);
    if from <= v[0].h.idFrom {
      PurgeShape(v, until, walSize);
      PurgeDropsBelow(v, until, walSize);
      PurgeDurable(v, until, walSize, false);
      PurgeNumber(v, until, walSize);
      assert ShiftDelete(v, from, until, walSize) == ShiftDelete(v, 0, until, walSize);
    } else if Last(v).h.idUntil <= until {
      TruncateShape(v, from, walSize);
      TruncateDropsFrom(v, from, walSize);
      TruncateDurable(v, from, walSize, false);
      TruncateNumber(v, from, walSize);
      assert ShiftDelete(v, from, until, walSize) == ShiftDelete(v, from, U64_MAX, walSize);
    }
  }

  lemma BatchDurable(v: seq<Seg>, ops: seq<Op>, walSize: nat, dirty: bool)
    requires SetOk(v, walSize) && LegalRun(v, ops, walSize) && Durable(v, dirty)
    ensures Run(v, ops, walSize) != [] && Durable(Run(v, ops, walSize), true)
  {
    hide SetOk, LegalRun, Run, DirtyRun;
    RunDurable(v, ops, walSize, dirty);
  }

  /** What `Action::Append` makes of the files: the batch, in `Immediate` mode a flush, and an early roll-over. */
  ghost function AppendOutcome(v: seq<Seg>, batch: seq<Entry>, sync: LogSync, walSize: u32): seq<Seg>
    requires SetOk(v, walSize) && BatchLegal(v, batch, walSize)
  {
    SealIfFull(TakenView(v, batch, sync, walSize), walSize)
  }

  ghost function TakenView(v: seq<Seg>, batch: seq<Entry>, sync: LogSync, walSize: u32): (w: seq<Seg>)
    requires SetOk(v, walSize) && BatchLegal(v, batch, walSize)
    ensures SetOk(w, walSize) && Last(w).mapped && Last(w).walNo < U64_MAX
  {
    var ops := Appends(batch[..Accepted(batch, walSize)]);
    RunRefines(v, ops, walSize);
    FlushIf(sync.Immediate?, Run(v, ops, walSize), walSize)
  }

  ghost function FlushIf(flush: bool, v: seq<Seg>, walSize: u32): (w: seq<Seg>)
    requires SetOk(v, walSize) && (flush ==> Last(v).mapped)
    ensures SetOk(w, walSize) && Last(w).mapped == Last(v).mapped && Last(w).walNo == Last(v).walNo
    ensures LogOf(w) == LogOf(v) && MetasOf(w) == MetasOf(v)
    ensures !flush ==> w == v
  {
    if flush then FlushFacts(v, walSize); Step(v, Flush, walSize) else v
  }

  lemma FlushFacts(v: seq<Seg>, walSize: u32)
    requires SetOk(v, walSize) && Last(v).mapped
    ensures var w := Step(v, Flush, walSize);
      && SetOk(w, walSize) && Last(w).mapped && Last(w).walNo == Last(v).walNo
      && LogOf(w) == LogOf(v) && MetasOf(w) == MetasOf(v)
  {
    hide LogOf, FileOk, Linked;
    StepRefines(v, Flush, walSize);
  }

  ghost function SealIfFull(v: seq<Seg>, walSize: u32): seq<Seg>
    requires SetOk(v, walSize) && Last(v).mapped && Last(v).walNo < U64_MAX
  {
    if SpaceLeft(Last(v)) < ROLL_LIMIT then LittleSpaceIsUsed(v, walSize); Step(v, Seal, walSize) else v
  }

  /**
  The guard lets through every payload a fresh file has space for, and 16 lengths more.
  */
  lemma GuardExact(walSize: u32, len: nat)
    requires 50 <= walSize
    ensures len <= DataLenLimit(walSize) <==> HasSpace(NO_DATA, walSize, len) || walSize - 50 < len <= walSize - 34
    ensures HasSpace(NO_DATA, walSize, len) <==> len <= walSize - 50
  {
    PayloadBounds(NO_DATA, walSize, len);
  }

  /**
  What a batch does: exactly its accepted entries are appended to the log, and the active file has at
  least 4 KB left, because one with less is sealed right away, and no other.
  */
  lemma AppendOutcomeExact(v: seq<Seg>, batch: seq<Entry>, sync: LogSync, walSize: u32)
    requires SetOk(v, walSize) && BatchLegal(v, batch, walSize)
    ensures var t, w := TakenView(v, batch, sync, walSize), AppendOutcome(v, batch, sync, walSize);
      && SetOk(w, walSize) && LogOf(w) == SpecRun(LogOf(v), Appends(batch[..Accepted(batch, walSize)]))
      && 4096 <= SpaceLeft(Last(w))
      && (SpaceLeft(Last(t)) < 4096 <==> w != t) && (w != t ==> |w| == |t| + 1 && Last(w).h.dataStart.None?)
  {
    hide LogOf, Run, LegalRun, Linked, FileOk, NewBytes, Flushed, Accepted, Appends, SpecRun;
    var t := TakenView(v, batch, sync, walSize);
    RunRefines(v, Appends(batch[..Accepted(batch, walSize)]), walSize);
    if SpaceLeft(Last(t)) < ROLL_LIMIT {
      LittleSpaceIsUsed(t, walSize);
      StepRefines(t, Seal, walSize);
      SealedSpace(t, walSize);
    }
  }

  lemma SealedSpace(v: seq<Seg>, walSize: u32)
    requires SetOk(v, walSize) && Legal(v, Seal, walSize)
    ensures var w := Step(v, Seal, walSize);
      |w| == |v| + 1 && Last(w).h.dataStart.None? && SpaceLeft(Last(w)) == walSize - 32 && 8192 <= walSize
  {
    hide FileOk, HeaderBytes;
    assert SegOk(Last(v), walSize);
  }

  /** Every accepted entry may be appended, and the file numbers do not run out. */
  ghost predicate BatchLegal(v: seq<Seg>, batch: seq<Entry>, walSize: u32)
    requires SetOk(v, walSize)
  {
    var ops := Appends(batch[..Accepted(batch, walSize)]);
    && LegalRun(v, ops, walSize)
    && (RunRefines(v, ops, walSize); Last(Run(v, ops, walSize)).mapped)
    && (RunRefines(v, ops, walSize); Last(Run(v, ops, walSize)).walNo < U64_MAX)
  }

  lemma SealFacts(v: seq<Seg>, walSize: u32, dirty: bool)
    requires SetOk(v, walSize) && Last(v).mapped && Last(v).walNo < U64_MAX
    requires SpaceLeft(Last(v)) < ROLL_LIMIT && Durable(v, dirty)
    ensures Last(v).h.dataStart.Some? && SegOk(Last(v), walSize)
    ensures var w := WalSet.RollOver(v, walSize);
      Durable(w, dirty) && w[0].walNo == v[0].walNo && Last(w).mapped && w == SealIfFull(v, walSize)
  {
    hide FileOk, Durable, LogOf, Flushed, NewBytes;
    assert SegOk(Last(v), walSize);
    LittleSpaceIsUsed(v, walSize);
    StepDurable(v, Seal, walSize, dirty);
  }

  lemma LittleSpaceIsUsed(v: seq<Seg>, walSize: u32)
    requires SetOk(v, walSize) && SpaceLeft(Last(v)) < ROLL_LIMIT
    ensures Last(v).h.dataStart.Some?
  {
    hide Holds;
    assert SegOk(Last(v), walSize);
  }

  lemma RunNil(v: seq<Seg>, walSize: nat)
    requires SetOk(v, walSize)
    ensures LegalRun(v, [], walSize) && Run(v, [], walSize) == v
  {
  }

  lemma {:induction false} PrefixLegal(v: seq<Seg>, ops: seq<Op>, n: nat, walSize: nat)
    requires SetOk(v, walSize) && LegalRun(v, ops, walSize) && n <= |ops|
    ensures LegalRun(v, ops[..n], walSize)
    decreases |ops| - n
  {
    hide LegalRun, SetOk;
    if n == |ops| {
      assert ops[..n] == ops;
    } else {
      PrefixLegal(v, ops, n + 1, walSize);
      assert ops[..n + 1] == ops[..n] + [ops[n]];
      RunSnoc(v, ops[..n], ops[n], walSize);
    }
  }

  /** Appending is appending to the active file, after sealing a full one. */
  lemma AppendParts(v: seq<Seg>, id: u64, p: seq<byte>, walSize: u32)
    requires SetOk(v, walSize) && Legal(v, Append(id, p), walSize)
    ensures |Last(v).b| == walSize
    ensures HasSpace(Last(v).h, walSize, |p|) || Last(v).h.dataStart.Some?
    ensures HasSpace(Last(v).h, walSize, |p|) ==>
      AppendTo(v, id, p, walSize) == AppendedView(v, id, p, walSize)
    ensures !HasSpace(Last(v).h, walSize, |p|) ==>
      && SegOk(Last(v), walSize)
      && var w := WalSet.RollOver(v, walSize);
      && SetOk(w, walSize) && IsNext(w, id) && HasSpace(Last(w).h, walSize, |p|)
      && Last(w).mapped && w[0].walNo == v[0].walNo
      && AppendTo(v, id, p, walSize) == AppendedView(w, id, p, walSize)
  {
    hide FileOk, Appended, LogOf, Flushed, NewBytes;
    assert SegOk(Last(v), walSize);
    AppendExtendsLog(v, id, p, walSize);
    if !HasSpace(Last(v).h, walSize, |p|) {
      RollOverKeepsLog(v, walSize);
    }
  }

  lemma AppendedMetas(v: seq<Seg>, id: u64, p: seq<byte>, walSize: u32)
    requires SetOk(v, walSize) && IsNext(v, id) && id <= MAX_ID
    requires 0 < |p| && HasSpace(Last(v).h, walSize, |p|)
    ensures var w := AppendedView(v, id, p, walSize);
      && |w| == |v| && (forall i :: 0 <= i < |v| - 1 ==> w[i] == v[i])
      && Last(w).walNo == Last(v).walNo && Last(w).mapped == Last(v).mapped
  {
  }
}
