/**
Engines and histories: what the methods of an engine do to its history is what `ExternalRuns` says of
requests, and a snapshot of one engine, installed into another and followed by the tail of the log,
gives the database of a full replay.
*/
module ExternalReplicas {
  import opened Base
  import opened ExternalDb
  import opened ExternalHistory
  import opened ExternalReload
  import opened ExternalSpec
  import opened ExternalEngine
  import opened ExternalRuns

  /** A snapshot of history `g` with its evidence, as `Snapshot` returns it. */
  ghost predicate Honest(env: Env, cfg: Config, app: App, file: SnapshotFile, ev: Evidence, g: History) {
    && Good(env, cfg, app, g) && file.db == DbOf(env, cfg, app, g, file.db.meta.snapshotId)
    && FileCheck(env, file, ev).Ok?
  }

  /** Such a snapshot is refused if and only if it is stale. */
  lemma HonestPreflight(env: Env, cfg: Config, app: App, h: History, live: Stored, file: SnapshotFile, ev: Evidence,
                        g: History)
    requires Honest(env, cfg, app, file, ev, g) && Good(env, cfg, app, h)
    requires live == StateOf(env, cfg, app, h, live.snapshotId)
    ensures Preflight(env, live, file, ev).None? <==>
            Stale(Checkpoint(env, cfg, app, h), Checkpoint(env, cfg, app, g)).None?
  {
    HistoryValidates(env, cfg, app, g, file.db.meta.snapshotId);
    StateHasConfig(env, cfg, app, g, file.db.meta.snapshotId);
    StateHasConfig(env, cfg, app, h, live.snapshotId);
    SameCheckpoint(env, cfg, app, g, file.db.meta.snapshotId);
    SameCheckpoint(env, cfg, app, h, live.snapshotId);
    hide LoadState, ReceiptsValid, DbOf, Good, StateOf, Stale, Checkpoint;
  }

  lemma SameCheckpoint(env: Env, cfg: Config, app: App, h: History, id: Option<string>)
    ensures StateOf(env, cfg, app, h, id).lastApplied == Checkpoint(env, cfg, app, h)
  {
  }

  /** A call to the engine does to its history what `Handle` says. */
  method SubmitTo(b: StateMachine, e: Entry, fault: Fault, reconcileFails: bool) returns (r: Outcome)
    requires b.Valid()
    modifies b
    ensures b.history == Handle(b.env, b.cfg, b.app, old(b.history), Submit(Call(e, fault)))
    ensures b.DbValid() && (b.Valid() <==> !reconcileFails)
  {
    r := b.Apply(e, fault, reconcileFails);
  }

  /**
  And so does the installation of a snapshot of `g`, if it gets through; if writing the marker fails,
  nothing happens, and a failure after that stops the engine.
  */
  method InstallInto(b: StateMachine, file: SnapshotFile, ev: Evidence, fault: RestoreFault, ghost g: History)
    returns (r: Result<Evidence, Error>)
    requires b.Valid() && Honest(b.env, b.cfg, b.app, file, ev, g)
    modifies b
    ensures fault.NoRestoreFault? ==> b.Valid() && b.history == Handle(b.env, b.cfg, b.app, old(b.history), Install(g))
    ensures fault.NoRestoreFault? ==> (r.Ok? <==> Stale(Checkpoint(b.env, b.cfg, b.app, old(b.history)),
                                                        Checkpoint(b.env, b.cfg, b.app, g)).None?)
    ensures fault.NoRestoreFault? && r.Ok? ==> b.history == g && b.db == file.db
    ensures fault.MarkerFails? ==> b.Valid() && b.history == old(b.history) && r.Err?
    ensures !b.Valid() ==> b.poisoned && r.Err?
  {
    HonestPreflight(b.env, b.cfg, b.app, b.history, b.state, file, ev, g);
    hide FileCheck, DbOf, Good, StateOf, Stale, Checkpoint, Preflight, LoadState;
    r := b.Restore(file, ev, fault, g);
  }

  /** A snapshot that is ahead of a machine on the same log is not stale. */
  lemma AheadIsFresh(env: Env, cfg: Config, app: App, h: History, g: History)
    requires ValidHistory(env, cfg, app, h) && ValidHistory(env, cfg, app, g) && h <= g
    ensures Stale(Checkpoint(env, cfg, app, h), Checkpoint(env, cfg, app, g)).None?
  {
    hide ValidHistory, Stale, RowAt, Floor;
    NotBehind(env, cfg, app, h, g, StateOf(env, cfg, app, h, None), StateOf(env, cfg, app, g, None));
    assert |h| == |g| ==> h == g;
  }

  /**
  Snapshot plus tail equals full replay. Engine `a` is at some point of a log, builds a snapshot, engine
  `b`, at an earlier point of the same log, installs it and applies the tail: `b` then has the
  application, the receipts and the checkpoint of the whole log. The database of every engine that
  applied the log itself is the same but for the snapshot id.
  */
  method SnapshotThenTail(a: StateMachine, b: StateMachine, id: string, tail: seq<Entry>,
                          pageSize: nat, bytes: nat, digest: Digest)
    requires a != b && a.Valid() && b.Valid() && a.env == b.env && a.cfg == b.cfg && a.app == b.app
    requires b.history <= a.history && ValidHistory(a.env, a.cfg, a.app, a.history + tail)
    modifies a, b
    ensures a.Valid() && b.Valid() && a.history == old(a.history) && b.history == old(a.history) + tail
    ensures b.db == DbOf(b.env, b.cfg, b.app, b.history, Some(id))
    ensures forall other :: SameButId(b.db, DbOf(b.env, b.cfg, b.app, b.history, other))
  {
    hide FileCheck, DbOf, Good, StateOf, Stale, Checkpoint, LoadState, ValidHistory, SameButId;
    ghost var g := a.history;
    var built := a.Snapshot(id, NoFault, false, pageSize, bytes, digest);
    GoodIsValid(b.env, b.cfg, b.app, b.history);
    GoodIsValid(a.env, a.cfg, a.app, g);
    AheadIsFresh(b.env, b.cfg, b.app, b.history, g);
    IdOf(a.env, a.cfg, a.app, g, Some(id));
    var _ := InstallInto(b, built.value.0, built.value.1, NoRestoreFault, g);
    ApplyTail(b, tail);
    GoodIsValid(b.env, b.cfg, b.app, b.history);
    forall other ensures SameButId(b.db, DbOf(b.env, b.cfg, b.app, b.history, other)) {
      OnlyIdDiffers(b.env, b.cfg, b.app, b.history, Some(id), other);
    }
  }

  /** Entries of one log, applied one after the other to an engine that is where they begin. */
  method ApplyTail(b: StateMachine, tail: seq<Entry>)
    requires b.Valid() && ValidHistory(b.env, b.cfg, b.app, b.history + tail)
    modifies b
    ensures b.Valid() && b.history == old(b.history) + tail && b.db.meta.snapshotId == old(b.db.meta.snapshotId)
    ensures b.db == DbOf(b.env, b.cfg, b.app, b.history, b.db.meta.snapshotId)
  {
    hide DbOf, StateOf, AfterApply, ValidHistory;
    ghost var g := b.history;
    for i := 0 to |tail|
      invariant b.Valid() && b.history == g + tail[..i] && b.db.meta.snapshotId == old(b.db.meta.snapshotId)
    {
      ghost var h := g + tail;
      NextEntry(b.env, b.cfg, b.app, h, |g| + i);
      assert h[..|g| + i] == b.history && h[|g| + i] == tail[i];
      assert g + tail[..i + 1] == b.history + [tail[i]];
      var _ := b.Apply(tail[i], NoFault, false);
    }
    assert tail[..|tail|] == tail;
  }

  predicate SameButId(x: Db, y: Db) {
    x == y.(meta := y.meta.(snapshotId := x.meta.snapshotId))
  }

  lemma OnlyIdDiffers(env: Env, cfg: Config, app: App, h: History, id: Option<string>, other: Option<string>)
    requires ValidHistory(env, cfg, app, h)
    ensures SameButId(DbOf(env, cfg, app, h, id), DbOf(env, cfg, app, h, other))
  {
    NewId(env, cfg, app, h, other, other, id);
    DbFields(env, cfg, app, h, id);
    hide DbOf;
  }

  lemma IdOf(env: Env, cfg: Config, app: App, h: History, id: Option<string>)
    requires ValidHistory(env, cfg, app, h)
    ensures DbOf(env, cfg, app, h, id).meta.snapshotId == id
  {
    DbFields(env, cfg, app, h, id);
  }

  lemma GoodIsValid(env: Env, cfg: Config, app: App, h: History)
    requires Good(env, cfg, app, h)
    ensures ValidHistory(env, cfg, app, h)
  {
  }
}
