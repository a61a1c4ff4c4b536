/**
The writer of the external state machine: the database and the memory it updates in place, request
by request. Where SQLite or the file system may fail is a parameter of the request. The ghost
history says which entries took effect; every method is measured against it.
*/
module ExternalEngine {
  import opened Base
  import opened ExternalDb
  import opened ExternalHistory
  import opened ExternalReload
  import opened ExternalSpec
  import opened OrderedKeys

  const SNAPSHOT_FORMAT := "sqlite3-online-backup/page-image-v1"

  datatype Evidence = Evidence(
    formatVersion: nat, snapshotFormat: string, snapshotId: string, config: Config,
    checkpoint: Option<Applied>, receiptFloor: Option<u64>, pageSize: nat, bytes: nat, digest: Digest)

  /** A snapshot file: its image, what the file system says of it, and what `quick_check` says. */
  datatype SnapshotFile = SnapshotFile(db: Db, regular: bool, intact: bool, pageSize: nat, bytes: nat, digest: Digest)

  /** `snapshot_evidence` */
  function EvidenceOf(s: Stored, id: string, pageSize: nat, bytes: nat, digest: Digest): Evidence {
    Evidence(FORMAT_VERSION, SNAPSHOT_FORMAT, id, s.config, s.lastApplied, s.receiptFloor, pageSize, bytes, digest)
  }

  /** `validate_receipts`: the ordered query has one result, so `for every result` is `for the result`. */
  ghost predicate ReceiptsValid(env: Env, db: Db, s: Stored) {
    forall keys :: Ordered(keys, db.receipts) ==> ReceiptsOk(env, db, s, keys)
  }

  method ValidateReceipts(env: Env, db: Db, s: Stored) returns (ok: bool)
    ensures ok <==> ReceiptsValid(env, db, s)
  {
    var keys := SelectOrdered(db.receipts);
    ok := ReceiptsOk(env, db, s, keys);
    hide ReceiptsOk;
    forall other | Ordered(other, db.receipts)
      ensures other == keys
    {
      OneListing(other, keys);
    }
  }

  /** What reading a snapshot file must find, in the order of the checks. */
  ghost function FileCheck(env: Env, file: SnapshotFile, ev: Evidence): Result<Stored, Error> {
    if ev.formatVersion != FORMAT_VERSION then Err(UnsupportedFormat)
    else if ev.snapshotFormat != SNAPSHOT_FORMAT || !file.regular || file.bytes != ev.bytes || file.digest != ev.digest
            || !file.intact || file.pageSize != ev.pageSize then Err(SnapshotMismatch)
    else match LoadState(env, file.db)
      case Err(error) => Err(error)
      case Ok(s) =>
        if !ReceiptsValid(env, file.db, s) then Err(InvalidMetadata)
        else if s.snapshotId != Some(ev.snapshotId)
                || EvidenceOf(s, ev.snapshotId, ev.pageSize, ev.bytes, ev.digest) != ev then Err(SnapshotMismatch)
        else Ok(s)
  }

  /** `validate_snapshot_file` */
  method ValidateFile(env: Env, file: SnapshotFile, ev: Evidence) returns (r: Result<Stored, Error>)
    ensures r == FileCheck(env, file, ev)
  {
    hide ReceiptsValid;
    if ev.formatVersion != FORMAT_VERSION {
      return Err(UnsupportedFormat);
    }
    if ev.snapshotFormat != SNAPSHOT_FORMAT || !file.regular || file.bytes != ev.bytes {
      return Err(SnapshotMismatch);
    }
    if file.digest != ev.digest || !file.intact || file.pageSize != ev.pageSize {
      return Err(SnapshotMismatch);
    }
    var loaded := LoadState(env, file.db);
    if loaded.Err? {
      return loaded;
    }
    var valid := ValidateReceipts(env, file.db, loaded.value);
    if !valid {
      return Err(InvalidMetadata);
    }
    if loaded.value.snapshotId != Some(ev.snapshotId) {
      return Err(SnapshotMismatch);
    }
    if EvidenceOf(loaded.value, ev.snapshotId, ev.pageSize, ev.bytes, ev.digest) != ev {
      return Err(SnapshotMismatch);
    }
    r := loaded;
  }

  /** `validate_snapshot_compatibility` */
  function Compatible(live: Stored, ev: Evidence): Option<Error> {
    if ev.formatVersion != FORMAT_VERSION then Some(UnsupportedFormat)
    else if ev.snapshotFormat != SNAPSHOT_FORMAT || ev.config != live.config then Some(SnapshotMismatch)
    else None
  }

  /** `reject_stale_snapshot` */
  function Stale(live: Option<Applied>, incoming: Option<Applied>): Option<Error> {
    if live.None? then None
    else if incoming.None? then Some(StaleSnapshot)
    else if incoming.value.commit.sequence < live.value.commit.sequence then Some(StaleSnapshot)
    else if incoming.value.commit.sequence == live.value.commit.sequence && incoming != live then
      Some(CommitConflict(incoming.value.commit.sequence))
    else None
  }

  /** The checks before the live database is touched. */
  ghost function Preflight(env: Env, live: Stored, file: SnapshotFile, ev: Evidence): Option<Error> {
    var incompatible, stale := Compatible(live, ev), Stale(live.lastApplied, ev.checkpoint);
    if incompatible.Some? then incompatible
    else if stale.Some? then stale
    else match FileCheck(env, file, ev)
      case Err(error) => Some(error)
      case Ok(_) => None
  }

  /** `incoming` is not behind `live`, and not beside it: at the same sequence it is the same record. */
  predicate AtLeast(live: Option<Applied>, incoming: Option<Applied>) {
    live.Some? ==>
      && incoming.Some?
      && live.value.commit.sequence <= incoming.value.commit.sequence
      && (live.value.commit.sequence == incoming.value.commit.sequence ==> live == incoming)
  }

  /**
  A restore goes ahead with state `s` if and only if the file is accepted with it, it has the
  configuration of the live engine, field by field, and its checkpoint is not stale.
  */
  lemma PreflightExact(env: Env, live: Stored, file: SnapshotFile, ev: Evidence, s: Stored)
    ensures Preflight(env, live, file, ev).None? && LoadState(env, file.db) == Ok(s) <==>
      && file.regular && file.intact
      && ev == EvidenceOf(s, ev.snapshotId, file.pageSize, file.bytes, file.digest)
      && s.snapshotId == Some(ev.snapshotId) && ValidConfig(s.config)
      && Encodes(env, file.db.meta, s) && ReceiptsValid(env, file.db, s)
      && s.config == live.config && AtLeast(live.lastApplied, s.lastApplied)
  {
    FileCheckExact(env, file, ev, s);
    hide LoadState, ReceiptsValid, Encodes, ValidConfig;
  }

  /** A snapshot of another application, codec, retention or size limit is never restored. */
  lemma OtherConfigRefused(env: Env, live: Stored, file: SnapshotFile, ev: Evidence)
    ensures Preflight(env, live, file, ev).None? ==>
      LoadState(env, file.db).Ok? && LoadState(env, file.db).value.config == live.config == ev.config
    ensures ev.formatVersion == FORMAT_VERSION && ev.snapshotFormat == SNAPSHOT_FORMAT && ev.config != live.config ==>
      Preflight(env, live, file, ev) == Some(SnapshotMismatch)
  {
    hide LoadState, ReceiptsValid;
  }

  /** Where a restore may fail: writing the marker, copying the image, writing the marker back. */
  datatype RestoreFault = NoRestoreFault | MarkerFails | CopyBreaks(torn: Db) | ActiveMarkerFails

  /** Every database of a history passes validation, and loads the memory of that history. */
  lemma HistoryValidates(env: Env, cfg: Config, app: App, h: History, id: Option<string>)
    requires Good(env, cfg, app, h)
    ensures LoadState(env, DbOf(env, cfg, app, h, id)) == Ok(StateOf(env, cfg, app, h, id))
    ensures ReceiptsValid(env, DbOf(env, cfg, app, h, id), StateOf(env, cfg, app, h, id))
  {
    LoadsMemory(env, cfg, app, h, id);
    hide Good, LoadState, ReceiptsOk, Window, Ordered, StateOf, MetaOf, Replay;
    forall keys | Ordered(keys, DbOf(env, cfg, app, h, id).receipts)
      ensures ReceiptsOk(env, DbOf(env, cfg, app, h, id), StateOf(env, cfg, app, h, id), keys)
    {
      ReceiptsAccepted(env, cfg, app, h, id, keys);
    }
  }

  /** A file that holds the database of a history passes against the evidence of that history. */
  lemma BuiltFilePasses(env: Env, cfg: Config, app: App, h: History, id: string, file: SnapshotFile)
    requires Good(env, cfg, app, h) && file.regular && file.intact
    requires file.db == DbOf(env, cfg, app, h, Some(id))
    ensures var s := StateOf(env, cfg, app, h, Some(id));
            FileCheck(env, file, EvidenceOf(s, id, file.pageSize, file.bytes, file.digest)) == Ok(s)
  {
    HistoryValidates(env, cfg, app, h, Some(id));
    hide LoadState, ReceiptsValid, DbOf, ValidHistory, AppliedAt;
  }

  /**
  A file is accepted with state `s` if and only if the evidence is the evidence of `s` and of this
  very file, and the image encodes `s` with valid receipts under the id of the evidence.
  */
  lemma FileCheckExact(env: Env, file: SnapshotFile, ev: Evidence, s: Stored)
    ensures FileCheck(env, file, ev) == Ok(s) <==>
            && file.regular && file.intact
            && ev == EvidenceOf(s, ev.snapshotId, file.pageSize, file.bytes, file.digest)
            && s.snapshotId == Some(ev.snapshotId) && ValidConfig(s.config)
            && Encodes(env, file.db.meta, s) && ReceiptsValid(env, file.db, s)
  {
    LoadStateExact(env, file.db, s);
    hide LoadState, ReceiptsValid, Encodes, ValidConfig;
  }

  /** A database without entries is the one `create_metadata_tables` writes. */
  lemma CreatedIsEmpty(env: Env, cfg: Config, app: App)
    requires ValidHistory(env, cfg, app, [])
    ensures Created(app, cfg) == DbOf(env, cfg, app, [], None)
  {
    hide EncodeU64;
    NoEntriesNoReceipts(env, cfg, app);
    assert Window(env, cfg, app, []) == map[];
  }

  /** No fault hits a transaction. */
  predicate Commits(fault: Fault) {
    fault.NoFault? || fault.ReadFails?
  }

  /** The last applied sequence in memory is the last one of the history. */
  lemma LastOfState(env: Env, cfg: Config, app: App, h: History, id: Option<string>)
    requires Good(env, cfg, app, h)
    ensures var last := StateOf(env, cfg, app, h, id).lastApplied;
      last.Some? == (h != []) && (h != [] ==> last.value.commit.sequence == cfg.initialSequence + |h| - 1)
  {
    if h != [] {
      LastSequence(env, cfg, app, h);
    }
  }

  class StateMachine {
    const env: Env
    var db: Db
    var state: Stored
    var poisoned: bool
    /** What the machine was configured with, the application it started from, and what took effect. */
    ghost const cfg: Config
    ghost const app: App
    ghost var history: History

    /** The database is the one of the history: all of it, whatever the snapshot id. */
    ghost predicate DbValid()
      reads this
    {
      Good(env, cfg, app, history) && db == DbOf(env, cfg, app, history, db.meta.snapshotId)
    }

    ghost predicate Valid()
      reads this
    {
      && !poisoned && DbValid()
      && state == StateOf(env, cfg, app, history, state.snapshotId)
    }

    /** Memory and database agree on the snapshot id, so that a reload changes nothing. */
    predicate Agrees()
      reads this
    {
      state.snapshotId == db.meta.snapshotId
    }

    /** A first open on an empty directory. */
    constructor Create(e: Env, c: Config, a: App)
      requires e.Lawful() && ValidConfig(c)
      ensures Valid() && Agrees() && history == [] && env == e && cfg == c && app == a
    {
      env, cfg, app := e, c, a;
      db := Created(a, c);
      state := Stored(c, None, None, None);
      poisoned := false;
      history := [];
      new;
      CreatedIsEmpty(env, cfg, app);
    }

    /** A reopen: the memory of the previous session comes back from its database. */
    constructor Reopen(e: Env, ghost c: Config, ghost a: App, ghost h: History, d: Db)
      requires Good(e, c, a, h) && d == DbOf(e, c, a, h, d.meta.snapshotId)
      ensures Valid() && Agrees() && history == h && db == d && env == e && cfg == c && app == a
    {
      HistoryValidates(e, c, a, h, d.meta.snapshotId);
      env, cfg, app := e, c, a;
      db := d;
      state := LoadState(e, d).value;
      poisoned := false;
      history := h;
    }

    /** `apply_operation` and `apply_advance`, up to the reconciliation. */
    method Execute(e: Entry, fault: Fault) returns (r: Outcome)
      requires Valid()
      modifies this`db, this`state, this`history
      ensures (history, r) == AfterApply(env, cfg, app, old(history), e, fault)
      ensures DbValid() && db.meta.snapshotId == old(db.meta.snapshotId)
      ensures r.Rejected? ==> state == old(state)
      ensures !r.Rejected? ==> state == StateOf(env, cfg, app, history, old(state.snapshotId))
    {
      hide DbOf, StateOf, Classify, Replay, LoadReceipt, OutputAt, Verdicts, Good, EffectOf;
      var kind := KindOfEntry(e);
      var codec := CodecName(state.config, kind);
      ClassifyExact(env, cfg, app, history, db.meta.snapshotId, state.snapshotId, e);
      StateHasConfig(env, cfg, app, history, state.snapshotId);
      LastOfState(env, cfg, app, history, state.snapshotId);
      if fault.ReadFails? && state.lastApplied.Some? && e.commit.sequence <= state.lastApplied.value.commit.sequence {
        return Rejected(Engine(Sqlite));
      }
      var found := Classify(env, db, state, e.commit, kind, codec);
      if found.Err? {
        return Rejected(Engine(found.error));
      }
      if found.value.Retry? {
        var output := if e.op.None? then None else env.decode(found.value.receipt.receipt);
        return if e.op.Some? && output.None? then Rejected(Engine(Serialization)) else Recovered(output);
      }
      r := ExecuteNew(e, fault);
    }

    /** The transaction of an entry that is not a retry. */
    method ExecuteNew(e: Entry, fault: Fault) returns (r: Outcome)
      requires Valid() && Verdicts(env, cfg, app, history, e) == Fresh
      requires fault.ReadFails? ==> !LooksUp(cfg, history, e)
      modifies this`db, this`state, this`history
      ensures (history, r) == AfterApply(env, cfg, app, old(history), e, fault)
      ensures DbValid() && db.meta.snapshotId == old(db.meta.snapshotId)
      ensures r.Rejected? ==> state == old(state)
      ensures !r.Rejected? ==> state == StateOf(env, cfg, app, history, old(state.snapshotId))
    {
      hide DbOf, StateOf, Replay, OutputAt, EffectOf, ValidHistory;
      DbFields(env, cfg, app, history, db.meta.snapshotId);
      StateHasConfig(env, cfg, app, history, state.snapshotId);
      if fault.BeginFails? {
        return Rejected(Engine(Sqlite));
      }
      var effect := RunEntry(e);
      if effect.Err? {
        return Rejected(effect.error);
      }
      r := CommitEntry(e, effect.value.app, effect.value.receipt, effect.value.output, fault);
    }

    /** The operation inside its transaction, and the encoding of its receipt. */
    method RunEntry(e: Entry) returns (r: Result<Effect, ApplyError>)
      ensures r == EffectOf(env, state.config, db.app, e)
    {
      if e.op.None? {
        return Ok(Effect(db.app, UNIT_RECEIPT, None));
      }
      var result := env.run(e.op.value, db.app);
      if result.Err? {
        return Err(Failed(result.error));
      }
      var receipt := env.encode(result.value.1);
      if receipt.None? {
        return Err(Engine(Serialization));
      }
      if state.config.maxReceiptBytes < |receipt.value| {
        return Err(Engine(ReceiptTooLarge));
      }
      r := Ok(Effect(result.value.0, receipt.value, Some(result.value.1)));
    }

    /** `persist_new_commit`, COMMIT and the update of the memory. */
    method CommitEntry(e: Entry, next: App, receipt: seq<byte>, output: Option<Output>, fault: Fault)
      returns (r: Outcome)
      requires Valid() && !fault.BeginFails? && e.commit.sequence == cfg.initialSequence + |history|
      requires EffectOf(env, cfg, Replay(env, cfg, app, history), e) == Ok(Effect(next, receipt, output))
      modifies this`db, this`state, this`history
      ensures Commits(fault) ==> r == AppliedNow(output)
      ensures !Commits(fault) ==> r == Rejected(Engine(Sqlite)) && state == old(state)
      ensures history == if Commits(fault) || fault.CommitTook? then old(history) + [e] else old(history)
      ensures DbValid() && db.meta.snapshotId == old(db.meta.snapshotId)
      ensures Commits(fault) ==> state == StateOf(env, cfg, app, history, old(state.snapshotId))
    {
      StateHasConfig(env, cfg, app, history, state.snapshotId);
      PersistExtends(env, cfg, app, history, e, db.meta.snapshotId, state);
      PersistState(env, cfg, app, history, e, state.snapshotId);
      DbFields(env, cfg, app, history + [e], db.meta.snapshotId);
      hide DbOf, StateOf, Good, Replay, EffectOf, Persist, Advanced;
      var kind := KindOfEntry(e);
      var transaction := Persist(env, db.(app := next), state, e.commit, kind, CodecName(state.config, kind), receipt);
      if fault.PersistFails? || fault.CommitLost? {
        return Rejected(Engine(Sqlite));
      }
      db := transaction;
      history := history + [e];
      if fault.CommitTook? {
        return Rejected(Engine(Sqlite));
      }
      state := Advanced(env, state, e.commit, kind, receipt);
      r := AppliedNow(output);
    }

    /** `reconcile_after_apply`: after a failed call the memory is read back from the database. */
    method Reconcile(failed: bool, fails: bool) returns (ok: bool)
      requires DbValid()
      requires !failed ==> state == StateOf(env, cfg, app, history, state.snapshotId)
      modifies this`state
      ensures ok <==> !fails
      ensures ok && failed ==> state == StateOf(env, cfg, app, history, db.meta.snapshotId)
      ensures ok && !failed ==> state == old(state)
    {
      HistoryValidates(env, cfg, app, history, db.meta.snapshotId);
      hide DbOf, StateOf, Good, LoadState, ReceiptsValid;
      ok := !fails;
      if failed && ok {
        var loaded := LoadState(env, db);
        ok := loaded.Ok?;
        if ok {
          ok := ValidateReceipts(env, db, loaded.value);
          if ok {
            state := loaded.value;
          }
        }
      }
    }

    /**
    One `apply_committed` or `advance_committed`. Whatever fails, the database is the one of the
    history the reference gives; unless the reconciliation itself fails, so is the memory, and the
    answer is the reference's. The application changes by what the operation does to it, in exactly the
    calls whose entry took effect.
    */
    method Apply(e: Entry, fault: Fault, reconcileFails: bool) returns (r: Outcome)
      requires Valid()
      modifies this
      ensures history == AfterApply(env, cfg, app, old(history), e, fault).0
      ensures DbValid() && db.meta.snapshotId == old(db.meta.snapshotId)
      ensures poisoned == reconcileFails
      ensures !poisoned ==> Valid() && r == AfterApply(env, cfg, app, old(history), e, fault).1
      ensures !poisoned && (r.Rejected? || old(Agrees())) ==> Agrees()
      ensures poisoned ==> r == Rejected(Engine(WriterPoisoned))
      ensures r.AppliedNow? && e.op.Some? ==>
        var ran := env.run(e.op.value, old(db.app));
        ran.Ok? && db.app == ran.value.0 && r.output == Some(ran.value.1)
      ensures history != old(history) && e.op.Some? ==>
        env.run(e.op.value, old(db.app)).Ok? && db.app == env.run(e.op.value, old(db.app)).value.0
      ensures history == old(history) || e.op.None? ==> db.app == old(db.app)
      ensures r.AppliedNow? ==> history == old(history) + [e]
      ensures e.commit.sequence == cfg.initialSequence + |old(history)| && fault.NoFault? && !poisoned ==>
        && (r.AppliedNow? <==> Accepts(env, cfg, old(db.app), e))
        && (!r.AppliedNow? ==> r == Rejected(Refusal(env, old(db.app), e)))
    {
      hide DbOf, AfterApply, ValidHistory, Accepts, Refusal;
      ApplyEffects(env, cfg, app, history, e, fault, db.meta.snapshotId);
      r := Execute(e, fault);
      hide Good;
      StateHasConfig(env, cfg, app, history, db.meta.snapshotId);
      StateHasConfig(env, cfg, app, history, old(state.snapshotId));
      hide StateOf;
      var ok := Reconcile(r.Rejected?, reconcileFails);
      if !ok {
        poisoned := true;
        r := Rejected(Engine(WriterPoisoned));
      }
    }

    /**
    A snapshot request. The file it builds passes validation against its evidence, and carries the
    history of this moment. Memory and database still agree on the id unless the UPDATE reported an
    error and took effect.
    */
    method Snapshot(id: string, fault: Fault, backupFails: bool, pageSize: nat, bytes: nat, digest: Digest)
      returns (r: Result<(SnapshotFile, Evidence), Error>)
      requires Valid()
      modifies this`db, this`state
      ensures Valid() && history == old(history)
      ensures r.Ok? <==> fault.NoFault? && !backupFails
      ensures r.Ok? ==> r.value.0.db == DbOf(env, cfg, app, history, Some(id))
      ensures r.Ok? ==> FileCheck(env, r.value.0, r.value.1) == Ok(StateOf(env, cfg, app, history, Some(id)))
      ensures old(Agrees()) ==> (Agrees() <==> (!fault.CommitTook? || old(state.snapshotId) == Some(id)))
    {
      hide DbOf, StateOf, LoadState, FileCheck, ValidHistory;
      NewId(env, cfg, app, history, db.meta.snapshotId, state.snapshotId, Some(id));
      StateHasConfig(env, cfg, app, history, Some(id));
      DbFields(env, cfg, app, history, Some(id));
      if fault.NoFault? || fault.CommitTook? {
        db := db.(meta := db.meta.(snapshotId := Some(id)));
      }
      if !fault.NoFault? {
        return Err(Sqlite);
      }
      state := state.(snapshotId := Some(id));
      if backupFails {
        return Err(Sqlite);
      }
      var file := SnapshotFile(db, true, true, pageSize, bytes, digest);
      BuiltFilePasses(env, cfg, app, history, id, file);
      r := Ok((file, EvidenceOf(state, id, pageSize, bytes, digest)));
    }

    /** The file holds the database of history `g`, as every file does that an engine built. */
    ghost predicate Holds(file: SnapshotFile, g: History) {
      Good(env, cfg, app, g) && file.db == DbOf(env, cfg, app, g, file.db.meta.snapshotId)
    }

    /**
    A restore. A refusal changes nothing; success takes the image over, with the state it loads, which is
    not stale; a failure in between poisons the writer. If the file holds the database of a history `g`,
    success moves to `g`, which is never behind and never beside the live checkpoint.
    */
    method Restore(file: SnapshotFile, ev: Evidence, fault: RestoreFault, ghost g: History)
      returns (r: Result<Evidence, Error>)
      requires Valid()
      modifies this
      ensures var refusal := Preflight(env, old(state), file, ev);
        && (refusal.Some? ==> r == Err(refusal.value))
        && (refusal.None? && fault.NoRestoreFault? ==>
              && r == Ok(ev) && db == file.db && !poisoned && LoadState(env, file.db) == Ok(state) && Agrees()
              && state.config == old(state).config && AtLeast(old(state).lastApplied, state.lastApplied)
              && (Holds(file, g) ==>
                   && history == g && Valid() && |old(history)| <= |g|
                   && (|old(history)| == |g| ==> state.lastApplied == old(state).lastApplied)))
        && (refusal.None? && fault.MarkerFails? ==> r.Err?)
        && (refusal.Some? || fault.MarkerFails? ==>
              Valid() && db == old(db) && state == old(state) && history == old(history))
        && (poisoned <==> refusal.None? && (fault.CopyBreaks? || fault.ActiveMarkerFails?))
        && (poisoned ==> r == Err(WriterPoisoned) && db == if fault.CopyBreaks? then fault.torn else file.db)
    {
      hide LoadState, ReceiptsValid, DbOf, Good, StateOf;
      var incompatible, stale := Compatible(state, ev), Stale(state.lastApplied, ev.checkpoint);
      if incompatible.Some? {
        return Err(incompatible.value);
      }
      if stale.Some? {
        return Err(stale.value);
      }
      var checked := ValidateFile(env, file, ev);
      if checked.Err? {
        return Err(checked.error);
      }
      if fault.MarkerFails? {
        return Err(Sqlite);
      }
      if fault.CopyBreaks? {
        db, poisoned := fault.torn, true;
        return Err(WriterPoisoned);
      }
      ghost var h, live := history, state;
      r := Activate(file, ev, fault, g);
      if fault.NoRestoreFault? && Holds(file, g) {
        HistoryValidates(env, cfg, app, g, file.db.meta.snapshotId);
        RestoredState(env, cfg, app, h, g, live, state, file.db.meta.snapshotId);
      }
    }

    /** The image is in place: reload, validate, compare, mark active again. */
    method Activate(file: SnapshotFile, ev: Evidence, fault: RestoreFault, ghost g: History)
      returns (r: Result<Evidence, Error>)
      requires FileCheck(env, file, ev).Ok? && !poisoned && (fault.NoRestoreFault? || fault.ActiveMarkerFails?)
      modifies this
      ensures db == file.db && history == g
      ensures fault.NoRestoreFault? ==> r == Ok(ev) && !poisoned && Agrees()
      ensures fault.NoRestoreFault? ==> FileCheck(env, file, ev) == Ok(state) && LoadState(env, db) == Ok(state)
      ensures fault.ActiveMarkerFails? ==> r == Err(WriterPoisoned) && poisoned
    {
      LoadsSnapshotId(env, file.db);
      hide LoadState, ReceiptsValid;
      db := file.db;
      history := g;
      var restored := LoadState(env, db);
      var ok := restored.Ok?;
      if ok {
        ok := ValidateReceipts(env, db, restored.value);
      }
      ok := ok && EvidenceOf(restored.value, ev.snapshotId, ev.pageSize, ev.bytes, ev.digest) == ev
            && !fault.ActiveMarkerFails?;
      if ok {
        state := restored.value;
        r := Ok(ev);
      } else {
        poisoned := true;
        r := Err(WriterPoisoned);
      }
    }
  }

  lemma LoadsSnapshotId(env: Env, db: Db)
    ensures LoadState(env, db).Ok? ==> LoadState(env, db).value.snapshotId == db.meta.snapshotId
  {
    hide DecodeU64, LoadApplied;
  }

  /** The state loaded from the database of `g`, which was not refused as stale, is the state of `g`. */
  lemma RestoredState(env: Env, cfg: Config, app: App, h: History, g: History, live: Stored, restored: Stored,
                      id: Option<string>)
    requires Good(env, cfg, app, h) && Good(env, cfg, app, g)
    requires live == StateOf(env, cfg, app, h, live.snapshotId) && restored == StateOf(env, cfg, app, g, id)
    requires Stale(live.lastApplied, restored.lastApplied).None?
    ensures restored == StateOf(env, cfg, app, g, restored.snapshotId)
    ensures |h| <= |g| && (|h| == |g| ==> restored.lastApplied == live.lastApplied)
  {
    StateHasConfig(env, cfg, app, g, id);
    hide StateOf, Stale;
    NotBehind(env, cfg, app, h, g, live, restored);
  }

  lemma StateHasConfig(env: Env, cfg: Config, app: App, h: History, id: Option<string>)
    ensures StateOf(env, cfg, app, h, id).config == cfg && StateOf(env, cfg, app, h, id).snapshotId == id
  {
  }

  lemma DbFields(env: Env, cfg: Config, app: App, h: History, id: Option<string>)
    requires ValidHistory(env, cfg, app, h)
    ensures DbOf(env, cfg, app, h, id).app == Replay(env, cfg, app, h)
    ensures DbOf(env, cfg, app, h, id).meta.snapshotId == id
  {
  }

  /** The application table of the database is what the operations of the history made of it. */
  lemma AppIsRun(env: Env, cfg: Config, app: App, h: History, id: Option<string>)
    requires ValidHistory(env, cfg, app, h)
    ensures DbOf(env, cfg, app, h, id).app == RunAll(env, app, h)
  {
    DbFields(env, cfg, app, h, id);
    ReplayIsRun(env, cfg, app, h);
  }

  /** One apply in terms of the application table before and after it. */
  lemma ApplyEffects(env: Env, cfg: Config, app: App, h: History, e: Entry, fault: Fault, id: Option<string>)
    requires ValidHistory(env, cfg, app, h)
    ensures var (g, r) := AfterApply(env, cfg, app, h, e, fault);
      && ValidHistory(env, cfg, app, g)
      && var before, after := DbOf(env, cfg, app, h, id).app, DbOf(env, cfg, app, g, id).app;
      && (g == h || g == h + [e]) && (r.AppliedNow? ==> g == h + [e])
      && (g == h || e.op.None? ==> after == before)
      && (g != h && e.op.Some? ==>
           env.run(e.op.value, before).Ok? && after == env.run(e.op.value, before).value.0)
      && (r.AppliedNow? && e.op.Some? ==> r.output == Some(env.run(e.op.value, before).value.1))
      && (e.commit.sequence == cfg.initialSequence + |h| && fault.NoFault? ==>
           && (r.AppliedNow? <==> Accepts(env, cfg, before, e))
           && (!r.AppliedNow? ==> r == Rejected(Refusal(env, before, e))))
  {
    ApplyRuns(env, cfg, app, h, e, fault);
    CallExtends(env, cfg, app, h, e, fault);
    hide DbOf, ValidHistory, RunAll, EffectOf, Replay, OutputAt, AfterApply;
    AppIsRun(env, cfg, app, h, id);
    AppIsRun(env, cfg, app, AfterApply(env, cfg, app, h, e, fault).0, id);
  }

  lemma PersistState(env: Env, cfg: Config, app: App, h: History, e: Entry, id: Option<string>)
    requires ValidHistory(env, cfg, app, h) && Extends(env, cfg, app, h, e)
    ensures var receipt := EffectOf(env, cfg, Replay(env, cfg, app, h), e).value.receipt;
            Advanced(env, StateOf(env, cfg, app, h, id), e.commit, KindOfEntry(e), receipt) ==
            StateOf(env, cfg, app, h + [e], id)
  {
    Grow(env, cfg, app, h, e);
    hide EffectOf, Replay, StateOf, Advanced, ValidHistory;
    StateMoves(env, cfg, app, h, e, id, EffectAt(env, cfg, app, h + [e], |h|).value.receipt);
  }

  /** A new snapshot id changes nothing else. */
  lemma NewId(env: Env, cfg: Config, app: App, h: History, dbId: Option<string>, memoryId: Option<string>,
              id: Option<string>)
    requires ValidHistory(env, cfg, app, h)
    ensures var db := DbOf(env, cfg, app, h, dbId);
            DbOf(env, cfg, app, h, id) == db.(meta := db.meta.(snapshotId := id))
    ensures StateOf(env, cfg, app, h, id) == StateOf(env, cfg, app, h, memoryId).(snapshotId := id)
  {
    hide EncodeU64, Floor, RowAt, Window, Replay;
  }

  /** A checkpoint that is not stale is of a history at least as long; at equal length, the same record. */
  lemma NotBehind(env: Env, cfg: Config, app: App, h: History, g: History, live: Stored, incoming: Stored)
    requires ValidHistory(env, cfg, app, h) && ValidHistory(env, cfg, app, g)
    requires live == StateOf(env, cfg, app, h, live.snapshotId)
        && incoming == StateOf(env, cfg, app, g, incoming.snapshotId)
    ensures Stale(live.lastApplied, incoming.lastApplied).None? <==>
            |h| <= |g| && (|h| == |g| ==> live.lastApplied == incoming.lastApplied)
  {
    hide ValidHistory, RowAt, Floor;
    if h != [] {
      LastSequence(env, cfg, app, h);
    }
    if g != [] {
      LastSequence(env, cfg, app, g);
    }
  }
}
