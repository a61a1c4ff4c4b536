/**
The reference the external state machine is measured against: a history is the list of committed
entries, each applied once, and everything the database and the memory hold is a function of it.
*/
module ExternalHistory {
  import opened Base
  import opened Positional
  import opened ExternalDb

  /** A committed entry: a typed operation, or an advance over an entry that does not touch SQLite. */
  datatype Entry = Entry(commit: Commit, op: Option<Operation>)

  type History = seq<Entry>

  datatype ApplyError = Engine(error: Error) | Failed(opError: OpError)

  function KindOfEntry(e: Entry): Kind {
    if e.op.Some? then OperationKind else AdvanceKind
  }

  /** What an entry does to the application, the receipt it leaves and the output it returns. */
  datatype Effect = Effect(app: App, receipt: seq<byte>, output: Option<Output>)

  function EffectOf(env: Env, cfg: Config, app: App, e: Entry): Result<Effect, ApplyError> {
    if e.op.None? then Ok(Effect(app, UNIT_RECEIPT, None))
    else match env.run(e.op.value, app)
      case Err(error) => Err(Failed(error))
      case Ok((next, output)) =>
        var receipt := env.encode(output);
        if receipt.None? then Err(Engine(Serialization))
        else if cfg.maxReceiptBytes < |receipt.value| then Err(Engine(ReceiptTooLarge))
        else Ok(Effect(next, receipt.value, Some(output)))
  }

  /** The application after every entry ran once, in order. */
  function Replay(env: Env, cfg: Config, app: App, h: History): App
    decreases |h|
  {
    if h == [] then app
    else
      var before := Replay(env, cfg, app, h[..|h| - 1]);
      var effect := EffectOf(env, cfg, before, h[|h| - 1]);
      if effect.Ok? then effect.value.app else before
  }

  function EffectAt(env: Env, cfg: Config, app: App, h: History, i: nat): Result<Effect, ApplyError>
    requires i < |h|
  {
    EffectOf(env, cfg, Replay(env, cfg, app, h[..i]), h[i])
  }

  /** Sequences run without a gap from the initial one, and every entry succeeded where it stands. */
  ghost predicate ValidHistory(env: Env, cfg: Config, app: App, h: History) {
    forall i :: 0 <= i < |h| ==> h[i].commit.sequence == cfg.initialSequence + i && EffectAt(env, cfg, app, h, i).Ok?
  }

  /** Index of the oldest entry whose receipt is kept. */
  function WindowStart(cfg: Config, h: History): nat {
    Max(0, |h| - cfg.retention)
  }

  function RowAt(env: Env, cfg: Config, app: App, h: History, i: nat): ReceiptRow
    requires i < |h|
  {
    var effect := EffectAt(env, cfg, app, h, i);
    RowOf(env, h[i].commit, KindOfEntry(h[i]), CodecName(cfg, KindOfEntry(h[i])),
          if effect.Ok? then effect.value.receipt else UNIT_RECEIPT)
  }

  function KeyAt(h: History, i: nat): Key
    requires i < |h|
  {
    EncodeU64(h[i].commit.sequence)
  }

  lemma KeysDistinct(env: Env, cfg: Config, app: App, h: History)
    requires ValidHistory(env, cfg, app, h)
    ensures forall i, j :: 0 <= i < |h| && 0 <= j < |h| && KeyAt(h, i) == KeyAt(h, j) ==> i == j
  {
    forall i, j | 0 <= i < |h| && 0 <= j < |h| && KeyAt(h, i) == KeyAt(h, j)
      ensures i == j
    {
      hide Be, FromBe, EffectAt;
      U64Blob(h[i].commit.sequence);
      U64Blob(h[j].commit.sequence);
    }
  }

  /** The receipts of the newest entries, `cfg.retention` of them at most. */
  ghost function Window(env: Env, cfg: Config, app: App, h: History): map<Key, ReceiptRow>
    requires ValidHistory(env, cfg, app, h)
  {
    KeysDistinct(env, cfg, app, h);
    map i | WindowStart(cfg, h) <= i < |h| :: KeyAt(h, i) := RowAt(env, cfg, app, h, i)
  }

  ghost function AppliedAt(env: Env, cfg: Config, app: App, h: History, i: nat): Applied
    requires i < |h|
  {
    Applied(h[i].commit, KindOfEntry(h[i]), RowAt(env, cfg, app, h, i).receiptDigest)
  }

  ghost function StateOf(env: Env, cfg: Config, app: App, h: History, id: Option<string>): Stored {
    if h == [] then Stored(cfg, None, None, id)
    else
      var last := |h| - 1;
      Stored(cfg, Some(AppliedAt(env, cfg, app, h, last)), Some(Floor(cfg, h[last].commit.sequence)), id)
  }

  ghost function MetaOf(env: Env, cfg: Config, app: App, h: History, id: Option<string>): MetaRow {
    var empty := Created(app, cfg).meta.(snapshotId := id);
    if h == [] then empty
    else
      var last := AppliedAt(env, cfg, app, h, |h| - 1);
      empty.(
      lastSequence := Some(EncodeU64(last.commit.sequence)),
      lastCoordinate := Some(env.encodeC(last.commit.coordinate)),
      lastDigest := Some(last.commit.digest), lastKind := Some(KindCode(last.kind)),
      lastStateSchema := Some(EncodeU64(last.commit.stateSchema)),
      lastReceiptSchema := Some(EncodeU64(last.commit.receiptSchema)),
      lastReceiptDigest := Some(last.receiptDigest),
      receiptFloor := Some(EncodeU64(Floor(cfg, last.commit.sequence))))
  }

  ghost function DbOf(env: Env, cfg: Config, app: App, h: History, id: Option<string>): Db
    requires ValidHistory(env, cfg, app, h)
  {
    Db(Replay(env, cfg, app, h), MetaOf(env, cfg, app, h, id), Window(env, cfg, app, h))
  }

  // ---- growing a history

  lemma PrefixValid(env: Env, cfg: Config, app: App, h: History, n: nat)
    requires ValidHistory(env, cfg, app, h) && n <= |h|
    ensures ValidHistory(env, cfg, app, h[..n])
    ensures forall i :: 0 <= i < n ==> EffectAt(env, cfg, app, h[..n], i) == EffectAt(env, cfg, app, h, i)
  {
    forall i | 0 <= i < n
      ensures EffectAt(env, cfg, app, h[..n], i) == EffectAt(env, cfg, app, h, i)
    {
      assert h[..n][..i] == h[..i];
    }
  }

  /** The entry is the next one and succeeds. */
  ghost predicate Extends(env: Env, cfg: Config, app: App, h: History, e: Entry) {
    && e.commit.sequence == cfg.initialSequence + |h|
    && EffectOf(env, cfg, Replay(env, cfg, app, h), e).Ok?
  }

  lemma Grow(env: Env, cfg: Config, app: App, h: History, e: Entry)
    requires ValidHistory(env, cfg, app, h) && Extends(env, cfg, app, h, e)
    ensures ValidHistory(env, cfg, app, h + [e])
    ensures EffectAt(env, cfg, app, h + [e], |h|) == EffectOf(env, cfg, Replay(env, cfg, app, h), e)
    ensures Replay(env, cfg, app, h + [e]) == EffectAt(env, cfg, app, h + [e], |h|).value.app
    ensures forall i :: 0 <= i < |h| ==> EffectAt(env, cfg, app, h + [e], i) == EffectAt(env, cfg, app, h, i)
  {
    var g := h + [e];
    assert g[..|h|] == h && g[..|g| - 1] == h;
    forall i | 0 <= i < |h|
      ensures EffectAt(env, cfg, app, g, i) == EffectAt(env, cfg, app, h, i)
    {
      assert g[..i] == h[..i];
    }
  }

  // ---- what the entries of a history do, without receipts and limits

  /** The application after `apply` of one entry's operation. */
  function RunOne(env: Env, app: App, e: Entry): App {
    if e.op.Some? && env.run(e.op.value, app).Ok? then env.run(e.op.value, app).value.0 else app
  }

  /** The operations, one after the other from the first on. */
  function RunAll(env: Env, app: App, h: History): App
    decreases |h|
  {
    if h == [] then app else RunAll(env, RunOne(env, app, h[0]), h[1..])
  }

  lemma {:induction false} RunAllSnoc(env: Env, app: App, h: History, e: Entry)
    ensures RunAll(env, app, h + [e]) == RunOne(env, RunAll(env, app, h), e)
    decreases |h|
  {
    hide RunOne;
    if h == [] {
      assert h + [e] == [e] && [e][1..] == [];
    } else {
      assert (h + [e])[1..] == h[1..] + [e];
      RunAllSnoc(env, RunOne(env, app, h[0]), h[1..], e);
    }
  }

  /**
  When an entry is taken: an advance always; an operation that succeeds, whose output has an encoding,
  of at most the configured size.
  */
  predicate Accepts(env: Env, cfg: Config, app: App, e: Entry) {
    e.op.None? || (
      var ran := env.run(e.op.value, app);
      ran.Ok? && env.encode(ran.value.1).Some? && |env.encode(ran.value.1).value| <= cfg.maxReceiptBytes)
  }

  /** What the operation of an entry returns. */
  function OutputOf(env: Env, app: App, e: Entry): Option<Output> {
    if e.op.Some? && env.run(e.op.value, app).Ok? then Some(env.run(e.op.value, app).value.1) else None
  }

  /** Why an entry is not taken. */
  function Refusal(env: Env, app: App, e: Entry): ApplyError
    requires e.op.Some?
  {
    match env.run(e.op.value, app)
    case Err(error) => Failed(error)
    case Ok((_, output)) => Engine(if env.encode(output).None? then Serialization else ReceiptTooLarge)
  }

  lemma EffectExact(env: Env, cfg: Config, app: App, e: Entry)
    ensures EffectOf(env, cfg, app, e).Ok? <==> Accepts(env, cfg, app, e)
    ensures Accepts(env, cfg, app, e) ==>
      var effect := EffectOf(env, cfg, app, e).value;
      && effect.app == RunOne(env, app, e) && effect.output == OutputOf(env, app, e)
      && (e.op.Some? ==> env.encode(effect.output.value) == Some(effect.receipt))
      && (e.op.None? ==> effect.receipt == UNIT_RECEIPT)
    ensures !Accepts(env, cfg, app, e) ==>
      EffectOf(env, cfg, app, e) == Err(Refusal(env, app, e))
  {
  }

  /** The application of a history is what its operations make of it when each runs once, in order. */
  lemma {:induction false} ReplayIsRun(env: Env, cfg: Config, app: App, h: History)
    requires ValidHistory(env, cfg, app, h)
    ensures Replay(env, cfg, app, h) == RunAll(env, app, h)
    ensures forall i :: 0 <= i < |h| ==> Accepts(env, cfg, RunAll(env, app, h[..i]), h[i])
    decreases |h|
  {
    hide EffectOf, Accepts, RunOne, RunAll;
    if h == [] {
      assert RunAll(env, app, []) == app by { NothingRuns(env, app); }
    } else {
      var n := |h| - 1;
      PrefixValid(env, cfg, app, h, n);
      ReplayIsRun(env, cfg, app, h[..n]);
      assert EffectAt(env, cfg, app, h, n).Ok?;
      EffectExact(env, cfg, Replay(env, cfg, app, h[..n]), h[n]);
      assert h == h[..n] + [h[n]];
      RunAllSnoc(env, app, h[..n], h[n]);
      forall i | 0 <= i < |h|
        ensures Accepts(env, cfg, RunAll(env, app, h[..i]), h[i])
      {
        if i < n {
          assert h[..n][..i] == h[..i] && h[..n][i] == h[i];
        }
      }
    }
  }

  lemma NothingRuns(env: Env, app: App)
    ensures RunAll(env, app, []) == app
  {
  }

  lemma KeyOrder(a: u64, b: u64)
    ensures LexLess(EncodeU64(a), EncodeU64(b)) <==> a < b
  {
    U64KeyOrder(a, b);
  }

  /** The floor of the code is the sequence of the oldest entry in the window. */
  lemma FloorIsWindowStart(env: Env, cfg: Config, app: App, h: History)
    requires ValidConfig(cfg) && ValidHistory(env, cfg, app, h) && h != []
    ensures WindowStart(cfg, h) < |h|
    ensures Floor(cfg, h[|h| - 1].commit.sequence) == cfg.initialSequence + WindowStart(cfg, h)
    ensures Floor(cfg, h[|h| - 1].commit.sequence) == h[WindowStart(cfg, h)].commit.sequence
  {
    hide EffectAt;
    assert h[|h| - 1].commit.sequence == cfg.initialSequence + |h| - 1;
  }

  /** Membership in the window, without its comprehension. */
  lemma InWindow(env: Env, cfg: Config, app: App, h: History, i: nat)
    requires ValidHistory(env, cfg, app, h) && i < |h|
    ensures KeyAt(h, i) in Window(env, cfg, app, h) <==> WindowStart(cfg, h) <= i
    ensures WindowStart(cfg, h) <= i ==> Window(env, cfg, app, h)[KeyAt(h, i)] == RowAt(env, cfg, app, h, i)
  {
    hide Be, FromBe, EffectAt, RowAt;
    KeysDistinct(env, cfg, app, h);
  }

  lemma WindowKey(env: Env, cfg: Config, app: App, h: History, key: Key) returns (i: nat)
    requires ValidHistory(env, cfg, app, h) && key in Window(env, cfg, app, h)
    ensures WindowStart(cfg, h) <= i < |h| && key == KeyAt(h, i)
    ensures Window(env, cfg, app, h)[key] == RowAt(env, cfg, app, h, i)
  {
    hide Be, FromBe, EffectAt, RowAt, EncodeU64;
    i :| WindowStart(cfg, h) <= i < |h| && key == KeyAt(h, i);
    InWindow(env, cfg, app, h, i);
  }

  /** One entry of the longer history: where its key falls, and that the shorter one agrees on it. */
  lemma Moved(env: Env, cfg: Config, app: App, h: History, e: Entry, i: nat)
    requires ValidConfig(cfg) && ValidHistory(env, cfg, app, h) && Extends(env, cfg, app, h, e) && i <= |h|
    ensures var g := h + [e];
            LexLess(KeyAt(g, i), EncodeU64(Floor(cfg, e.commit.sequence))) <==> i < WindowStart(cfg, g)
    ensures var g := h + [e];
            i < |h| ==> KeyAt(g, i) == KeyAt(h, i) && RowAt(env, cfg, app, g, i) == RowAt(env, cfg, app, h, i)
  {
    Grow(env, cfg, app, h, e);
    hide Be, FromBe, EffectAt, EffectOf, Replay, LexLess, EncodeU64;
    var g := h + [e];
    FloorIsWindowStart(env, cfg, app, g);
    KeyOrder(g[i].commit.sequence, Floor(cfg, e.commit.sequence));
  }

  ghost function Inserted(env: Env, cfg: Config, app: App, h: History, e: Entry): map<Key, ReceiptRow>
    requires ValidHistory(env, cfg, app, h)
  {
    Window(env, cfg, app, h)[KeyAt(h + [e], |h|) := RowAt(env, cfg, app, h + [e], |h|)]
  }

  /** A row that stays after the delete belongs to the window of the longer history. */
  lemma KeptIsInWindow(env: Env, cfg: Config, app: App, h: History, e: Entry, key: Key)
    requires ValidConfig(cfg) && ValidHistory(env, cfg, app, h) && Extends(env, cfg, app, h, e)
    requires ValidHistory(env, cfg, app, h + [e]) && key in Inserted(env, cfg, app, h, e)
    requires !LexLess(key, EncodeU64(Floor(cfg, e.commit.sequence)))
    ensures key in Window(env, cfg, app, h + [e])
    ensures Inserted(env, cfg, app, h, e)[key] == Window(env, cfg, app, h + [e])[key]
  {
    hide Be, FromBe, EffectAt, EffectOf, Replay, LexLess, EncodeU64, Window, RowAt, KeyAt, Floor, ValidHistory, Extends;
    var g := h + [e];
    var i := |h|;
    if key != KeyAt(g, |h|) {
      i := WindowKey(env, cfg, app, h, key);
    }
    Moved(env, cfg, app, h, e, i);
    InWindow(env, cfg, app, g, i);
  }

  lemma WindowIsKept(env: Env, cfg: Config, app: App, h: History, e: Entry, key: Key)
    requires ValidConfig(cfg) && ValidHistory(env, cfg, app, h) && Extends(env, cfg, app, h, e)
    requires ValidHistory(env, cfg, app, h + [e]) && key in Window(env, cfg, app, h + [e])
    ensures key in Inserted(env, cfg, app, h, e) && !LexLess(key, EncodeU64(Floor(cfg, e.commit.sequence)))
  {
    hide Be, FromBe, EffectAt, EffectOf, Replay, LexLess, EncodeU64, Window, RowAt, KeyAt, Floor, ValidHistory, Extends;
    var g := h + [e];
    var i := WindowKey(env, cfg, app, g, key);
    Moved(env, cfg, app, h, e, i);
    if i < |h| {
      InWindow(env, cfg, app, h, i);
    }
  }

  /** Deleting below the floor by comparing bytes leaves exactly the window of the longer history. */
  lemma WindowMoves(env: Env, cfg: Config, app: App, h: History, e: Entry)
    requires ValidConfig(cfg) && ValidHistory(env, cfg, app, h) && Extends(env, cfg, app, h, e)
    ensures ValidHistory(env, cfg, app, h + [e])
    ensures var inserted := Inserted(env, cfg, app, h, e);
            var floor := EncodeU64(Floor(cfg, e.commit.sequence));
            (map key | key in inserted && !LexLess(key, floor) :: inserted[key]) == Window(env, cfg, app, h + [e])
  {
    Grow(env, cfg, app, h, e);
    hide *;
    var inserted := Inserted(env, cfg, app, h, e);
    var floor := EncodeU64(Floor(cfg, e.commit.sequence));
    forall key | key in inserted && !LexLess(key, floor)
      ensures key in Window(env, cfg, app, h + [e]) && inserted[key] == Window(env, cfg, app, h + [e])[key]
    {
      KeptIsInWindow(env, cfg, app, h, e, key);
    }
    forall key | key in Window(env, cfg, app, h + [e])
      ensures key in inserted && !LexLess(key, floor)
    {
      WindowIsKept(env, cfg, app, h, e, key);
    }
  }
}
