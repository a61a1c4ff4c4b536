/**
What one request must do, said of the history alone: no table, no receipt, no window of rows. The
classification of the code, which reads the tables, is proved equal to it.
*/
module ExternalSpec {
  import opened Base
  import opened ExternalDb
  import opened ExternalHistory
  import opened ExternalReload

  datatype Outcome =
    | AppliedNow(output: Option<Output>)
    | Recovered(output: Option<Output>)
    | Rejected(error: ApplyError)

  /** Where SQLite may fail during one apply. A failed COMMIT may or may not have taken effect. */
  datatype Fault = NoFault | ReadFails | BeginFails | PersistFails | CommitLost | CommitTook

  /** The receipt is looked up only for a sequence that was passed already. */
  predicate LooksUp(cfg: Config, h: History, e: Entry) {
    h != [] && e.commit.sequence < cfg.initialSequence + |h|
  }

  datatype Verdict = Fresh | Again(output: Option<Output>) | Refused(error: Error)

  /** What the entry at index `i` returned when it was applied. */
  ghost function OutputAt(env: Env, cfg: Config, app: App, h: History, i: nat): Option<Output>
    requires i < |h|
  {
    var effect := EffectAt(env, cfg, app, h, i);
    if effect.Ok? then effect.value.output else None
  }

  /** Same commit and same kind: the receipt schema, digest, coordinate and codec all agree. */
  predicate SameEntry(a: Entry, b: Entry) {
    a.commit == b.commit && KindOfEntry(a) == KindOfEntry(b)
  }

  /** The verdict on an entry: exactly one case holds of every history and every entry. */
  ghost function Verdicts(env: Env, cfg: Config, app: App, h: History, e: Entry): Verdict {
    var next, s := cfg.initialSequence + |h|, e.commit.sequence;
    if s == next then Fresh
    else if next < s then Refused(SequenceGap(next, s))
    else if h == [] then Refused(SequenceBeforeInitial(cfg.initialSequence, s))
    else if !Retained(cfg, h, s) then Refused(ReceiptUnavailable(s))
    else if SameEntry(h[s - cfg.initialSequence], e) then Again(OutputAt(env, cfg, app, h, s - cfg.initialSequence))
    else Refused(CommitConflict(s))
  }

  /** The history and the answer after one apply. */
  ghost function AfterApply(env: Env, cfg: Config, app: App, h: History, e: Entry, fault: Fault): (History, Outcome) {
    if fault.ReadFails? && LooksUp(cfg, h, e) then (h, Rejected(Engine(Sqlite)))
    else match Verdicts(env, cfg, app, h, e)
    case Again(output) => (h, Recovered(output))
    case Refused(error) => (h, Rejected(Engine(error)))
    case Fresh =>
      if fault.BeginFails? then (h, Rejected(Engine(Sqlite)))
      else match EffectOf(env, cfg, Replay(env, cfg, app, h), e)
        case Err(error) => (h, Rejected(error))
        case Ok(effect) =>
          match fault
          case NoFault => (h + [e], AppliedNow(effect.output))
          case ReadFails => (h + [e], AppliedNow(effect.output))
          case CommitTook => (h + [e], Rejected(Engine(Sqlite)))
          case _ => (h, Rejected(Engine(Sqlite)))
  }

  /**
  What one apply does, in terms of `operation.apply` alone: the history grows by an entry that was next
  and accepted, the answer is the output of its operation, and a refusal has its reason.
  */
  lemma ApplyRuns(env: Env, cfg: Config, app: App, h: History, e: Entry, fault: Fault)
    requires ValidHistory(env, cfg, app, h)
    ensures var (g, r) := AfterApply(env, cfg, app, h, e, fault);
      var now := RunAll(env, app, h);
      && (g == h || g == h + [e])
      && (g != h ==> Verdicts(env, cfg, app, h, e).Fresh? && Accepts(env, cfg, now, e))
      && (g != h ==> RunAll(env, app, g) == RunOne(env, now, e))
      && (r.AppliedNow? ==> g != h && r.output == OutputOf(env, now, e))
      && (r.AppliedNow? && e.op.Some? ==> r.output.Some?)
      && (fault.NoFault? && Verdicts(env, cfg, app, h, e).Fresh? ==>
           (r.AppliedNow? <==> Accepts(env, cfg, now, e))
           && (!Accepts(env, cfg, now, e) ==> r == Rejected(Refusal(env, now, e))))
  {
    ReplayIsRun(env, cfg, app, h);
    EffectExact(env, cfg, RunAll(env, app, h), e);
    RunAllSnoc(env, app, h, e);
    hide EffectOf, RunAll, Verdicts, ValidHistory, Replay, RunOne, Refusal;
  }

  /** What an entry returned, as the history remembers it, is what its operation returned. */
  lemma OutputIsRun(env: Env, cfg: Config, app: App, h: History, i: nat)
    requires ValidHistory(env, cfg, app, h) && i < |h|
    ensures OutputAt(env, cfg, app, h, i) == OutputOf(env, RunAll(env, app, h[..i]), h[i])
    ensures h[i].op.Some? ==> OutputAt(env, cfg, app, h, i).Some?
  {
    EffectIsOk(env, cfg, app, h, i);
    PrefixValid(env, cfg, app, h, i);
    ReplayIsRun(env, cfg, app, h[..i]);
    EffectExact(env, cfg, RunAll(env, app, h[..i]), h[i]);
    hide EffectOf, RunAll, ValidHistory, Replay;
  }

  /** One call keeps the history valid, and extends it by its own entry or not at all. */
  lemma CallExtends(env: Env, cfg: Config, app: App, h: History, e: Entry, fault: Fault)
    requires ValidHistory(env, cfg, app, h)
    ensures var after := AfterApply(env, cfg, app, h, e, fault);
            && ValidHistory(env, cfg, app, after.0)
            && (after.0 == h || (after.0 == h + [e] && Extends(env, cfg, app, h, e)))
            && (after.1.AppliedNow? ==> after.0 == h + [e])
            && (after.1.Recovered? ==> after.0 == h)
  {
    hide ValidHistory, EffectOf, Replay, OutputAt, Retained;
    if AfterApply(env, cfg, app, h, e, fault).0 != h {
      Grow(env, cfg, app, h, e);
    }
  }

  /** The class the code finds, read as a verdict. */
  ghost predicate Answers(env: Env, c: Result<Class, Error>, e: Entry, v: Verdict) {
    match c
    case Ok(New) => v == Fresh
    case Ok(Retry(r)) => v.Again? && (e.op.Some? ==> v.output.Some? && env.decode(r.receipt) == v.output)
                         && (e.op.None? ==> v.output.None?)
    case Err(error) => v == Refused(error)
  }

  lemma LastSequence(env: Env, cfg: Config, app: App, h: History)
    requires ValidHistory(env, cfg, app, h) && h != []
    ensures h[|h| - 1].commit.sequence == cfg.initialSequence + |h| - 1
  {
    EffectIsOk(env, cfg, app, h, |h| - 1);
  }

  /** A receipt in the window decodes to what its entry returned the first time. */
  lemma ReceiptHoldsOutput(env: Env, cfg: Config, app: App, h: History, i: nat)
    requires Good(env, cfg, app, h) && i < |h|
    ensures h[i].op.Some? ==> OutputAt(env, cfg, app, h, i).Some? &&
                              env.decode(ReceiptAt(env, cfg, app, h, i).receipt) == OutputAt(env, cfg, app, h, i)
    ensures h[i].op.None? ==> OutputAt(env, cfg, app, h, i).None?
  {
    hide Replay, ValidHistory, EncodeU64;
    EffectIsOk(env, cfg, app, h, i);
  }

  /** Classification is total and exact, and `SequenceOverflow` is unreachable. */
  lemma ClassifyExact(env: Env, cfg: Config, app: App, h: History, id: Option<string>, memoryId: Option<string>,
                      e: Entry)
    requires Good(env, cfg, app, h)
    ensures var kind := KindOfEntry(e);
            var found := Classify(env, DbOf(env, cfg, app, h, id), StateOf(env, cfg, app, h, memoryId),
                                  e.commit, kind, CodecName(cfg, kind));
            && Answers(env, found, e, Verdicts(env, cfg, app, h, e))
            && found != Err(SequenceOverflow)
  {
    hide DbOf, LoadReceipt, RowAt, ValidHistory, Floor, OutputAt;
    var s := e.commit.sequence;
    if h != [] {
      LastSequence(env, cfg, app, h);
      if s < cfg.initialSequence + |h| {
        LoadReceiptExact(env, cfg, app, h, id, s);
        if Retained(cfg, h, s) {
          ReceiptHoldsOutput(env, cfg, app, h, s - cfg.initialSequence);
        }
      }
    }
  }
}
