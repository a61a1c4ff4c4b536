/**
Whole runs of the external state machine, at the level of histories: exactly-once application,
answers that stay true, and a snapshot followed by the tail of the log.
*/
module ExternalRuns {
  import opened Base
  import opened ExternalDb
  import opened ExternalHistory
  import opened ExternalReload
  import opened ExternalSpec
  import opened ExternalEngine

  datatype Call = Call(entry: Entry, fault: Fault)

  /** The history after a list of calls. */
  ghost function After(env: Env, cfg: Config, app: App, h: History, calls: seq<Call>): History
    decreases |calls|
  {
    if calls == [] then h
    else
      var last := calls[|calls| - 1];
      AfterApply(env, cfg, app, After(env, cfg, app, h, calls[..|calls| - 1]), last.entry, last.fault).0
  }

  /** What call `j` of the list was answered. */
  ghost function AnswerAt(env: Env, cfg: Config, app: App, h: History, calls: seq<Call>, j: nat): Outcome
    requires j < |calls|
  {
    AfterApply(env, cfg, app, After(env, cfg, app, h, calls[..j]), calls[j].entry, calls[j].fault).1
  }

  lemma {:induction false} RunValid(env: Env, cfg: Config, app: App, h: History, calls: seq<Call>)
    requires ValidHistory(env, cfg, app, h)
    ensures ValidHistory(env, cfg, app, After(env, cfg, app, h, calls))
    ensures h <= After(env, cfg, app, h, calls)
    decreases |calls|
  {
    if calls != [] {
      var last := calls[|calls| - 1];
      hide ValidHistory, AfterApply;
      RunValid(env, cfg, app, h, calls[..|calls| - 1]);
      CallExtends(env, cfg, app, After(env, cfg, app, h, calls[..|calls| - 1]), last.entry, last.fault);
    }
  }

  /** What an earlier prefix of the calls left stays in front. */
  lemma {:induction false} RunMonotone(env: Env, cfg: Config, app: App, h: History, calls: seq<Call>, j: nat)
    requires ValidHistory(env, cfg, app, h) && j <= |calls|
    ensures After(env, cfg, app, h, calls[..j]) <= After(env, cfg, app, h, calls)
    decreases |calls|
  {
    hide ValidHistory, AfterApply;
    if j < |calls| {
      var front := calls[..|calls| - 1];
      var last := calls[|calls| - 1];
      assert front[..j] == calls[..j];
      RunMonotone(env, cfg, app, h, front, j);
      RunValid(env, cfg, app, h, front);
      CallExtends(env, cfg, app, After(env, cfg, app, h, front), last.entry, last.fault);
    } else {
      assert calls[..j] == calls;
    }
  }

  /** A longer history changes neither an entry nor what it returned. */
  lemma OutputStays(env: Env, cfg: Config, app: App, g: History, h: History, i: nat)
    requires g <= h && i < |g|
    ensures h[i] == g[i] && OutputAt(env, cfg, app, h, i) == OutputAt(env, cfg, app, g, i)
  {
    hide EffectOf, Replay;
    assert h[..i] == g[..i];
  }

  /** The output of a call is the output its entry has in the history right after the call. */
  lemma AnswerIsOutput(env: Env, cfg: Config, app: App, h: History, e: Entry, fault: Fault)
    requires ValidHistory(env, cfg, app, h)
    requires !AfterApply(env, cfg, app, h, e, fault).1.Rejected?
    ensures var (g, answer) := AfterApply(env, cfg, app, h, e, fault);
            var i := e.commit.sequence - cfg.initialSequence;
            0 <= i < |g| && SameEntry(g[i], e) && answer.output == OutputAt(env, cfg, app, g, i)
  {
    hide ValidHistory, Replay;
    if AfterApply(env, cfg, app, h, e, fault).1.AppliedNow? {
      Grow(env, cfg, app, h, e);
    }
  }

  /**
  Exactly once: whatever was answered by `Applied` or `Recovered`, at any point of any run, is the
  entry that stands in the final history at its sequence, with the output it had there.
  */
  lemma AnswersHold(env: Env, cfg: Config, app: App, h: History, calls: seq<Call>, j: nat)
    requires ValidHistory(env, cfg, app, h) && j < |calls|
    requires !AnswerAt(env, cfg, app, h, calls, j).Rejected?
    ensures var end, e := After(env, cfg, app, h, calls), calls[j].entry;
            var i := e.commit.sequence - cfg.initialSequence;
            && 0 <= i < |end| && SameEntry(end[i], e)
            && AnswerAt(env, cfg, app, h, calls, j).output == OutputAt(env, cfg, app, end, i)
  {
    var before := After(env, cfg, app, h, calls[..j]);
    RunValid(env, cfg, app, h, calls[..j]);
    AnswerIsOutput(env, cfg, app, before, calls[j].entry, calls[j].fault);
    assert calls[..j + 1][..j] == calls[..j];
    RunMonotone(env, cfg, app, h, calls, j + 1);
    hide ValidHistory, AfterApply, OutputAt;
    OutputStays(env, cfg, app, After(env, cfg, app, h, calls[..j + 1]), After(env, cfg, app, h, calls),
                calls[j].entry.commit.sequence - cfg.initialSequence);
  }

  /** An entry that took effect is never applied again: every later call at its sequence changes nothing. */
  lemma NeverTwice(env: Env, cfg: Config, app: App, h: History, calls: seq<Call>, j: nat)
    requires ValidHistory(env, cfg, app, h) && j < |calls|
    requires calls[j].entry.commit.sequence < cfg.initialSequence + |After(env, cfg, app, h, calls[..j])|
    ensures After(env, cfg, app, h, calls[..j + 1]) == After(env, cfg, app, h, calls[..j])
    ensures !AnswerAt(env, cfg, app, h, calls, j).AppliedNow?
  {
    assert calls[..j + 1][..j] == calls[..j];
  }

  /**
  A COMMIT that took effect but reported an error is an application: repeating the call answers with
  the output of the one time it ran, for as long as its receipt is retained.
  */
  lemma LostAnswerIsRecovered(env: Env, cfg: Config, app: App, h: History, e: Entry, calls: seq<Call>)
    requires ValidHistory(env, cfg, app, h) && ValidConfig(cfg) && Extends(env, cfg, app, h, e)
    ensures var took := AfterApply(env, cfg, app, h, e, CommitTook);
            var later := After(env, cfg, app, took.0, calls);
            && took == (h + [e], Rejected(Engine(Sqlite)))
            && (Retained(cfg, later, e.commit.sequence) ==>
                  forall fault :: fault != ReadFails ==>
                    AfterApply(env, cfg, app, later, e, fault) ==
                    (later, Recovered(EffectOf(env, cfg, Replay(env, cfg, app, h), e).value.output)))
  {
    Grow(env, cfg, app, h, e);
    var took := h + [e];
    RunValid(env, cfg, app, took, calls);
    hide ValidHistory, Replay, After, EffectOf;
    OutputStays(env, cfg, app, took, After(env, cfg, app, took, calls), |h|);
  }

  /** The next entry of a valid history, applied to what comes before it. */
  lemma NextEntry(env: Env, cfg: Config, app: App, h: History, n: nat)
    requires ValidHistory(env, cfg, app, h) && n < |h|
    ensures AfterApply(env, cfg, app, h[..n], h[n], NoFault).0 == h[..n] + [h[n]]
  {
    hide Replay, EffectOf, ValidHistory;
    EffectIsOk(env, cfg, app, h, n);
  }

  // ---- restores between calls

  /** A request to the writer: a call, or the installation of a snapshot of history `g`. */
  datatype Request = Submit(call: Call) | Install(g: History)

  ghost function Checkpoint(env: Env, cfg: Config, app: App, h: History): Option<Applied> {
    StateOf(env, cfg, app, h, None).lastApplied
  }

  ghost function Handle(env: Env, cfg: Config, app: App, h: History, request: Request): History {
    match request
    case Submit(call) => AfterApply(env, cfg, app, h, call.entry, call.fault).0
    case Install(g) => if Stale(Checkpoint(env, cfg, app, h), Checkpoint(env, cfg, app, g)).None? then g else h
  }

  ghost function Handled(env: Env, cfg: Config, app: App, h: History, requests: seq<Request>): History
    decreases |requests|
  {
    if requests == [] then h
    else Handle(env, cfg, app, Handled(env, cfg, app, h, requests[..|requests| - 1]), requests[|requests| - 1])
  }

  ghost predicate InstallsValid(env: Env, cfg: Config, app: App, requests: seq<Request>) {
    forall i :: 0 <= i < |requests| && requests[i].Install? ==> ValidHistory(env, cfg, app, requests[i].g)
  }

  lemma HandleNeverFalls(env: Env, cfg: Config, app: App, h: History, request: Request)
    requires ValidHistory(env, cfg, app, h) && (request.Install? ==> ValidHistory(env, cfg, app, request.g))
    ensures var next := Handle(env, cfg, app, h, request);
            && ValidHistory(env, cfg, app, next) && |h| <= |next|
            && (|h| == |next| ==> Checkpoint(env, cfg, app, h) == Checkpoint(env, cfg, app, next))
  {
    hide ValidHistory, AfterApply, Stale, RowAt, Floor;
    match request
    case Submit(call) => CallExtends(env, cfg, app, h, call.entry, call.fault);
    case Install(g) =>
      NotBehind(env, cfg, app, h, g, StateOf(env, cfg, app, h, None), StateOf(env, cfg, app, g, None));
  }

  /** Over every run of calls and restores the checkpoint never falls, and never changes in place. */
  lemma {:induction false} CheckpointNeverFalls(env: Env, cfg: Config, app: App, h: History, requests: seq<Request>)
    requires ValidHistory(env, cfg, app, h) && InstallsValid(env, cfg, app, requests)
    ensures var end := Handled(env, cfg, app, h, requests);
            && ValidHistory(env, cfg, app, end) && |h| <= |end|
            && (|h| == |end| ==> Checkpoint(env, cfg, app, h) == Checkpoint(env, cfg, app, end))
    decreases |requests|
  {
    if requests != [] {
      var front := requests[..|requests| - 1];
      hide ValidHistory, Handle, Checkpoint;
      CheckpointNeverFalls(env, cfg, app, h, front);
      HandleNeverFalls(env, cfg, app, Handled(env, cfg, app, h, front), requests[|requests| - 1]);
    }
  }

  /** The request delivers something of one committed log: one of its entries, or a snapshot of a prefix. */
  ghost predicate Delivers(log: seq<Entry>, request: Request) {
    match request
    case Submit(call) => call.entry in log
    case Install(g) => g <= log
  }

  /** An entry of the log that extends a prefix of the log is the next one. */
  lemma NextOfLog(env: Env, cfg: Config, app: App, log: History, h: History, e: Entry)
    requires ValidHistory(env, cfg, app, log) && h <= log && e in log && e.commit.sequence == cfg.initialSequence + |h|
    ensures h + [e] <= log
  {
    hide EffectAt;
    var i :| 0 <= i < |log| && log[i] == e;
  }

  lemma HandleFollows(env: Env, cfg: Config, app: App, log: History, h: History, request: Request)
    requires ValidHistory(env, cfg, app, log) && h <= log && Delivers(log, request)
    ensures Handle(env, cfg, app, h, request) <= log
  {
    hide Stale, Checkpoint, ValidHistory, AfterApply;
    PrefixValid(env, cfg, app, log, |h|);
    assert log[..|h|] == h;
    if request.Submit? {
      var call := request.call;
      CallExtends(env, cfg, app, h, call.entry, call.fault);
      if Handle(env, cfg, app, h, request) != h {
        NextOfLog(env, cfg, app, log, h, call.entry);
      }
    }
  }

  /**
  Replicas converge: whatever is delivered of one committed log, in whatever order, however often and
  with whatever faults and restores, the machine holds a prefix of that log.
  */
  lemma {:induction false} FollowsLog(env: Env, cfg: Config, app: App, log: History, requests: seq<Request>)
    requires ValidHistory(env, cfg, app, log)
    requires forall i :: 0 <= i < |requests| ==> Delivers(log, requests[i])
    ensures Handled(env, cfg, app, [], requests) <= log
    decreases |requests|
  {
    if requests != [] {
      var front := requests[..|requests| - 1];
      hide ValidHistory, Handle, Delivers;
      FollowsLog(env, cfg, app, log, front);
      HandleFollows(env, cfg, app, log, Handled(env, cfg, app, [], front), requests[|requests| - 1]);
    }
  }

  /** Two replicas at the same sequence have the same history, hence the same database but for the snapshot id. */
  lemma ReplicasAgree(env: Env, cfg: Config, app: App, log: History, a: seq<Request>, b: seq<Request>)
    requires ValidHistory(env, cfg, app, log)
    requires forall i :: 0 <= i < |a| ==> Delivers(log, a[i])
    requires forall i :: 0 <= i < |b| ==> Delivers(log, b[i])
    requires |Handled(env, cfg, app, [], a)| == |Handled(env, cfg, app, [], b)|
    ensures Handled(env, cfg, app, [], a) == Handled(env, cfg, app, [], b)
  {
    hide *;
    FollowsLog(env, cfg, app, log, a);
    FollowsLog(env, cfg, app, log, b);
  }
}
