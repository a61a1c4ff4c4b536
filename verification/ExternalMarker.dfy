/**
The dirty marker of the external state machine: a protocol between sessions that end in any way. A
step is one point of `open_inner`, of the writer loop or of its exit; the process may stop after any
of them, and a marker that is being written may be left as any prefix of its text.
*/
module ExternalMarker {
  import opened Base

  const DIRTY_FULL := "active-full\n"
  const DIRTY_NORMAL := "active-normal\n"
  const DIRTY_OFF := "active-replayable-off\n"
  const DIRTY_POISONED := "restore-in-progress\n"

  datatype Durability = Full | Normal | ReplayableOff

  function ActiveMarker(d: Durability): string {
    match d
    case Full => DIRTY_FULL
    case Normal => DIRTY_NORMAL
    case ReplayableOff => DIRTY_OFF
  }

  /** Anything but exactly the two durable markers. */
  predicate RebuildRequired(marker: Option<string>) {
    marker.Some? && marker.value != DIRTY_FULL && marker.value != DIRTY_NORMAL
  }

  datatype Phase =
    | Closed
    | Removing(d: Durability)
    | Marking(d: Durability, existed: bool)
    | Starting(d: Durability, existed: bool)
    | Connected(d: Durability, existed: bool)
    | Serving(d: Durability)
    | Restoring(d: Durability)
    | Restored(d: Durability)
    | Finalized(d: Durability)
    | Shut(d: Durability)
    | Synced(d: Durability)

  /**
  `torn`: a live restore began to overwrite the database and did not complete. `loose`: the database
  holds what a session without durability wrote, and no one made it durable. `owed`: a session was
  opened, and finalization, close and sync have not all happened. `stray`: an open without durability
  wrote to the database and failed.
  */
  datatype World = World(marker: Option<string>, phase: Phase, torn: bool, loose: bool, owed: bool, stray: bool)

  const FRESH := World(None, Closed, false, false, false, false)

  /** An interrupted or failed write: nothing happened, or a prefix of the text is in the file. */
  type Left = Option<string>

  predicate LeftOf(left: Left, text: string) {
    left.Some? ==> left.value <= text
  }

  datatype Step =
    | Open(d: Durability, rebuild: bool, adopt: bool)
    | FilesRemoved
    | Marked
    | MarkFails(left: Left)
    | PreflightRebuild
    | PreflightRebuildFails(left: Left)
    | PreflightFails
    | Connects
    | StartFails
    | Opens
    | Poisons(left: Left)
    | RestoreMarked
    | RestoreMarkFails(left: Left)
    | Copied
    | CopyFails
    | Reactivated
    | ReactivateFails(left: Left)
    | Finalizes
    | Closes
    | Syncs
    | Unmarks
    | ExitFails
    | Crash(left: Left)

  /** The marker after a write that may not have completed. */
  function Written(marker: Option<string>, left: Left): Option<string> {
    if left.Some? then left else marker
  }

  /** The guard of `open_inner` before it touches anything. */
  predicate Admits(w: World, rebuild: bool, adopt: bool) {
    && !(adopt && w.marker.Some?)
    && rebuild == RebuildRequired(w.marker)
  }

  /** Text being written when the process stops in this phase. */
  function Writing(p: Phase): Option<string> {
    match p
    case Marking(d, _) => Some(ActiveMarker(d))
    case Starting(_, _) => Some(DIRTY_POISONED)
    case Serving(_) => Some(DIRTY_POISONED)
    case Restored(d) => Some(ActiveMarker(d))
    case _ => None
  }

  predicate Enabled(w: World, step: Step) {
    match step
    case Open(_, _, _) => w.phase.Closed?
    case FilesRemoved => w.phase.Removing?
    case Marked => w.phase.Marking?
    case MarkFails(left) => w.phase.Marking? && LeftOf(left, ActiveMarker(w.phase.d))
    case PreflightRebuild => w.phase.Starting?
    case PreflightRebuildFails(left) => w.phase.Starting? && LeftOf(left, DIRTY_POISONED)
    case PreflightFails => w.phase.Starting?
    case Connects => w.phase.Starting?
    case StartFails => w.phase.Connected?
    case Opens => w.phase.Connected?
    case Poisons(left) => w.phase.Serving? && LeftOf(left, DIRTY_POISONED)
    case RestoreMarked => w.phase.Serving?
    case RestoreMarkFails(left) => w.phase.Serving? && LeftOf(left, DIRTY_POISONED)
    case Copied => w.phase.Restoring?
    case CopyFails => w.phase.Restoring?
    case Reactivated => w.phase.Restored?
    case ReactivateFails(left) => w.phase.Restored? && LeftOf(left, ActiveMarker(w.phase.d))
    case Finalizes => w.phase.Serving?
    case Closes => w.phase.Finalized?
    case Syncs => w.phase.Shut?
    case Unmarks => w.phase.Synced?
    case ExitFails => w.phase.Serving? || w.phase.Finalized? || w.phase.Shut? || w.phase.Synced?
    case Crash(left) =>
      && !w.phase.Closed?
      && (match Writing(w.phase) case None => left.None? case Some(text) => LeftOf(left, text))
  }

  /** The guard dropped on a failed open: it removes the marker this open created. */
  function Dropped(w: World, existed: bool, marker: Option<string>): World {
    w.(phase := Closed, marker := if existed then marker else None)
  }

  /** An open that is admitted goes on; a refusal changes nothing. */
  function Opened(w: World, d: Durability, rebuild: bool, adopt: bool): World {
    if !Admits(w, rebuild, adopt) then w
    else if rebuild then w.(phase := Removing(d))
    else w.(phase := Marking(d, w.marker.Some?))
  }

  function Do(w: World, step: Step): World
    requires Enabled(w, step)
  {
    match step
    case Open(d, rebuild, adopt) => Opened(w, d, rebuild, adopt)
    case FilesRemoved => World(w.marker, Marking(w.phase.d, true), false, false, false, false)
    case Marked => w.(phase := Starting(w.phase.d, w.phase.existed), marker := Some(ActiveMarker(w.phase.d)))
    case MarkFails(left) => Dropped(w, w.phase.existed, Written(w.marker, left))
    case PreflightRebuild => w.(phase := Closed, marker := Some(DIRTY_POISONED))
    case PreflightRebuildFails(left) => Dropped(w, w.phase.existed, Written(w.marker, left))
    case PreflightFails => Dropped(w, w.phase.existed, w.marker)
    case Connects => w.(phase := Connected(w.phase.d, w.phase.existed))
    case StartFails => Dropped(w, w.phase.existed, w.marker).(stray := w.stray || w.phase.d.ReplayableOff?)
    case Opens => w.(phase := Serving(w.phase.d), owed := true, loose := w.phase.d.ReplayableOff?)
    case Poisons(left) => w.(phase := Closed, marker := Written(w.marker, left))
    case RestoreMarked => w.(phase := Restoring(w.phase.d), marker := Some(DIRTY_POISONED), torn := true)
    case RestoreMarkFails(left) => w.(marker := Written(w.marker, left))
    case Copied => w.(phase := Restored(w.phase.d), torn := false)
    case CopyFails => w.(phase := Closed)
    case Reactivated => w.(phase := Serving(w.phase.d), marker := Some(ActiveMarker(w.phase.d)))
    case ReactivateFails(left) => w.(phase := Closed, marker := Written(w.marker, left))
    case Finalizes => w.(phase := Finalized(w.phase.d))
    case Closes => w.(phase := Shut(w.phase.d))
    case Syncs => w.(phase := Synced(w.phase.d), owed := false, loose := false, stray := false)
    case Unmarks => w.(phase := Closed, marker := None)
    case ExitFails => w.(phase := Closed)
    case Crash(left) => w.(phase := Closed, marker := Written(w.marker, left))
  }

  /** A session is running, with this durability. */
  predicate Running(p: Phase) {
    p.Serving? || p.Restoring? || p.Restored? || p.Finalized? || p.Shut?
  }

  predicate Opening(p: Phase) {
    p.Marking? || p.Starting? || p.Connected?
  }

  ghost predicate Inv(w: World) {
    && (w.torn || w.loose ==> RebuildRequired(w.marker))
    && (w.owed ==> w.marker.Some?)
    && (w.torn ==> w.phase.Closed? || w.phase.Removing? || w.phase.Restoring?)
    && (Running(w.phase) ==> w.owed && (w.loose <==> w.phase.d.ReplayableOff?))
    && (w.phase.Restoring? || w.phase.Restored? ==> w.marker == Some(DIRTY_POISONED))
    && (Opening(w.phase) ==> !w.loose && (!w.phase.existed ==> !w.owed))
    && (w.phase.Removing? ==> RebuildRequired(w.marker))
    && (w.phase.Marking? ==> w.phase.existed == w.marker.Some?)
    && (w.phase.Starting? || w.phase.Connected? ==> w.marker == Some(ActiveMarker(w.phase.d)))
    && (w.phase.Synced? ==> !w.owed && !w.loose)
  }

  /**
  No part of a text that demands a rebuild reads as a durable marker, nor does a proper part of one
  that does not.
  */
  lemma PrefixesFailClosed(part: string, d: Durability)
    ensures part <= DIRTY_POISONED || part <= DIRTY_OFF ==> RebuildRequired(Some(part))
    ensures part <= ActiveMarker(d) ==>
      (RebuildRequired(Some(part)) <==> !(part == ActiveMarker(d) && !d.ReplayableOff?))
  {
    assert DIRTY_FULL[7] == 'f' && DIRTY_NORMAL[7] == 'n' && DIRTY_OFF[7] == 'r';
    assert DIRTY_POISONED[0] == 'r' && DIRTY_FULL[0] == 'a' && DIRTY_NORMAL[0] == 'a';
    assert |DIRTY_FULL| == 12 && |DIRTY_NORMAL| == 14;
    assert part <= DIRTY_OFF && |part| > 7 ==> part[7] == 'r';
    assert part <= DIRTY_NORMAL && |part| > 7 ==> part[7] == 'n';
    assert part <= DIRTY_FULL && |part| > 7 ==> part[7] == 'f';
  }

  lemma StepKeepsInv(w: World, step: Step)
    requires Inv(w) && Enabled(w, step)
    ensures Inv(Do(w, step))
  {
    forall part, d | part <= DIRTY_POISONED || part <= ActiveMarker(d)
      ensures part <= DIRTY_POISONED || part <= DIRTY_OFF ==> RebuildRequired(Some(part))
    {
      PrefixesFailClosed(part, d);
    }
  }

  ghost predicate Legal(w: World, steps: seq<Step>)
    decreases |steps|
  {
    steps == [] || (Enabled(w, steps[0]) && Legal(Do(w, steps[0]), steps[1..]))
  }

  ghost function Run(w: World, steps: seq<Step>): World
    requires Legal(w, steps)
    decreases |steps|
  {
    if steps == [] then w else Run(Do(w, steps[0]), steps[1..])
  }

  lemma {:induction false} RunKeepsInv(w: World, steps: seq<Step>)
    requires Inv(w) && Legal(w, steps)
    ensures Inv(Run(w, steps))
    decreases |steps|
  {
    hide Do, Enabled, Inv;
    if steps != [] {
      StepKeepsInv(w, steps[0]);
      RunKeepsInv(Do(w, steps[0]), steps[1..]);
    }
  }

  /**
  Fail closed: after any run, an open that does not rebuild refuses a database left by an interrupted
  restore or by an unclean session without durability; and wherever an open succeeds, the database is
  neither.
  */
  lemma FailsClosed(steps: seq<Step>, d: Durability, adopt: bool)
    requires Legal(FRESH, steps)
    ensures var w := Run(FRESH, steps);
            && ((w.torn || w.loose) && w.phase.Closed? ==> Do(w, Open(d, false, adopt)) == w)
            && (Opening(w.phase) ==> !w.torn && !w.loose)
            && (w.phase.Serving? ==> !w.torn)
  {
    RunKeepsInv(FRESH, steps);
  }

  /** A marker is missing only if every session that was opened was finalized, closed and synced. */
  lemma MissingMarkerIsClean(steps: seq<Step>)
    requires Legal(FRESH, steps)
    ensures var w := Run(FRESH, steps);
            w.marker.None? ==> !w.owed && !w.torn && !w.loose && !Running(w.phase)
  {
    RunKeepsInv(FRESH, steps);
  }

  /**
  A restore that fails leaves a marker that demands a rebuild, except in one case: the copy was
  complete and the text of a durable marker had been written back whole when the write reported its
  error.
  */
  lemma FailedRestoreExact(steps: seq<Step>, step: Step)
    requires Legal(FRESH, steps) && Enabled(Run(FRESH, steps), step) && (step.CopyFails? || step.ReactivateFails?)
    ensures var w := Run(FRESH, steps);
            RebuildRequired(Do(w, step).marker) <==>
            !(step.ReactivateFails? && step.left == Some(ActiveMarker(w.phase.d)) && !w.phase.d.ReplayableOff?)
  {
    RunKeepsInv(FRESH, steps);
    var w := Run(FRESH, steps);
    if step.ReactivateFails? && step.left.Some? {
      PrefixesFailClosed(step.left.value, w.phase.d);
    }
  }

  // ---- what goes on

  /** Markers after which the database may be opened as it is: none, or one of a durable session. */
  predicate Reusable(marker: Option<string>) {
    marker in {None, Some("active-full\n"), Some("active-normal\n")}
  }

  /**
  Exactly one of open and rebuild goes on in every closed world: the plain open if the marker is
  reusable, the rebuild if it is not. An adoption needs a directory without a marker.
  */
  lemma OpenExact(w: World, d: Durability)
    requires w.phase.Closed?
    ensures Do(w, Open(d, false, false)) == if Reusable(w.marker) then w.(phase := Marking(d, w.marker.Some?)) else w
    ensures Do(w, Open(d, true, false)) == if Reusable(w.marker) then w else w.(phase := Removing(d))
    ensures Do(w, Open(d, false, true)) == if w.marker.None? then w.(phase := Marking(d, false)) else w
    ensures Do(w, Open(d, true, true)) == w
  {
  }

  /** The way into service from a closed world. */
  function Entering(w: World, d: Durability): seq<Step> {
    if Reusable(w.marker) then [Open(d, false, false), Marked, Connects, Opens]
    else [Open(d, true, false), FilesRemoved, Marked, Connects, Opens]
  }

  lemma {:induction false} RunCons(w: World, step: Step, steps: seq<Step>)
    requires Enabled(w, step) && Legal(Do(w, step), steps)
    ensures Legal(w, [step] + steps) && Run(w, [step] + steps) == Run(Do(w, step), steps)
  {
    assert ([step] + steps)[1..] == steps;
  }

  lemma RunNothing(w: World)
    ensures Legal(w, []) && Run(w, []) == w
  {
  }

  /**
  Every closed world can be brought into service, whatever its marker says: by an open, or by a rebuild
  that removes the files first. The session then has the marker of its durability, and its database is
  not one that an interrupted restore left.
  */
  lemma AlwaysOpens(w: World, d: Durability)
    requires w.phase.Closed?
    ensures Legal(w, Entering(w, d))
    ensures var s := Run(w, Entering(w, d));
      && s.phase == Serving(d) && s.marker == Some(ActiveMarker(d)) && s.owed
      && (!Reusable(w.marker) || Inv(w) ==> !s.torn && (s.loose <==> d.ReplayableOff?))
  {
    hide Legal, Run;
    OpenExact(w, d);
    var reusable := Reusable(w.marker);
    var w1 := Do(w, Open(d, !reusable, false));
    var rest := [Marked, Connects, Opens];
    if reusable {
      FromMarking(w1);
      RunCons(w, Open(d, false, false), rest);
      assert [Open(d, false, false)] + rest == Entering(w, d);
    } else {
      FromMarking(Do(w1, FilesRemoved));
      RunCons(w1, FilesRemoved, rest);
      RunCons(w, Open(d, true, false), [FilesRemoved] + rest);
      assert [Open(d, true, false)] + ([FilesRemoved] + rest) == Entering(w, d);
    }
  }

  lemma FromMarking(w: World)
    requires w.phase.Marking?
    ensures var steps, d := [Marked, Connects, Opens], w.phase.d;
      && Legal(w, steps)
      && Run(w, steps) ==
         World(Some(ActiveMarker(d)), Serving(d), w.torn, d.ReplayableOff?, true, w.stray)
  {
    hide Legal, Run;
    assert [Opens] + [] == [Opens] && [Connects] + [Opens] == [Connects, Opens];
    assert [Marked] + [Connects, Opens] == [Marked, Connects, Opens];
    var w1 := Do(w, Marked);
    var w2 := Do(w1, Connects);
    var w3 := Do(w2, Opens);
    RunNothing(w3);
    RunCons(w2, Opens, []);
    RunCons(w1, Connects, [Opens]);
    RunCons(w, Marked, [Connects, Opens]);
  }

  /** A session that is finalized, closed and synced leaves no marker and owes nothing. */
  lemma CleanExit(w: World)
    requires w.phase.Serving?
    ensures var steps := [Finalizes, Closes, Syncs, Unmarks];
      Legal(w, steps) && Run(w, steps) == World(None, Closed, w.torn, false, false, false)
  {
    hide Legal, Run;
    assert [Unmarks] + [] == [Unmarks] && [Syncs] + [Unmarks] == [Syncs, Unmarks];
    assert [Closes] + [Syncs, Unmarks] == [Closes, Syncs, Unmarks];
    assert [Finalizes] + [Closes, Syncs, Unmarks] == [Finalizes, Closes, Syncs, Unmarks];
    var w1 := Do(w, Finalizes);
    var w2 := Do(w1, Closes);
    var w3 := Do(w2, Syncs);
    var w4 := Do(w3, Unmarks);
    assert w4 == World(None, Closed, w.torn, false, false, false);
    RunNothing(w4);
    RunCons(w3, Unmarks, []);
    RunCons(w2, Syncs, [Unmarks]);
    RunCons(w1, Closes, [Syncs, Unmarks]);
    RunCons(w, Finalizes, [Closes, Syncs, Unmarks]);
  }

  /** A restore that completes goes on serving, under the marker of the session. */
  lemma CompletedRestore(w: World)
    requires w.phase.Serving?
    ensures var steps := [RestoreMarked, Copied, Reactivated];
      Legal(w, steps) && Run(w, steps) == w.(marker := Some(ActiveMarker(w.phase.d)), torn := false)
  {
    hide Legal, Run;
    assert [Reactivated] + [] == [Reactivated] && [Copied] + [Reactivated] == [Copied, Reactivated];
    assert [RestoreMarked] + [Copied, Reactivated] == [RestoreMarked, Copied, Reactivated];
    var w1 := Do(w, RestoreMarked);
    var w2 := Do(w1, Copied);
    var w3 := Do(w2, Reactivated);
    assert w3 == w.(marker := Some(ActiveMarker(w.phase.d)), torn := false);
    RunNothing(w3);
    RunCons(w2, Reactivated, []);
    RunCons(w1, Copied, [Reactivated]);
    RunCons(w, RestoreMarked, [Copied, Reactivated]);
  }

  /** After a crash of a session that was not writing a marker, the next open goes on unless nothing was durable. */
  lemma CrashReopens(w: World, d: Durability)
    requires w.phase.Serving? && w.marker == Some(ActiveMarker(w.phase.d))
    ensures var c := Do(w, Crash(None));
      && c.phase.Closed? && c.marker == w.marker
      && (Do(c, Open(d, false, false)).phase.Marking? <==> !w.phase.d.ReplayableOff?)
      && (Do(c, Open(d, true, false)).phase.Removing? <==> w.phase.d.ReplayableOff?)
  {
    PrefixesFailClosed(w.marker.value, w.phase.d);
  }

  /**
  What a failed open leaves. A check that finds the database unusable demands a rebuild from then on;
  any other failure takes away the marker this open made, and only that one.
  */
  lemma FailedOpenExact(w: World, step: Step)
    requires Inv(w) && Enabled(w, step)
    ensures step.PreflightRebuild? ==>
      Do(w, step).phase.Closed? && Do(w, step).marker == Some("restore-in-progress\n") && !Reusable(Do(w, step).marker)
    ensures step.MarkFails? || step.PreflightRebuildFails? || step.PreflightFails? || step.StartFails? ==>
      Do(w, step).phase.Closed? && (Do(w, step).marker.Some? <==> w.phase.existed)
    ensures (step.PreflightFails? || step.StartFails?) && w.phase.existed ==> Do(w, step).marker == w.marker
  {
  }

  /** Writes of an open that failed are marked like those of an unclean session. */
  ghost predicate StrayMarked(w: World) {
    && (w.stray ==> RebuildRequired(w.marker))
    && (Opening(w.phase) || Running(w.phase) || w.phase.Synced? ==> !w.stray)
  }

  /**
  One step takes the marker away from writes nobody made durable: an open without durability that
  found no marker and fails after connecting. No other step does.
  */
  lemma StrayExact(w: World, step: Step)
    requires Inv(w) && StrayMarked(w) && Enabled(w, step)
    ensures StrayMarked(Do(w, step)) <==> !(step.StartFails? && w.phase.d.ReplayableOff? && !w.phase.existed)
  {
    if step.StartFails? && w.phase.d.ReplayableOff? && w.phase.existed {
      PrefixesFailClosed(DIRTY_OFF, ReplayableOff);
    }
  }

  lemma StrayWitness()
    ensures var steps := [Open(ReplayableOff, false, false), Marked, Connects, StartFails];
            Legal(FRESH, steps) && Run(FRESH, steps).stray && Run(FRESH, steps).marker.None?
  {
    var w1 := Do(FRESH, Open(ReplayableOff, false, false));
    var w2 := Do(w1, Marked);
    var w3 := Do(w2, Connects);
    var w4 := Do(w3, StartFails);
    assert Legal(w4, []) && Run(w4, []) == w4;
    assert Legal(w3, [StartFails]) && Run(w3, [StartFails]) == w4;
    assert Legal(w2, [Connects, StartFails]) && Run(w2, [Connects, StartFails]) == w4 by {
      assert [Connects, StartFails][1..] == [StartFails];
    }
    assert Legal(w1, [Marked, Connects, StartFails]) && Run(w1, [Marked, Connects, StartFails]) == w4 by {
      assert [Marked, Connects, StartFails][1..] == [Connects, StartFails];
    }
    var steps := [Open(ReplayableOff, false, false), Marked, Connects, StartFails];
    assert steps[1..] == [Marked, Connects, StartFails];
  }
}
