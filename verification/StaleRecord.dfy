/** What release_txn.stale_reason reports, against what the attempt it looks at can
    still do: a text in live.json or previous.json is reported exactly when the
    attempt neither expects it nor can leave it, but for texts it could only have
    left earlier. */
module StaleRecord {
  import opened Options
  import opened ReleaseKeep
  import opened ReleaseTxn
  import opened InstallRun

  /** A step of the attempt whose record is open, with which it stays open. */
  predicate OwnStep(e: Event) {
    !e.Open? && !e.Supersede? && !(e.Close? && e.step >= 2)
  }

  predicate OwnRun(w: World, es: seq<Event>) {
    Legal(w, es) && forall i :: 0 <= i < |es| ==> OwnStep(es[i])
  }

  /** Some run of its own steps, finished or cut, leaves this live.json. */
  ghost predicate LeavesLive(w: World, live: Option<Text>) {
    exists es :: OwnRun(w, es) && After(w, es).live == live
  }

  ghost predicate LeavesPrevious(w: World, text: Text) {
    exists es :: OwnRun(w, es) && After(w, es).slots.meta == Some(text)
  }

  function ReplacedLive(t: Txn): Option<Text> {
    if t.replacedRef.Some? then Some(LiveText(t.replacedRef.value)) else None
  }

  // ---------------------------------------------------------------------
  // What the attempt can still do
  // ---------------------------------------------------------------------

  /** A keep can finish: previous/ was found a directory, or absent. */
  predicate CanFinishKeep(w: World) {
    !IsNotDir(w.found.previous)
  }

  /** It is installing its code, or can get there. */
  predicate CanInstall(w: World)
    requires w.record.Some?
  {
    var t := w.record.value;
    if IsRollback(t) then t.phase.Committed?
    else
      || t.phase.PreviousKept? || t.phase.Installed? || t.phase.HookStarted?
      || (t.phase.Committed? && (t.replacedRef.None? || CanFinishKeep(w)))
  }

  /** --abandon is putting the replaced code back, or can get there. */
  predicate CanPutBack(w: World)
    requires w.record.Some?
  {
    var t := w.record.value;
    !IsRollback(t)
    && (t.phase.Abandoning? || (t.phase.Committed? && CanInstall(w))
        || ((t.phase.PreviousKept? || t.phase.Installed?) && !t.DataMayHaveChanged()))
  }

  /** It can write the previous.json that pairs the release it keeps. */
  predicate CanPair(w: World)
    requires w.record.Some?
  {
    var t := w.record.value;
    !IsRollback(t) && t.replacedRef.Some? && !t.Abandons()
    && if t.phase.Committed? then CanFinishKeep(w) else t.Reached(PreviousKept) && IsDir(w.slots.previous)
  }

  /** It can undo its keep. */
  predicate CanUndo(w: World)
    requires w.record.Some?
  {
    var t := w.record.value;
    !IsRollback(t) && (t.phase.Committed? || t.Abandons()
                       || ((t.phase.PreviousKept? || t.phase.Installed?) && !t.DataMayHaveChanged()))
  }

  // ---------------------------------------------------------------------
  // No run leaves more
  // ---------------------------------------------------------------------

  /** The same attempt, able to do no more than before. */
  predicate Narrows(w: World, n: World) {
    && w.record.Some? && n.record.Some?
    && var t, u := w.record.value, n.record.value;
       && u == t.(phase := u.phase, expected := u.expected)
       && (CanInstall(n) ==> CanInstall(w)) && (CanPutBack(n) ==> CanPutBack(w))
       && (CanPair(n) ==> CanPair(w)) && (CanUndo(n) ==> CanUndo(w))
  }

  lemma RecordStepNarrows(w: World, e: Event)
    requires Inv(w) && w.record.Some? && Enabled(w, e) && (e.Advance? || e.Mark?)
    ensures Narrows(w, Next(w, e))
  {
    if e.Advance? && w.record.value.phase.Committed? && CanInstall(Next(w, e)) {
      assert IsNotDir(w.found.previous) && !IsRollback(w.record.value) ==> w.slots == w.found;
    }
  }

  lemma FileStepNarrows(w: World, e: Event)
    requires Inv(w) && w.record.Some? && Enabled(w, e) && OwnStep(e) && !e.Advance? && !e.Mark?
    ensures Narrows(w, Next(w, e))
  {
    assert Next(w, e).record == w.record && Next(w, e).found == w.found;
  }

  lemma StepNarrows(w: World, e: Event)
    requires Inv(w) && w.record.Some? && Enabled(w, e) && OwnStep(e)
    ensures Narrows(w, Next(w, e))
  {
    if e.Advance? || e.Mark? {
      RecordStepNarrows(w, e);
    } else {
      FileStepNarrows(w, e);
    }
  }

  predicate LiveWithin(w: World, live: Option<Text>)
    requires w.record.Some?
  {
    var t := w.record.value;
    live == w.live || (CanInstall(w) && live == Some(LiveText(t.ref))) || (CanPutBack(w) && live == ReplacedLive(t))
  }

  lemma StepLive(w: World, e: Event)
    requires Inv(w) && w.record.Some? && Enabled(w, e) && OwnStep(e)
    ensures LiveWithin(w, Next(w, e).live)
  {
  }

  lemma {:induction false} OwnRunsLive(w: World, es: seq<Event>)
    requires Inv(w) && w.record.Some? && OwnRun(w, es)
    ensures LiveWithin(w, After(w, es).live)
    decreases |es|
  {
    if es != [] {
      assert OwnStep(es[0]);
      StepKeepsInv(w, es[0]);
      StepNarrows(w, es[0]);
      StepLive(w, es[0]);
      assert forall i :: 0 <= i < |es[1..]| ==> es[1..][i] == es[i + 1];
      OwnRunsLive(Next(w, es[0]), es[1..]);
    }
  }

  predicate MetaWithin(w: World, meta: Option<Text>)
    requires w.record.Some?
  {
    var t := w.record.value;
    || meta.None? || meta == w.slots.meta
    || (CanPair(w) && meta == Some(KeptText(t))) || (CanUndo(w) && meta == t.previousBefore)
  }

  lemma StepMeta(w: World, e: Event)
    requires Inv(w) && w.record.Some? && Enabled(w, e) && OwnStep(e)
    ensures MetaWithin(w, Next(w, e).slots.meta)
  {
    if e.KeepOrUndo? {
      VisitMeta(w.slots, w.found, e.v, w.record.value);
      if e.v.UndoThenKeep? {
        RestoreStaysUndoable(w.slots, w.found, e.v.undoStop);
      }
    }
  }

  lemma {:induction false} OwnRunsMeta(w: World, es: seq<Event>)
    requires Inv(w) && w.record.Some? && OwnRun(w, es)
    ensures MetaWithin(w, After(w, es).slots.meta)
    decreases |es|
  {
    if es != [] {
      assert OwnStep(es[0]);
      StepKeepsInv(w, es[0]);
      StepNarrows(w, es[0]);
      StepMeta(w, es[0]);
      assert forall i :: 0 <= i < |es[1..]| ==> es[1..][i] == es[i + 1];
      OwnRunsMeta(Next(w, es[0]), es[1..]);
    }
  }

  // ---------------------------------------------------------------------
  // Some run leaves each of these
  // ---------------------------------------------------------------------

  lemma First(w: World, e: Event, es: seq<Event>)
    requires w.record.Some? && Enabled(w, e) && OwnStep(e) && OwnRun(Next(w, e), es)
    ensures OwnRun(w, [e] + es) && After(w, [e] + es) == After(Next(w, e), es)
  {
    assert ([e] + es)[1..] == es;
  }

  lemma Only(w: World, e: Event)
    requires w.record.Some? && Enabled(w, e) && OwnStep(e)
    ensures OwnRun(w, [e]) && After(w, [e]) == Next(w, e)
  {
    assert OwnRun(Next(w, e), []) && After(Next(w, e), []) == Next(w, e);
    First(w, e, []);
    assert [e] + [] == [e];
  }

  lemma {:induction false} Joined(w: World, a: seq<Event>, b: seq<Event>)
    requires OwnRun(w, a) && OwnRun(After(w, a), b)
    ensures OwnRun(w, a + b) && After(w, a + b) == After(After(w, a), b)
    decreases |a|
  {
    if a == [] {
      assert a + b == b;
    } else {
      assert OwnStep(a[0]) && forall i :: 0 <= i < |a[1..]| ==> a[1..][i] == a[i + 1];
      Joined(Next(w, a[0]), a[1..], b);
      assert (a + b)[1..] == a[1..] + b;
      assert forall i :: 0 <= i < |a + b| ==> OwnStep((a + b)[i]);
    }
  }

  /** From committed, through the whole keep when a release is replaced. */
  lemma ToPreviousKept(w: World) returns (es: seq<Event>)
    requires Inv(w) && w.record.Some? && w.record.value.phase.Committed? && !IsRollback(w.record.value) && CanInstall(w)
    ensures OwnRun(w, es)
    ensures var n, t := After(w, es), w.record.value;
            && Inv(n) && n.record.Some? && n.record.value.phase.PreviousKept? && !n.record.value.DataMayHaveChanged()
            && n.record.value == t.(phase := PreviousKept, expected := n.record.value.expected)
            && (t.replacedRef.Some? ==> n.slots.meta == Some(KeptText(t)))
  {
    var t := w.record.value;
    var step := Advance(PreviousKept);
    if t.replacedRef.None? {
      StepKeepsInv(w, step);
      Only(w, step);
      es := [step];
    } else {
      var keep := KeepOrUndo(UndoThenKeep(4, 4, w.code, KeptText(t)));
      RestoreStaysUndoable(w.slots, w.found, 4);
      var kept := Next(w, keep);
      assert kept.slots == KeepStages(w.found, w.code, KeptText(t))[4];
      StepKeepsInv(w, keep);
      StepKeepsInv(kept, step);
      Only(kept, step);
      First(w, keep, [step]);
      es := [keep] + [step];
    }
  }

  lemma MarkingLive(w: World, es: seq<Event>)
    requires OwnRun(w, es) && After(w, es).record.Some? && Installs(After(w, es).record.value)
    ensures LeavesLive(w, LiveAfter(After(w, es).record.value))
  {
    Only(After(w, es), MarkLive);
    Joined(w, es, [MarkLive]);
  }

  lemma InstallLeaves(w: World)
    requires Inv(w) && w.record.Some? && CanInstall(w)
    ensures LeavesLive(w, Some(LiveText(w.record.value.ref)))
  {
    var es := [];
    if w.record.value.phase.Committed? && !IsRollback(w.record.value) {
      es := ToPreviousKept(w);
    }
    MarkingLive(w, es);
  }

  /** To the checkpoint from which --abandon puts the replaced code back. */
  lemma ToAbandoning(w: World) returns (es: seq<Event>)
    requires Inv(w) && w.record.Some? && CanPutBack(w)
    ensures OwnRun(w, es)
    ensures var n := After(w, es);
            && Inv(n) && n.record.Some? && n.record.value.phase.Abandoning?
            && n.record.value == w.record.value.(phase := Abandoning, expected := n.record.value.expected)
  {
    es := [];
    if w.record.value.phase.Committed? {
      es := ToPreviousKept(w);
    }
    var n := After(w, es);
    if !n.record.value.phase.Abandoning? {
      StepKeepsInv(n, Mark(Abandoning));
      Only(n, Mark(Abandoning));
      Joined(w, es, [Mark(Abandoning)]);
      es := es + [Mark(Abandoning)];
    }
  }

  lemma PuttingBackLeaves(w: World)
    requires Inv(w) && w.record.Some? && CanPutBack(w)
    ensures LeavesLive(w, ReplacedLive(w.record.value))
  {
    var es := ToAbandoning(w);
    MarkingLive(w, es);
  }

  lemma PairingLeaves(w: World)
    requires Inv(w) && w.record.Some? && CanPair(w)
    ensures LeavesPrevious(w, KeptText(w.record.value))
  {
    if w.record.value.phase.Committed? {
      var es := ToPreviousKept(w);
      assert After(w, es).slots.meta == Some(KeptText(w.record.value));
    } else {
      Only(w, Pair);
      assert After(w, [Pair]).slots.meta == Some(KeptText(w.record.value));
    }
  }

  /** At committed or abandoned_code, the undo run to its end. */
  lemma UndoingLeaves(w: World)
    requires Inv(w) && w.record.Some? && !IsRollback(w.record.value)
    requires w.record.value.phase.Committed? || w.record.value.phase.AbandonedCode?
    ensures OwnRun(w, [KeepOrUndo(Undo(4))]) && After(w, [KeepOrUndo(Undo(4))]).slots == w.found
    ensures w.found.meta == w.record.value.previousBefore
  {
    RestoreStaysUndoable(w.slots, w.found, 4);
    Only(w, KeepOrUndo(Undo(4)));
  }

  /** From abandoning, the code put back and the next checkpoint. */
  lemma ToAbandonedCode(w: World) returns (es: seq<Event>)
    requires Inv(w) && w.record.Some? && w.record.value.phase.Abandoning?
    ensures OwnRun(w, es)
    ensures var n := After(w, es);
            && Inv(n) && n.record.Some? && n.record.value.phase.AbandonedCode?
            && n.record.value == w.record.value.(phase := AbandonedCode, expected := n.record.value.expected)
  {
    var t := w.record.value;
    var back: Tree := if t.replacedRef.Some? then w.base.value else map[];
    var put := ChangeCode(back);
    StepKeepsInv(w, put);
    var n := Next(w, put);
    StepKeepsInv(n, Mark(AbandonedCode));
    Only(n, Mark(AbandonedCode));
    First(w, put, [Mark(AbandonedCode)]);
    es := [put] + [Mark(AbandonedCode)];
  }

  lemma UndoLeaves(w: World)
    requires Inv(w) && w.record.Some? && CanUndo(w) && w.record.value.previousBefore.Some?
    ensures LeavesPrevious(w, w.record.value.previousBefore.value)
  {
    var es: seq<Event> := [];
    if !w.record.value.phase.Committed? && !w.record.value.phase.AbandonedCode? {
      es := ToAbandoning(w);
      var more := ToAbandonedCode(After(w, es));
      Joined(w, es, more);
      es := es + more;
    }
    var n, undo := After(w, es), [KeepOrUndo(Undo(4))];
    UndoingLeaves(n);
    Joined(w, es, undo);
    assert After(w, es + undo).slots.meta == w.record.value.previousBefore;
  }

  // ---------------------------------------------------------------------
  // Exactly what is reported
  // ---------------------------------------------------------------------

  /** What the attempt can leave in live.json: what is there, its own release once
      it can install it, the replaced one while it can put it back. */
  lemma LivesLeftExactly(w: World, live: Option<Text>)
    requires Inv(w) && w.record.Some?
    ensures LeavesLive(w, live) <==> LiveWithin(w, live)
  {
    if LeavesLive(w, live) {
      var es :| OwnRun(w, es) && After(w, es).live == live;
      OwnRunsLive(w, es);
    }
    assert OwnRun(w, []) && After(w, []) == w;
    if CanInstall(w) {
      InstallLeaves(w);
    }
    if CanPutBack(w) {
      PuttingBackLeaves(w);
    }
  }

  lemma PreviousLeftExactly(w: World, text: Text)
    requires Inv(w) && w.record.Some?
    ensures LeavesPrevious(w, text) <==> MetaWithin(w, Some(text))
  {
    if LeavesPrevious(w, text) {
      var es :| OwnRun(w, es) && After(w, es).slots.meta == Some(text);
      OwnRunsMeta(w, es);
    }
    assert OwnRun(w, []) && After(w, []) == w;
    if CanPair(w) {
      PairingLeaves(w);
    }
    if CanUndo(w) && w.record.value.previousBefore.Some? {
      UndoLeaves(w);
    }
  }

  /** A text of this attempt that it can no longer leave. */
  predicate TooLateLive(w: World, live: Option<Text>)
    requires w.record.Some?
  {
    var t := w.record.value;
    (live == Some(LiveText(t.ref)) && !CanInstall(w)) || (live == ReplacedLive(t) && !CanPutBack(w))
  }

  predicate TooLatePrevious(w: World, text: Text)
    requires w.record.Some?
  {
    var t := w.record.value;
    (text == KeptText(t) && !CanPair(w)) || (Some(text) == t.previousBefore && !CanUndo(w))
  }

  /** In any state of any run with an open install: a live.json put there from
      outside is reported if and only if the record does not expect it, no run of
      the attempt's own steps leaves it, and it is not one of the attempt's two
      texts that it can no longer leave. */
  lemma OutsideLiveIsReportedExactlyWhen(start: World, es: seq<Event>, live: Option<Text>)
    requires Idle(start) && Legal(start, es) && After(start, es).record.Some?
    ensures var w := After(start, es);
            var t := w.record.value;
            LiveChanged in StaleProblems(t, live, w.slots)
            <==> live != t.expected.live && !LeavesLive(w, live) && !TooLateLive(w, live)
  {
    RunKeepsInv(start, es);
    LivesLeftExactly(After(start, es), live);
  }

  /** The same for previous.json. */
  lemma OutsidePreviousIsReportedExactlyWhen(start: World, es: seq<Event>, text: Text)
    requires Idle(start) && Legal(start, es) && After(start, es).record.Some?
    ensures var w := After(start, es);
            var t := w.record.value;
            PreviousChanged in StaleProblems(t, w.live, w.slots.(meta := Some(text)))
            <==> Some(text) != t.expected.previous && !LeavesPrevious(w, text) && !TooLatePrevious(w, text)
  {
    RunKeepsInv(start, es);
    PreviousLeftExactly(After(start, es), text);
  }

  /** Some run of its own steps leaves previous.json missing, with this moved aside,
      and the record as it is. */
  ghost predicate LeavesNone(w: World, aside: Option<Text>) {
    exists es :: OwnRun(w, es) && After(w, es).record == w.record
                 && After(w, es).slots.meta.None? && After(w, es).slots.superMeta == aside
  }

  /** When that can be, phase by phase: at committed, a keep or an undo moves it; at
      abandoned_code, an undo does; a rollback drops it while switching; otherwise it
      is missing already. */
  predicate NoneWithin(w: World, aside: Option<Text>)
    requires w.record.Some?
  {
    var t := w.record.value;
    if !IsRollback(t) && (t.phase.Committed? || t.phase.AbandonedCode?) then
      aside == t.previousBefore
      && (aside.None? || w.slots.superMeta.Some?
          || (t.phase.Committed? && t.replacedRef.Some? && CanFinishKeep(w)))
    else
      (w.slots.meta.None? || (IsRollback(t) && t.phase.Switching?))
      && (aside == w.slots.superMeta || (t.phase.Switching? && aside.None?))
  }

  /** A step that leaves the record alone can make no more missing than before. */
  lemma StepNone(w: World, e: Event, aside: Option<Text>)
    requires Inv(w) && w.record.Some? && Enabled(w, e) && OwnStep(e) && Next(w, e).record == w.record
    ensures NoneWithin(Next(w, e), aside) ==> NoneWithin(w, aside)
  {
    if e.KeepOrUndo? {
      VisitNone(w, e, aside);
    }
  }

  lemma VisitNone(w: World, e: Event, aside: Option<Text>)
    requires Inv(w) && w.record.Some? && Enabled(w, e) && e.KeepOrUndo?
    ensures NoneWithin(Next(w, e), aside) ==> NoneWithin(w, aside)
  {
    var stop := if e.v.Undo? then e.v.stop else e.v.undoStop;
    RestoreStaysUndoable(w.slots, w.found, stop);
    var stages := RestoreStages(w.slots, IsDir(w.found.previous), w.found.meta);
    var i := if stop < |stages| then stop else |stages| - 1;
    assert i == 0 || i == 1 || i == 2 || i == 3 || i == 4;
    assert CutAt(stages, stop).superMeta.Some? ==> w.slots.superMeta.Some?;
  }

  function Rank(phase: Phase): nat {
    if phase.AbandonedCode? then 7 else Position(phase)
  }

  lemma StepMovesOn(w: World, e: Event)
    requires Inv(w) && w.record.Some? && Enabled(w, e) && OwnStep(e)
    ensures var n := Next(w, e);
            && n.record.Some?
            && (n.record == w.record || Rank(w.record.value.phase) < Rank(n.record.value.phase))
  {
  }

  lemma Rest(w: World, es: seq<Event>)
    requires OwnRun(w, es) && es != []
    ensures Enabled(w, es[0]) && OwnStep(es[0]) && OwnRun(Next(w, es[0]), es[1..])
    ensures After(w, es) == After(Next(w, es[0]), es[1..])
  {
    assert forall i :: 0 <= i < |es[1..]| ==> es[1..][i] == es[i + 1];
  }

  /** Phases only move on. */
  lemma {:induction false} OwnRunsMoveOn(w: World, es: seq<Event>)
    requires Inv(w) && w.record.Some? && OwnRun(w, es)
    ensures After(w, es).record.Some?
    ensures Rank(w.record.value.phase) <= Rank(After(w, es).record.value.phase)
    decreases |es|
  {
    if es != [] {
      Rest(w, es);
      StepKeepsInv(w, es[0]);
      StepMovesOn(w, es[0]);
      OwnRunsMoveOn(Next(w, es[0]), es[1..]);
    }
  }

  /** So a run that ends with the same record kept it throughout. */
  lemma RecordStays(w: World, es: seq<Event>)
    requires Inv(w) && w.record.Some? && OwnRun(w, es) && es != [] && After(w, es).record == w.record
    ensures Enabled(w, es[0]) && Next(w, es[0]).record == w.record && Inv(Next(w, es[0]))
  {
    Rest(w, es);
    StepKeepsInv(w, es[0]);
    StepMovesOn(w, es[0]);
    OwnRunsMoveOn(Next(w, es[0]), es[1..]);
  }

  predicate IsMissing(s: Slots, aside: Option<Text>) {
    s.meta.None? && s.superMeta == aside
  }

  lemma MissingNow(w: World, aside: Option<Text>)
    requires Inv(w) && w.record.Some? && IsMissing(w.slots, aside)
    ensures NoneWithin(w, aside)
  {
  }

  lemma {:induction false} OwnRunsNone(w: World, es: seq<Event>, aside: Option<Text>)
    requires Inv(w) && w.record.Some? && OwnRun(w, es) && After(w, es).record == w.record
    requires IsMissing(After(w, es).slots, aside)
    ensures NoneWithin(w, aside)
    decreases |es|
  {
    if es == [] {
      MissingNow(w, aside);
    } else {
      Rest(w, es);
      RecordStays(w, es);
      OwnRunsNone(Next(w, es[0]), es[1..], aside);
      StepNone(w, es[0], aside);
    }
  }

  /** A keep at committed, cut after it moved previous.json. */
  lemma AKeepLeavesItMissing(w: World)
    requires Inv(w) && w.record.Some? && w.record.value.phase.Committed? && CanPair(w)
    ensures LeavesNone(w, w.record.value.previousBefore)
  {
    var text := KeptText(w.record.value);
    var keep := KeepOrUndo(UndoThenKeep(4, 2, w.code, text));
    RestoreStaysUndoable(w.slots, w.found, 4);
    assert Next(w, keep).slots == KeepStages(w.found, w.code, text)[2];
    Only(w, keep);
  }

  /** An undo cut before it moves previous.json back, or after it found none to. */
  lemma AnUndoLeavesItMissing(w: World)
    requires Inv(w) && w.record.Some? && !IsRollback(w.record.value)
    requires w.record.value.phase.Committed? || w.record.value.phase.AbandonedCode?
    requires w.record.value.previousBefore.None? || w.slots.superMeta.Some?
    ensures LeavesNone(w, w.record.value.previousBefore)
  {
    if IsNotDir(w.found.previous) {
      assert OwnRun(w, []) && After(w, []) == w;
    } else {
      var undo := KeepOrUndo(Undo(3));
      RestoreStaysUndoable(w.slots, w.found, 3);
      Only(w, undo);
      assert After(w, [undo]).slots == RestoreStages(w.slots, IsDir(w.found.previous), w.found.meta)[3];
    }
  }

  /** A rollback drops its target's metadata, and closing what is moved aside. */
  lemma SwitchingLeavesItMissing(w: World, aside: Option<Text>)
    requires Inv(w) && w.record.Some? && w.record.value.phase.Switching?
    requires w.slots.meta.None? || IsRollback(w.record.value)
    requires aside == w.slots.superMeta || aside.None?
    ensures LeavesNone(w, aside)
  {
    var es: seq<Event> := [];
    assert OwnRun(w, es) && After(w, es) == w;
    if w.slots.meta.Some? {
      Only(w, DropTarget(false));
      es := [DropTarget(false)];
    }
    var n := After(w, es);
    assert n.slots.meta.None? && n.record == w.record && n.slots.superMeta == w.slots.superMeta;
    if aside != w.slots.superMeta {
      Only(n, Close(1));
      Joined(w, es, [Close(1)]);
      es := es + [Close(1)];
    }
  }

  /** What the attempt's own steps can leave missing, both ways. */
  lemma NoneLeftExactly(w: World, aside: Option<Text>)
    requires Inv(w) && w.record.Some?
    ensures LeavesNone(w, aside) <==> NoneWithin(w, aside)
  {
    var t := w.record.value;
    assert OwnRun(w, []) && After(w, []) == w;
    if LeavesNone(w, aside) {
      var es :| OwnRun(w, es) && After(w, es).record == w.record
                && After(w, es).slots.meta.None? && After(w, es).slots.superMeta == aside;
      OwnRunsNone(w, es, aside);
    } else if NoneWithin(w, aside) {
      if !IsRollback(t) && (t.phase.Committed? || t.phase.AbandonedCode?) {
        if t.previousBefore.None? || w.slots.superMeta.Some? {
          AnUndoLeavesItMissing(w);
        } else {
          AKeepLeavesItMissing(w);
        }
      } else if t.phase.Switching? {
        SwitchingLeavesItMissing(w, aside);
      }
    }
  }

  /** A missing previous.json of this attempt that it cannot leave at this phase: none
      was found in the first place; a rollback's own drop, not yet or no longer under
      way; what a keep or an undo had moved aside, which is now back or kept. */
  predicate TooLateNone(w: World, aside: Option<Text>)
    requires w.record.Some?
  {
    var t := w.record.value;
    !NoneWithin(w, aside)
    && (t.previousBefore.None? || IsRollback(t) || ((t.phase.Committed? || t.Abandons()) && aside == t.previousBefore))
  }

  /** A missing previous.json is reported if and only if one is expected, no run of
      the attempt's own steps leaves it missing with that moved aside, and it is not
      one the attempt could only have left at another phase. */
  lemma MissingPreviousIsReportedExactlyWhen(start: World, es: seq<Event>, aside: Option<Text>)
    requires Idle(start) && Legal(start, es) && After(start, es).record.Some?
    ensures var w := After(start, es);
            var t := w.record.value;
            PreviousChanged in StaleProblems(t, w.live, w.slots.(meta := None, superMeta := aside))
            <==> t.expected.previous.Some? && !LeavesNone(w, aside) && !TooLateNone(w, aside)
  {
    RunKeepsInv(start, es);
    var w := After(start, es);
    NoneLeftExactly(w, aside);
    if LeavesNone(w, aside) {
      WhatIsLeftMissingIsAccepted(w, aside);
    }
  }

  lemma WhatIsLeftMissingIsAccepted(w: World, aside: Option<Text>)
    requires Inv(w) && w.record.Some? && LeavesNone(w, aside)
    ensures PreviousChanged !in StaleProblems(w.record.value, w.live, w.slots.(meta := None, superMeta := aside))
  {
    var es :| OwnRun(w, es) && After(w, es).record == w.record
              && After(w, es).slots.meta.None? && After(w, es).slots.superMeta == aside;
    RunKeepsInv(w, es);
  }

  /** Such texts exist: once its hook has started, an attempt still accepts the
      live.json of the release it replaced, though no step of its own can leave it. */
  lemma TooLateHappens(w: World)
    requires Inv(w) && w.record.Some? && w.record.value.phase.HookStarted?
    requires ReplacedLive(w.record.value) !in {w.live, Some(LiveText(w.record.value.ref))}
    ensures TooLateLive(w, ReplacedLive(w.record.value)) && !LeavesLive(w, ReplacedLive(w.record.value))
    ensures LiveChanged !in StaleProblems(w.record.value, ReplacedLive(w.record.value), w.slots)
  {
    LivesLeftExactly(w, ReplacedLive(w.record.value));
  }

  /** And a run gets there: any install over a kept release, from its open to the
      start of its hook. */
  lemma TooLateIsReached(start: World, r: Request) returns (es: seq<Event>)
    requires Idle(start) && Enabled(start, Open(r)) && !r.source.Rollback?
    requires r.replacedRef.Some? && r.replacedRef != Some(r.ref) && !IsNotDir(start.slots.previous)
    ensures Legal(start, es) && After(start, es).record.Some?
    ensures var w, replaced := After(start, es), Some(LiveText(r.replacedRef.value));
            && TooLateLive(w, replaced) && !LeavesLive(w, replaced)
            && LiveChanged !in StaleProblems(w.record.value, replaced, w.slots)
  {
    var began := Next(start, Open(r));
    StepKeepsInv(start, Open(r));
    var kept := ToPreviousKept(began);
    var w := After(began, kept);
    var more := ToHookStarted(w);
    Joined(began, kept, more);
    es := [Open(r)] + (kept + more);
    assert es[1..] == kept + more;
    TooLateHappens(After(w, more));
  }

  /** live.json, then the two phases. */
  lemma ToHookStarted(w: World) returns (es: seq<Event>)
    requires Inv(w) && w.record.Some? && w.record.value.phase.PreviousKept? && !IsRollback(w.record.value)
    ensures OwnRun(w, es)
    ensures var n := After(w, es);
            && Inv(n) && n.record.Some? && n.record.value.phase.HookStarted?
            && n.record.value == w.record.value.(phase := HookStarted, expected := n.record.value.expected)
            && n.live == Some(LiveText(w.record.value.ref))
  {
    var a := Next(w, MarkLive);
    StepKeepsInv(w, MarkLive);
    var b := Next(a, Advance(Installed));
    StepKeepsInv(a, Advance(Installed));
    StepKeepsInv(b, Advance(HookStarted));
    Only(b, Advance(HookStarted));
    First(a, Advance(Installed), [Advance(HookStarted)]);
    First(w, MarkLive, [Advance(Installed)] + [Advance(HookStarted)]);
    es := [MarkLive] + ([Advance(Installed)] + [Advance(HookStarted)]);
  }
}
