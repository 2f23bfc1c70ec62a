/** The install transaction record, .releases/install.json, and everything a
    bundle project's deploy, rollback and --abandon do while it is open
    (src/boxmunge/release_txn.py; the sequence of steps is that of
    src/boxmunge/commands/deploy_tree.py, rollback.py and install_abandon.py). */
module ReleaseTxn {
  import opened Options
  import opened ReleaseKeep

  datatype Source = Bundle | Staged | Rollback | Git

  datatype Phase =
    | Committed | PreviousKept | Installed | DataRestored | HookStarted | Switching
    | Abandoning | AbandonedCode

  datatype Touched = Untouched | HookMayHaveRun | MayHaveSwitched

  datatype Expectation = Expectation(live: Option<Text>, previous: Option<Text>)

  /** The phases a rollback, and any other install, goes through; both in the
      order of `Position`. */
  const KEEP_PHASES := {Committed, PreviousKept, Installed, HookStarted, Switching}
  const ROLLBACK_PHASES := {Committed, Installed, DataRestored, HookStarted, Switching}

  predicate IsAbandonPhase(phase: Phase) {
    phase.Abandoning? || phase.AbandonedCode?
  }

  /** The index in PHASES; the two checkpoints of --abandon have none. */
  function Position(phase: Phase): nat {
    match phase
    case Committed => 0
    case PreviousKept => 1
    case Installed => 2
    case DataRestored => 3
    case HookStarted => 4
    case Switching => 5
    case Abandoning => 6
    case AbandonedCode => 6
  }

  datatype Txn = Txn(
    id: nat, source: Source, ref: string, replacedRef: Option<string>, stagedId: Option<string>,
    snapshot: string, phase: Phase, expected: Expectation, previousBefore: Option<Text>,
    hadPrevious: bool, touched: Touched, startedAt: string)
  {
    predicate Abandons() {
      IsAbandonPhase(phase)
    }

    predicate Reached(p: Phase) {
      if Abandons() then p.Committed? else Position(phase) >= Position(p)
    }

    predicate DataMayHaveChanged() {
      source.Rollback? || !touched.Untouched? || Reached(HookStarted)
    }

    predicate ContainersMayRunOther() {
      touched.MayHaveSwitched? || Reached(Switching)
    }

    function Phases(): set<Phase> {
      if source.Rollback? then ROLLBACK_PHASES else KEEP_PHASES
    }

    /** What load_txn accepts. */
    predicate Loadable() {
      phase in Phases() || (Abandons() && !source.Rollback?)
    }
  }

  function LiveText(ref: string): Text {
    LiveMeta(ref)
  }

  function KeptText(t: Txn): Text {
    PreviousMeta(if t.replacedRef.Some? then t.replacedRef.value else "", t.snapshot, t.startedAt, t.ref)
  }

  // ---------------------------------------------------------------------
  // The record's own transitions
  // ---------------------------------------------------------------------

  /** What a new attempt says about itself. */
  datatype Request = Request(id: nat, source: Source, ref: string, replacedRef: Option<string>,
                             stagedId: Option<string>, snapshot: string, startedAt: string)

  function NewTxn(r: Request, phase: Phase, expected: Expectation, before: Option<Text>, had: bool,
                  touched: Touched): Txn {
    Txn(r.id, r.source, r.ref, r.replacedRef, r.stagedId, r.snapshot, phase, expected, before, had, touched,
        r.startedAt)
  }

  function Opened(r: Request, found: Slots, live: Option<Text>): Txn {
    NewTxn(r, Committed, Expectation(live, found.meta), found.meta, IsDir(found.previous), Untouched)
  }

  function TouchedBy(prior: Txn): Touched {
    if prior.source.Rollback? || prior.ContainersMayRunOther() then MayHaveSwitched
    else if prior.DataMayHaveChanged() then HookMayHaveRun else Untouched
  }

  function SupersededBy(prior: Txn, r: Request, phase: Phase, expected: Expectation): Option<Txn> {
    if prior.Abandons() then None
    else Some(NewTxn(r, phase, expected, prior.previousBefore, prior.hadPrevious, TouchedBy(prior)))
  }

  function Advanced(t: Txn, phase: Phase, expected: Expectation): Option<Txn> {
    var order := t.Phases();
    if phase !in order || t.phase !in order || Position(phase) <= Position(t.phase) then None
    else Some(t.(phase := phase, expected := expected))
  }

  function Marked(t: Txn, phase: Phase, expected: Expectation): Option<Txn> {
    if !IsAbandonPhase(phase) || t.DataMayHaveChanged() then None
    else Some(t.(phase := phase, expected := expected))
  }

  predicate Earlier(order: seq<Phase>, a: Phase, b: Phase) {
    exists i, j :: 0 <= i < j < |order| && order[i] == a && order[j] == b
  }

  lemma ByPosition(order: seq<Phase>, i: nat, j: nat)
    requires forall k, l :: 0 <= k < l < |order| ==> Position(order[k]) < Position(order[l])
    requires i < |order| && j < |order|
    ensures i < j <==> Position(order[i]) < Position(order[j])
  {
  }

  lemma EarlierByPosition(order: seq<Phase>, a: Phase, b: Phase)
    requires forall k, l :: 0 <= k < l < |order| ==> Position(order[k]) < Position(order[l])
    ensures Earlier(order, a, b) <==> a in order && b in order && Position(a) < Position(b)
  {
    forall i, j | 0 <= i < |order| && 0 <= j < |order|
      ensures i < j <==> Position(order[i]) < Position(order[j])
    {
      ByPosition(order, i, j);
    }
  }

  /** An attempt goes forward only, along the phases of its kind. */
  lemma AdvancesExactlyWhen(t: Txn, phase: Phase, expected: Expectation)
    ensures Advanced(t, phase, expected).Some?
            <==> Earlier(if t.source.Rollback? then [Committed, Installed, DataRestored, HookStarted, Switching]
                         else [Committed, PreviousKept, Installed, HookStarted, Switching], t.phase, phase)
  {
    if t.source.Rollback? {
      EarlierByPosition([Committed, Installed, DataRestored, HookStarted, Switching], t.phase, phase);
    } else {
      EarlierByPosition([Committed, PreviousKept, Installed, HookStarted, Switching], t.phase, phase);
    }
  }

  datatype Problem = LiveChanged | PreviousChanged

  function LiveAccepted(t: Txn): set<Option<Text>> {
    {t.expected.live, Some(LiveText(t.ref)),
     if t.replacedRef.Some? then Some(LiveText(t.replacedRef.value)) else None}
  }

  function PreviousAccepted(t: Txn): set<Option<Text>> {
    {t.expected.previous, t.previousBefore, Some(KeptText(t))} + (if t.source.Rollback? then {None} else {})
  }

  predicate KeepInProgress(t: Txn, s: Slots) {
    (t.phase.Committed? || t.Abandons()) && s.meta.None? && s.superMeta == t.previousBefore
  }

  /** release_txn.stale_reason for a bundle project; the empty set is its None. */
  function StaleProblems(t: Txn, live: Option<Text>, s: Slots): set<Problem> {
    (if live !in LiveAccepted(t) then {LiveChanged} else {})
    + (if s.meta !in PreviousAccepted(t) && !KeepInProgress(t, s) then {PreviousChanged} else {})
  }

  // ---------------------------------------------------------------------
  // Abandon is never offered too late
  // ---------------------------------------------------------------------

  /** One link of a chain of records: a step forward, or another attempt. */
  datatype Link = Forward(phase: Phase, expected: Expectation) | Over(r: Request, phase: Phase, expected: Expectation)

  function AfterLink(t: Txn, l: Link): Option<Txn> {
    match l
    case Forward(phase, expected) => Advanced(t, phase, expected)
    case Over(r, phase, expected) => SupersededBy(t, r, phase, expected)
  }

  /** The record after each link; a refused link ends the chain. */
  function Chain(t: Txn, links: seq<Link>): (ts: seq<Txn>)
    ensures |ts| > 0 && ts[0] == t
    decreases |links|
  {
    if links == [] then [t]
    else
      var next := AfterLink(t, links[0]);
      if next.None? then [t] else [t] + Chain(next.value, links[1..])
  }

  function Weight(t: Touched): nat {
    match t
    case Untouched => 0
    case HookMayHaveRun => 1
    case MayHaveSwitched => 2
  }

  /** Everything an attempt may have done to production is at least `w`. */
  predicate Did(t: Txn, w: Touched) {
    Weight(w) <= Weight(TouchedBy(t))
  }

  lemma LinkKeepsWhatWasDone(t: Txn, l: Link, w: Touched)
    requires AfterLink(t, l).Some? && Did(t, w)
    ensures Did(AfterLink(t, l).value, w)
    ensures Weight(t.touched) <= Weight(AfterLink(t, l).value.touched)
    ensures l.Forward? ==> Position(t.phase) < Position(AfterLink(t, l).value.phase)
  {
  }

  /** This attempt itself may have changed data or containers. */
  predicate Acted(t: Txn) {
    t.source.Rollback? || t.Reached(HookStarted)
  }

  /** What may have been done is never forgotten along a chain. */
  lemma {:induction false} WhatWasDoneIsCarried(t: Txn, links: seq<Link>, i: nat, j: nat)
    requires i <= j < |Chain(t, links)|
    ensures Weight(Chain(t, links)[i].touched) <= Weight(Chain(t, links)[j].touched)
    ensures Weight(TouchedBy(Chain(t, links)[i])) <= Weight(TouchedBy(Chain(t, links)[j]))
    decreases |links|
  {
    if j > 0 {
      var next := AfterLink(t, links[0]).value;
      assert Chain(t, links) == [t] + Chain(next, links[1..]);
      LinkKeepsWhatWasDone(t, links[0], TouchedBy(t));
      WhatWasDoneIsCarried(next, links[1..], if i == 0 then 0 else i - 1, j - 1);
    }
  }

  /** Within one attempt, phases only move forward. */
  lemma {:induction false} PhasesOnlyMoveForward(t: Txn, links: seq<Link>, i: nat, j: nat)
    requires i < j < |Chain(t, links)| && j <= |links|
    requires forall k | i <= k < j :: links[k].Forward?
    ensures Chain(t, links)[i].id == Chain(t, links)[j].id
    ensures Position(Chain(t, links)[i].phase) < Position(Chain(t, links)[j].phase)
    decreases |links|
  {
    var next := AfterLink(t, links[0]).value;
    var rest := Chain(next, links[1..]);
    assert Chain(t, links) == [t] + rest;
    if i > 0 {
      PhasesOnlyMoveForward(next, links[1..], i - 1, j - 1);
    } else {
      assert links[0].Forward?;
      LinkKeepsWhatWasDone(t, links[0], TouchedBy(t));
      if j > 1 {
        PhasesOnlyMoveForward(next, links[1..], 0, j - 1);
      }
    }
  }

  /** --abandon is accepted at a record of a chain that started with an opened
      install exactly when no attempt of the chain up to it was a rollback or
      reached its hook. In particular it is never accepted after one that was. */
  lemma {:induction false} AbandonExactlyUntilActed(t: Txn, links: seq<Link>, j: nat, expected: Expectation)
    requires t.touched.Untouched? && !t.Abandons()
    requires j < |Chain(t, links)|
    ensures Marked(Chain(t, links)[j], Abandoning, expected).Some?
            <==> forall i | 0 <= i <= j :: !Acted(Chain(t, links)[i])
    decreases |links|
  {
    var ts := Chain(t, links);
    if exists i :: 0 <= i <= j && Acted(ts[i]) {
      var i :| 0 <= i <= j && Acted(ts[i]);
      WhatWasDoneIsCarried(t, links, i, j);
    } else if j > 0 {
      var next := AfterLink(t, links[0]).value;
      assert ts == [t] + Chain(next, links[1..]);
      assert !Acted(ts[0]);
      assert next.touched.Untouched?;
      if !next.Abandons() {
        AbandonExactlyUntilActed(next, links[1..], j - 1, expected);
        forall i | 0 <= i <= j - 1
          ensures !Acted(Chain(next, links[1..])[i])
        {
          assert Chain(next, links[1..])[i] == ts[i + 1];
        }
      }
    } else {
      assert !Acted(ts[0]);
    }
  }
}
