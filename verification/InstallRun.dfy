/** Every run of a bundle project's install, kill by kill: which steps each phase
    allows, and what holds between any two of them. The order of the steps is
    that of src/boxmunge/commands/deploy_tree.py, rollback.py and
    install_abandon.py; a kill is a run that simply takes no further step of the
    command it interrupted. */
module InstallRun {
  import opened Options
  import opened ReleaseKeep
  import opened ReleaseTxn

  /** The project as it stands. `base`, `inSync` and `found` are bookkeeping of
      the argument, not of the program: the release the last finished install
      left in charge, whether the containers were then running it, and what the
      open install found. */
  datatype World = World(
    slots: Slots, live: Option<Text>, record: Option<Txn>,
    code: Tree,              // the release code in the project directory
    running: Option<Tree>,   // the release the containers were started from
    base: Option<Tree>, inSync: bool, found: Slots)

  const MANIFEST := "manifest.yml"

  function AsDeployed(code: Tree): Option<Tree> {
    if MANIFEST in code then Some(code) else None
  }

  function Now(w: World): Expectation {
    Expectation(w.live, w.slots.meta)
  }

  datatype Event =
    | Open(r: Request)
    | KeepOrUndo(v: Visit)               // release_keep, cut anywhere
    | ChangeCode(code: Tree)             // any state install_release leaves, part-way or done
    | MarkLive
    | Pair                               // ensure_kept_pairing
    | Advance(phase: Phase)
    | Mark(phase: Phase)                 // mark_abandon
    | Supersede(r: Request, phase: Phase)
    | StartContainers
    | DropTarget(tree: bool)             // a finished rollback's target: metadata, then tree
    | Close(step: nat)                   // close_txn, one name at a time

  predicate IsRollback(t: Txn) {
    t.source.Rollback?
  }

  /** The undo of `t` finds nothing left to do. */
  predicate Restored(s: Slots, t: Txn) {
    var stages := RestoreStages(s, t.hadPrevious, t.previousBefore);
    |stages| == 5 && stages[4] == s
  }

  predicate Kept(w: World, t: Txn) {
    var stages := KeepStages(w.found, w.code, KeptText(t));
    |stages| == 5 && w.slots == stages[4]
  }

  predicate CodeIsBack(w: World, t: Txn) {
    if t.replacedRef.Some? then w.slots.previous == Some(Dir(w.code)) else MANIFEST !in w.code
  }

  /** When a command takes the step. */
  predicate Enabled(w: World, e: Event) {
    match e
    case Open(r) => w.record.None? && (!r.source.Rollback? ==> (r.replacedRef.None? <==> MANIFEST !in w.code))
    case _ => w.record.Some? && Allowed(w, w.record.value, e)
  }

  predicate Installs(t: Txn) {
    if IsRollback(t) then t.phase.Committed?
    else t.phase.PreviousKept? || t.phase.Installed? || t.phase.HookStarted? || t.phase.Abandoning?
  }

  predicate Allowed(w: World, t: Txn, e: Event) {
    match e
    case Open(_) => false
    case KeepOrUndo(v) =>
      !IsRollback(t)
      && if v.Undo? then t.phase.Committed? || t.phase.AbandonedCode?
         else t.phase.Committed? && t.replacedRef.Some? && v.code == w.code && v.text == KeptText(t)
    case ChangeCode(_) => Installs(t)
    case MarkLive => Installs(t)
    case Pair => !IsRollback(t) && t.replacedRef.Some? && !t.Abandons() && t.Reached(PreviousKept)
        && IsDir(w.slots.previous)
    case Advance(phase) =>
      Advanced(t, phase, Now(w)).Some?
      && (t.phase.Committed? && phase.PreviousKept? && t.replacedRef.Some? ==> Kept(w, t))
      && (t.phase.Committed? && !IsRollback(t) ==> phase.PreviousKept?)
    case Mark(phase) =>
      Marked(t, phase, Now(w)).Some?
      && (if phase.Abandoning? then t.phase.PreviousKept? || t.phase.Installed?
          else t.phase.Committed? || (t.phase.Abandoning? && CodeIsBack(w, t)))
    case Supersede(r, phase) =>
      SupersededBy(t, r, phase, Now(w)).Some?
      && if r.source.Rollback? then phase.Committed? && !IsRollback(t) && t.DataMayHaveChanged()
         else if phase.Committed? then
           !IsRollback(t) && t.phase.Committed? && t.touched.Untouched?
               && (r.replacedRef.None? <==> t.replacedRef.None?)
         else phase.PreviousKept?
              && if IsRollback(t) then IsDir(w.slots.previous) && r.replacedRef.Some?
                 else t.Reached(PreviousKept) && r.replacedRef == t.replacedRef
    case StartContainers => t.phase.Switching?
    case DropTarget(tree) => IsRollback(t) && t.phase.Switching? && (tree ==> w.slots.meta.None?)
    case Close(step) =>
      t.phase.Switching?
      || (!IsRollback(t) && (t.phase.Committed? || t.phase.AbandonedCode?) && Restored(w.slots, t))
  }

  function LiveAfter(t: Txn): Option<Text> {
    if !t.phase.Abandoning? then Some(LiveText(t.ref))
    else if t.replacedRef.Some? then Some(LiveText(t.replacedRef.value)) else None
  }

  function Next(w: World, e: Event): World
    requires Enabled(w, e)
  {
    match e
    case Open(r) => w.(record := Some(Opened(r, w.slots, w.live)), found := w.slots)
    case KeepOrUndo(v) =>
      w.(slots := AfterVisit(w.slots, w.record.value.hadPrevious, w.record.value.previousBefore, v))
    case ChangeCode(code) => w.(code := code)
    case MarkLive => w.(live := LiveAfter(w.record.value))
    case Pair => w.(slots := w.slots.(meta := Some(KeptText(w.record.value))))
    case Advance(phase) => w.(record := Advanced(w.record.value, phase, Now(w)))
    case Mark(phase) => w.(record := Marked(w.record.value, phase, Now(w)))
    case Supersede(r, phase) => w.(record := SupersededBy(w.record.value, r, phase, Now(w)))
    case StartContainers => w.(running := Some(w.code))
    case DropTarget(tree) =>
      if tree then w.(slots := w.slots.(previous := None)) else w.(slots := w.slots.(meta := None))
    case Close(step) =>
      if step == 0 then w.(slots := w.slots.(superseded := None))
      else if step == 1 then w.(slots := w.slots.(superseded := None, superMeta := None))
      else Closed(w)
  }

  function Closed(w: World): World
    requires w.record.Some?
  {
    var gone := w.(slots := w.slots.(superseded := None, superMeta := None), record := None);
    if w.record.value.phase.Switching?
    then gone.(base := AsDeployed(w.code), inSync := w.running == AsDeployed(w.code))
    else gone
  }

  // ---------------------------------------------------------------------
  // What holds between any two steps
  // ---------------------------------------------------------------------

  /** No hook, switch or rollback can have happened in this chain of attempts. */
  predicate Pristine(t: Txn) {
    !t.DataMayHaveChanged()
  }

  /** The containers are still those of before the chain of attempts. */
  predicate Settled(w: World) {
    w.record.None?
    || (!IsRollback(w.record.value) && !w.record.value.ContainersMayRunOther())
  }

  ghost predicate UndoReady(w: World, t: Txn) {
    && NothingAside(w.found)
    && t.hadPrevious == IsDir(w.found.previous) && t.previousBefore == w.found.meta
    && Undoable(w.slots, w.found)
    && (t.replacedRef.Some? && !t.phase.Committed? && !t.phase.AbandonedCode? ==>
          && (w.slots.superseded.Some? || w.found.previous.None?)
          && (w.slots.superMeta.Some? || w.found.meta.None?))
  }

  /** Where the release in charge can be read while the install is open. */
  predicate BaseKept(w: World, t: Txn) {
    if t.phase.Committed? || t.phase.AbandonedCode? then
      w.base == AsDeployed(w.code) && (t.phase.Committed? ==> (t.replacedRef.None? <==> w.base.None?))
    else
      if t.replacedRef.Some? then w.base.Some? && w.slots.previous == Some(Dir(w.base.value))
          && MANIFEST in w.base.value
      else w.base.None?
  }

  ghost predicate Inv(w: World) {
    match w.record
    case None => NothingAside(w.slots) && w.base == AsDeployed(w.code) && (w.inSync <==> w.base == w.running)
    case Some(t) =>
      && t.Loadable()
      && ((t.phase.Committed? && !IsRollback(t)) || t.Abandons() ==> t.touched.Untouched?)
      && w.live in LiveAccepted(t)
      && (w.slots.meta in PreviousAccepted(t) || KeepInProgress(t, w.slots))
      && (Pristine(t) ==> UndoReady(w, t))
      && (Settled(w) ==> BaseKept(w, t) && (w.inSync <==> w.base == w.running))
  }

  lemma OpenKeepsInv(w: World, e: Event)
    requires Inv(w) && Enabled(w, e) && e.Open?
    ensures Inv(Next(w, e))
  {
  }

  lemma KeepOrUndoKeepsInv(w: World, e: Event)
    requires Inv(w) && Enabled(w, e) && e.KeepOrUndo?
    ensures Inv(Next(w, e))
  {
    var t := w.record.value;
    VisitStaysUndoable(w.slots, w.found, e.v);
    VisitMeta(w.slots, w.found, e.v, t);
  }

  /** Every text an undo or a keep leaves in previous.json is accounted for. */
  lemma VisitMeta(s: Slots, found: Slots, v: Visit, t: Txn)
    requires NothingAside(found) && Undoable(s, found)
    requires v.UndoThenKeep? ==> v.text == KeptText(t)
    ensures var n := AfterVisit(s, IsDir(found.previous), found.meta, v);
            n.meta == s.meta || n.meta == found.meta || n.meta == Some(KeptText(t))
            || (n.meta.None? && n.superMeta == found.meta)
    ensures var n := AfterVisit(s, IsDir(found.previous), found.meta, v);
            n.meta == s.meta ==> n.superMeta == s.superMeta || n.meta == found.meta
                                 || (n.meta.None? && n.superMeta == found.meta) || n.meta == Some(KeptText(t))
  {
    var had := IsDir(found.previous);
    var stop := if v.Undo? then v.stop else v.undoStop;
    RestoreStaysUndoable(s, found, stop);
    var stages := RestoreStages(s, had, found.meta);
    var i := if stop < |stages| then stop else |stages| - 1;
    assert i == 0 || i == 1 || i == 2 || i == 3 || i == 4;
    if v.UndoThenKeep? && Completed(stages, stop) {
      var keeps := KeepStages(found, v.code, v.text);
      var j := if v.keepStop < |keeps| then v.keepStop else |keeps| - 1;
      assert j == 0 || j == 1 || j == 2 || j == 3 || j == 4;
    }
  }

  lemma FilesKeepInv(w: World, e: Event)
    requires Inv(w) && Enabled(w, e) && (e.ChangeCode? || e.MarkLive? || e.Pair? || e.StartContainers? || e.DropTarget?)
    ensures Inv(Next(w, e))
  {
  }

  lemma AdvanceKeepsInv(w: World, e: Event)
    requires Inv(w) && Enabled(w, e) && e.Advance?
    ensures Inv(Next(w, e))
  {
  }

  lemma MarkKeepsInv(w: World, e: Event)
    requires Inv(w) && Enabled(w, e) && e.Mark?
    ensures Inv(Next(w, e))
  {
  }

  lemma SupersedeKeepsInv(w: World, e: Event)
    requires Inv(w) && Enabled(w, e) && e.Supersede?
    ensures Inv(Next(w, e))
  {
  }

  lemma CloseKeepsInv(w: World, e: Event)
    requires Inv(w) && Enabled(w, e) && e.Close?
    ensures Inv(Next(w, e))
  {
    if !w.record.value.phase.Switching? {
      UndoneIsFound(w, w.record.value);
    }
  }

  /** An undo with nothing left to do has left what the open found. */
  lemma UndoneIsFound(w: World, t: Txn)
    requires UndoReady(w, t) && Restored(w.slots, t)
    ensures NothingAside(w.slots) && w.slots == w.found
  {
  }

  lemma StepKeepsInv(w: World, e: Event)
    requires Inv(w) && Enabled(w, e)
    ensures Inv(Next(w, e))
  {
    match e
    case Open(_) => OpenKeepsInv(w, e);
    case KeepOrUndo(_) => KeepOrUndoKeepsInv(w, e);
    case Advance(_) => AdvanceKeepsInv(w, e);
    case Mark(_) => MarkKeepsInv(w, e);
    case Supersede(_, _) => SupersedeKeepsInv(w, e);
    case Close(_) => CloseKeepsInv(w, e);
    case _ => FilesKeepInv(w, e);
  }

  // ---------------------------------------------------------------------
  // Whole runs
  // ---------------------------------------------------------------------

  /** No install is open, and what the project directory holds is in charge. */
  predicate Idle(w: World) {
    w.record.None? && NothingAside(w.slots) && w.base == AsDeployed(w.code) && (w.inSync <==> w.base == w.running)
  }

  predicate Legal(w: World, es: seq<Event>)
    decreases |es|
  {
    es == [] || (Enabled(w, es[0]) && Legal(Next(w, es[0]), es[1..]))
  }

  function After(w: World, es: seq<Event>): World
    requires Legal(w, es)
    decreases |es|
  {
    if es == [] then w else After(Next(w, es[0]), es[1..])
  }

  lemma {:induction false} RunKeepsInv(w: World, es: seq<Event>)
    requires Inv(w) && Legal(w, es)
    ensures Inv(After(w, es))
    decreases |es|
  {
    if es != [] {
      StepKeepsInv(w, es[0]);
      RunKeepsInv(Next(w, es[0]), es[1..]);
    }
  }

  /** No false staleness: in no state a run can be killed in does stale_reason
      accuse the transaction of its own steps. */
  lemma NoFalseStaleness(w: World, es: seq<Event>)
    requires Idle(w) && Legal(w, es) && After(w, es).record.Some?
    ensures var n := After(w, es); StaleProblems(n.record.value, n.live, n.slots) == {}
  {
    RunKeepsInv(w, es);
  }

  /** In the middle of a run the undo is still exact, and an install closed after
      it leaves previous/ and previous.json as the open found them. */
  lemma UndoIsExactInAnyRun(w: World, es: seq<Event>, stop: nat)
    requires Idle(w) && Legal(w, es) && stop >= 4
    ensures var n := After(w, es);
            n.record.Some? && !n.record.value.DataMayHaveChanged() ==>
              var t := n.record.value;
              && CutAt(RestoreStages(n.slots, t.hadPrevious, t.previousBefore), stop) == n.found
              && (!t.phase.Switching? && Enabled(n, Close(2)) ==> Closed(n).slots == n.found)
              && (n.slots == n.found && !IsNotDir(n.found.previous) && t.phase in {Committed, AbandonedCode} ==>
                    Enabled(n, Close(2)))
  {
    RunKeepsInv(w, es);
    var n := After(w, es);
    if n.record.Some? && !n.record.value.DataMayHaveChanged() {
      RestoreStaysUndoable(n.slots, n.found, stop);
      RestoreStaysUndoable(n.slots, n.found, 4);
    }
  }

  /** A finished --abandon leaves the release in charge in the project directory. */
  lemma AbandonPutsTheCodeBack(w: World, es: seq<Event>)
    requires Idle(w) && Legal(w, es)
    ensures var n := After(w, es);
            n.record.Some? && n.record.value.phase.AbandonedCode? ==>
              n.base == AsDeployed(n.code) && (n.inSync <==> n.running == AsDeployed(n.code))
  {
    RunKeepsInv(w, es);
  }

  // ---------------------------------------------------------------------
  // What a run did, read off its events
  // ---------------------------------------------------------------------

  predicate Finishes(e: Event) {
    e.Close? && e.step >= 2
  }

  /** What the attempt now open was asked for. */
  function Attempt(es: seq<Event>): Option<Request> {
    if es == [] then None
    else
      var e := es[|es| - 1];
      match e
      case Open(r) => Some(r)
      case Supersede(r, _) => Some(r)
      case _ => if Finishes(e) then None else Attempt(es[..|es| - 1])
  }

  /** Since the last Open a rollback was opened or took over, or an attempt advanced
      to one of these phases; and the install is not finished. */
  predicate Went(es: seq<Event>, phases: set<Phase>) {
    es != []
    && var e := es[|es| - 1];
       match e
       case Open(r) => r.source.Rollback?
       case Supersede(r, _) => r.source.Rollback? || Went(es[..|es| - 1], phases)
       case Advance(phase) => phase in phases || Went(es[..|es| - 1], phases)
       case _ => !Finishes(e) && Went(es[..|es| - 1], phases)
  }

  lemma {:induction false} LastStep(w: World, es: seq<Event>)
    requires Legal(w, es) && es != []
    ensures var n := |es| - 1;
            && Legal(w, es[..n]) && Enabled(After(w, es[..n]), es[n])
            && After(w, es) == Next(After(w, es[..n]), es[n])
    decreases |es|
  {
    var n := |es| - 1;
    if n > 0 {
      LastStep(Next(w, es[0]), es[1..]);
      assert es[..n][0] == es[0] && es[..n][1..] == es[1..][..n - 1];
    } else {
      assert es[..n] == [] && es[1..] == [];
    }
  }

  predicate MayHaveChangedData(w: World) {
    w.record.Some? && w.record.value.DataMayHaveChanged()
  }

  /** What one step adds to either. */
  lemma StepTells(w: World, e: Event)
    requires Enabled(w, e)
    ensures !Settled(Next(w, e)) <==>
            match e
            case Open(r) => r.source.Rollback?
            case Supersede(r, _) => r.source.Rollback? || !Settled(w)
            case Advance(phase) => phase.Switching? || !Settled(w)
            case _ => !Finishes(e) && !Settled(w)
    ensures MayHaveChangedData(Next(w, e)) <==>
            match e
            case Open(r) => r.source.Rollback?
            case Supersede(r, _) => r.source.Rollback? || MayHaveChangedData(w)
            case Advance(phase) => phase.HookStarted? || phase.Switching? || MayHaveChangedData(w)
            case _ => !Finishes(e) && MayHaveChangedData(w)
  {
  }

  /** The record is this attempt's. */
  predicate IsOf(w: World, r: Option<Request>) {
    match w.record
    case None => r.None?
    case Some(t) =>
      && r.Some? && t.source == r.value.source && t.ref == r.value.ref && t.replacedRef == r.value.replacedRef
      && t.snapshot == r.value.snapshot && t.startedAt == r.value.startedAt
  }

  lemma StepIsOf(w: World, e: Event, r: Option<Request>)
    requires Enabled(w, e) && IsOf(w, r)
    ensures IsOf(Next(w, e),
                 match e
                 case Open(request) => Some(request)
                 case Supersede(request, _) => Some(request)
                 case _ => if Finishes(e) then None else r)
  {
  }

  lemma {:induction false} TheRecordIsTheAttempts(w: World, es: seq<Event>)
    requires w.record.None? && Legal(w, es)
    ensures IsOf(After(w, es), Attempt(es))
    decreases |es|
  {
    if es != [] {
      LastStep(w, es);
      TheRecordIsTheAttempts(w, es[..|es| - 1]);
      StepIsOf(After(w, es[..|es| - 1]), es[|es| - 1], Attempt(es[..|es| - 1]));
    }
  }

  /** It says what the run did: whether a hook or a rollback may have changed data,
      and whether containers may have been switched. */
  lemma {:induction false} TheRecordTells(w: World, es: seq<Event>)
    requires w.record.None? && Legal(w, es)
    ensures var n := After(w, es);
            && (Went(es, {Switching}) <==> !Settled(n))
            && (Went(es, {HookStarted, Switching}) <==> MayHaveChangedData(n))
    decreases |es|
  {
    if es != [] {
      LastStep(w, es);
      StepTells(After(w, es[..|es| - 1]), es[|es| - 1]);
      TheRecordTells(w, es[..|es| - 1]);
    }
  }

  /** --abandon may be started if and only if, since the last Open, no attempt was a
      rollback and none advanced to its hook or beyond. */
  lemma AbandonUntilAHook(w: World, es: seq<Event>)
    requires Idle(w) && Legal(w, es)
    ensures var n := After(w, es);
            n.record.Some? ==>
              (Marked(n.record.value, Abandoning, Now(n)).Some? <==> !Went(es, {HookStarted, Switching}))
  {
    TheRecordTells(w, es);
  }

  /** What this attempt's previous.json says of what it replaces. */
  predicate SaysWhatIsReplaced(w: World, r: Request) {
    && w.record.Some? && !w.record.value.phase.Committed? && !w.record.value.Abandons() && !r.source.Rollback?
    && (r.replacedRef.Some? ==>
          w.slots.meta == Some(PreviousMeta(r.replacedRef.value, r.snapshot, r.startedAt, r.ref)))
  }

  lemma StepSays(w: World, e: Event, r: Request)
    requires Enabled(w, e) && IsOf(w, Some(r)) && !e.Open? && !e.Supersede? && !e.Mark? && !Finishes(e)
    requires e.Pair? || e == Advance(PreviousKept) || SaysWhatIsReplaced(w, r)
    ensures SaysWhatIsReplaced(Next(w, e), r)
  {
  }

  /** From its keep or its pairing at step `i` on, until it is taken over, abandoned
      or finished, previous.json names what the attempt replaces, with its own
      snapshot: the kept release and what to restore with it. */
  lemma {:induction false} PreviousIsTheAttempts(w: World, es: seq<Event>, i: nat)
    requires Idle(w) && Legal(w, es) && i < |es| && (es[i].Pair? || es[i] == Advance(PreviousKept))
    requires forall j :: i < j < |es| ==> !es[j].Open? && !es[j].Supersede? && !es[j].Mark? && !Finishes(es[j])
    ensures Attempt(es).Some?
    ensures var n, r := After(w, es), Attempt(es).value;
            && n.record.Some? && !n.record.value.phase.Committed? && !n.record.value.Abandons() && !r.source.Rollback?
            && (r.replacedRef.Some? ==>
                  n.slots.meta == Some(PreviousMeta(r.replacedRef.value, r.snapshot, r.startedAt, r.ref)))
    decreases |es|
  {
    LastStep(w, es);
    var before, e := es[..|es| - 1], es[|es| - 1];
    TheRecordIsTheAttempts(w, before);
    if i < |es| - 1 {
      PreviousIsTheAttempts(w, before, i);
    }
    StepSays(After(w, before), e, Attempt(before).value);
  }
}
