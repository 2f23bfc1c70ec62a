/** Which release's manifest a backup reads while an install may be open: the
    bundle-project path of src/boxmunge/backup_source.py. */
module BackupSource {
  import opened Options
  import opened ReleaseKeep
  import opened ReleaseTxn
  import opened InstallRun

  /** Unreadable stands for the ManifestError a missing manifest.yml raises. */
  datatype Reading = Manifest(release: Tree) | Skip(alert: bool) | Unreadable

  function LoadManifest(tree: Tree): Reading {
    if MANIFEST in tree then Manifest(tree) else Unreadable
  }

  function Choose(record: Option<Txn>, code: Tree, previous: Option<Node>): Reading {
    match record
    case None => LoadManifest(code)
    case Some(t) =>
      if !t.source.Rollback? && (t.phase.Committed? || t.phase.AbandonedCode?) then LoadManifest(code)
      else if t.source.Rollback? then Skip(false)
      else if t.ContainersMayRunOther() then Skip(true)
      else if t.replacedRef.None? then Skip(false)
      else match previous
        case Some(Dir(tree)) => LoadManifest(tree)
        case _ => Unreadable
  }

  function Chosen(w: World): Reading {
    Choose(w.record, w.code, w.slots.previous)
  }

  /** This ends the install that `switching` put in charge. */
  predicate EndsASwitch(w: World, e: Event) {
    e.Close? && e.step >= 2 && w.record.Some? && w.record.value.phase.Switching?
  }

  /** Containers were started at this phase of the record. */
  predicate StartedNow(e: Event, started: bool) {
    e.StartContainers? || (started && !e.Open? && !e.Advance? && !e.Mark? && !e.Supersede?)
  }

  /** What ending a switch leaves: a start took place at it, of code with a
      manifest; or none did, and the same code was running already. */
  predicate SwitchTook(w: World, started: bool) {
    if started then MANIFEST in w.code else w.running == AsDeployed(w.code)
  }

  /** Whether the last switch of the run took, read off its events. */
  predicate LastSwitchTook(w: World, es: seq<Event>, took: bool, started: bool)
    requires Legal(w, es)
    decreases |es|
  {
    if es == [] then took
    else if EndsASwitch(w, es[0]) then LastSwitchTook(Next(w, es[0]), es[1..], SwitchTook(w, started), false)
    else LastSwitchTook(Next(w, es[0]), es[1..], took, StartedNow(es[0], started))
  }

  lemma {:induction false} SyncFollowsStarts(w: World, es: seq<Event>, started: bool)
    requires Legal(w, es)
    requires started ==> w.record.Some? && w.record.value.phase.Switching? && w.running == Some(w.code)
    ensures After(w, es).inSync == LastSwitchTook(w, es, w.inSync, started)
    decreases |es|
  {
    if es != [] {
      if EndsASwitch(w, es[0]) {
        SyncFollowsStarts(Next(w, es[0]), es[1..], false);
      } else {
        SyncFollowsStarts(Next(w, es[0]), es[1..], StartedNow(es[0], started));
      }
    }
  }

  /** In every state of every run: a backup reads a manifest exactly when a release
      is in charge and, since the install was opened, no attempt was a rollback or
      advanced to its switch; it is skipped with an alert exactly when some did and
      the one now open is no rollback. The manifest is that release's, and it is the
      one the containers run if and only if the last switch took: containers were
      started at it, or ran its code already. */
  lemma BackupsReadTheReleaseInCharge(w: World, es: seq<Event>)
    requires Idle(w) && Legal(w, es)
    ensures var n, attempt := After(w, es), Attempt(es);
            && (Chosen(n).Manifest? <==> n.base.Some? && !Went(es, {Switching}))
            && (Chosen(n) == Skip(true)
                <==> attempt.Some? && !attempt.value.source.Rollback? && Went(es, {Switching}))
            && (Chosen(n) == Unreadable
                <==> n.base.None? && !Went(es, {Switching})
                     && (n.record.None? || n.record.value.phase in {Committed, AbandonedCode}))
            && (Chosen(n).Manifest? ==>
                  && n.base == Some(Chosen(n).release)
                  && (n.running == Some(Chosen(n).release)
                      <==> LastSwitchTook(w, es, w.running == AsDeployed(w.code), false)))
  {
    RunKeepsInv(w, es);
    TheRecordIsTheAttempts(w, es);
    TheRecordTells(w, es);
    SyncFollowsStarts(w, es, false);
  }

  /** The condition is needed. An install is closed whatever replace_release
      returns; one whose container start failed leaves the old release running
      behind the new release's files, and backups then read the new manifest. */
  lemma AFailedSwitchMisleadsBackups()
    ensures exists w: World, es: seq<Event> ::
              && Idle(w) && w.inSync && Legal(w, es)
              && Chosen(After(w, es)).Manifest?
              && After(w, es).running != Some(Chosen(After(w, es)).release)
  {
    var t := Opened(REQUEST, START.slots, START.live);
    var keep := KeepOrUndo(UndoThenKeep(4, 4, V1, KeptText(t)));
    var w1 := Next(START, Open(REQUEST));
    assert w1.record == Some(t);
    var w2 := w1.(slots := Slots(Some(Dir(V1)), None, Some(KeptText(t)), None));
    assert RestoreStages(w1.slots, false, None)[4] == w1.slots;
    assert KeepStages(w1.slots, V1, KeptText(t))[4] == w2.slots;
    assert Next(w1, keep) == w2;
    var es := TheRest(w2);
    Prepend(w1, keep, es);
    Prepend(START, Open(REQUEST), [keep] + es);
    assert Chosen(After(w2, es)) == Manifest(V2);
    assert V1[MANIFEST] != V2[MANIFEST];
  }

  const V1: Tree := map[MANIFEST := "v1"]
  const V2: Tree := map[MANIFEST := "v2"]
  const NONE := Slots(None, None, None, None)
  const START := World(NONE, Some(LiveText("v1")), None, V1, Some(V1), Some(V1), true, NONE)
  const REQUEST := Request(1, Bundle, "v2", Some("v1"), None, "snap", "now")

  lemma Prepend(w: World, e: Event, es: seq<Event>)
    requires Enabled(w, e) && Legal(Next(w, e), es)
    ensures Legal(w, [e] + es) && After(w, [e] + es) == After(Next(w, e), es)
  {
    assert ([e] + es)[1..] == es;
  }

  /** From the finished keep: the install, live.json, the phases, and a close at
      switching although no container was started. */
  lemma TheRest(w2: World) returns (es: seq<Event>)
    requires var t := Opened(REQUEST, START.slots, START.live);
             w2 == Next(START, Open(REQUEST)).(slots := Slots(Some(Dir(V1)), None, Some(KeptText(t)), None))
    ensures Legal(w2, es) && After(w2, es).record.None? && After(w2, es).code == V2 && After(w2, es).running == Some(V1)
  {
    var t := w2.record.value;
    assert KeepStages(w2.found, V1, KeptText(t))[4] == w2.slots;
    var w3 := w2.(record := Some(t.(phase := PreviousKept, expected := InstallRun.Now(w2))));
    assert Enabled(w2, Advance(PreviousKept)) && Next(w2, Advance(PreviousKept)) == w3;
    var w4 := w3.(code := V2);
    es := SwitchWithoutStart(Next(w4, MarkLive));
    Prepend(w4, MarkLive, es);
    es := [MarkLive] + es;
    Prepend(w3, ChangeCode(V2), es);
    es := [ChangeCode(V2)] + es;
    Prepend(w2, Advance(PreviousKept), es);
    es := [Advance(PreviousKept)] + es;
  }

  lemma SwitchWithoutStart(w: World) returns (es: seq<Event>)
    requires w.record.Some? && w.record.value.source.Bundle? && w.record.value.phase.PreviousKept?
    ensures Legal(w, es) && After(w, es).record.None? && After(w, es).code == w.code
              && After(w, es).running == w.running
  {
    var t, now := w.record.value, InstallRun.Now(w);
    var w1 := w.(record := Some(t.(phase := Installed, expected := now)));
    var w2 := w.(record := Some(t.(phase := HookStarted, expected := now)));
    var w3 := w.(record := Some(t.(phase := Switching, expected := now)));
    assert Legal(Next(w3, Close(2)), []);
    Prepend(w3, Close(2), []);
    es := [Close(2)] + [];
    assert Next(w2, Advance(Switching)) == w3;
    Prepend(w2, Advance(Switching), es);
    es := [Advance(Switching)] + es;
    assert Next(w1, Advance(HookStarted)) == w2;
    Prepend(w1, Advance(HookStarted), es);
    es := [Advance(HookStarted)] + es;
    assert Next(w, Advance(Installed)) == w1;
    Prepend(w, Advance(Installed), es);
    es := [Advance(Installed)] + es;
  }
}
