/** install.json on disk: the operations of src/boxmunge/release_txn.py that read,
    write and remove it, over the directory release_keep works in. */
module InstallStore {
  import opened Options
  import opened ReleaseKeep
  import opened ReleaseTxn

  /** What install.json holds: a record, or anything this release did not write. */
  datatype Stored = Stored(txn: Txn) | Garbage

  class Install {
    const dir: ReleasesDir
    var file: Option<Stored>

    constructor (dir: ReleasesDir)
      ensures this.dir == dir && file == None
    {
      this.dir := dir;
      file := None;
    }

    function Current(): Expectation
      reads dir
    {
      Expectation(Lookup(dir.metas, LiveJson), Lookup(dir.metas, PreviousJson))
    }

    /** The open transaction, None, or Refused for anything it cannot vouch for. */
    method LoadTxn() returns (o: Outcome, t: Option<Txn>)
      ensures o.Refused? || o.Done?
      ensures o.Done? <==> file.None? || (file.value.Stored? && file.value.txn.Loadable())
      ensures o.Done? ==> (file.None? ==> t.None?) && (file.Some? ==> t == Some(file.value.txn))
    {
      if file.None? {
        return Done, None;
      }
      if file.value.Garbage? || !file.value.txn.Loadable() {
        return Refused, None;
      }
      return Done, Some(file.value.txn);
    }

    method Write(t: Txn) returns (o: Outcome)
      modifies this
      ensures !o.Refused?
      ensures file == old(file) || file == Some(Stored(t))
      ensures o.Done? ==> file == Some(Stored(t))
    {
      o := Survives();
      if !o.Done? {
        return;
      }
      file := Some(Stored(t));
      o := Survives();
    }

    method OpenTxn(r: Request) returns (o: Outcome)
      modifies this
      ensures old(file).Some? ==> o.Refused? && file == old(file)
      ensures file == old(file) || file == Some(Stored(Opened(r, dir.Now(), Current().live)))
      ensures o.Done? ==> file == Some(Stored(Opened(r, dir.Now(), Current().live)))
    {
      if file.Some? {
        return Refused;
      }
      var had := Previous in dir.dirs && dir.dirs[Previous].Dir?;
      var before := Lookup(dir.metas, PreviousJson);
      o := Write(NewTxn(r, Committed, Current(), before, had, Untouched));
    }

    /** A different attempt takes over `prior`, in one atomic write. */
    method SupersedeTxn(prior: Txn, r: Request, phase: Phase) returns (o: Outcome)
      modifies this
      ensures o.Done? ==> SupersededBy(prior, r, phase, Current()).Some?
                          && file == Some(Stored(SupersededBy(prior, r, phase, Current()).value))
      ensures !o.Done? ==> file == old(file) || file == Some(Stored(NewTxn(r, phase, Current(), prior.previousBefore,
                                                                    prior.hadPrevious, TouchedBy(prior))))
      ensures o.Refused? <==> old(file).None? || old(file).value.Garbage? || !old(file).value.txn.Loadable()
                              || old(file).value.txn.id != prior.id || prior.Abandons()
      ensures o.Refused? ==> file == old(file)
    {
      var onDisk: Option<Txn>;
      o, onDisk := LoadTxn();
      if !o.Done? {
        return;
      }
      if onDisk.None? || onDisk.value.id != prior.id {
        return Refused;
      }
      if prior.Abandons() {
        return Refused;
      }
      o := Write(NewTxn(r, phase, Current(), prior.previousBefore, prior.hadPrevious, TouchedBy(prior)));
    }

    method Advance(t: Txn, phase: Phase) returns (o: Outcome, n: Txn)
      modifies this
      ensures o.Refused? <==> Advanced(t, phase, Current()).None?
      ensures o.Done? ==> Some(n) == Advanced(t, phase, Current()) && file == Some(Stored(n))
      ensures !o.Done? ==> file == old(file)
                           || (o.Stopped? && file == Some(Stored(Advanced(t, phase, Current()).value)))
    {
      n := t;
      var order := t.Phases();
      if phase !in order || t.phase !in order || Position(phase) <= Position(t.phase) {
        o := Refused;
        return;
      }
      n := t.(phase := phase, expected := Current());
      o := Write(n);
    }

    method MarkAbandon(t: Txn, phase: Phase) returns (o: Outcome, n: Txn)
      modifies this
      ensures o.Refused? <==> Marked(t, phase, Current()).None?
      ensures o.Done? ==> Some(n) == Marked(t, phase, Current()) && file == Some(Stored(n))
      ensures !o.Done? ==> file == old(file)
                           || (o.Stopped? && file == Some(Stored(Marked(t, phase, Current()).value)))
    {
      n := t;
      if !IsAbandonPhase(phase) || t.DataMayHaveChanged() {
        o := Refused;
        return;
      }
      n := t.(phase := phase, expected := Current());
      o := Write(n);
    }

    /** previous.json names the kept release and the open attempt's snapshot. */
    method EnsureKeptPairing(t: Txn) returns (o: Outcome)
      modifies dir
      ensures var pairs := !t.source.Rollback? && t.replacedRef.Some? && !t.Abandons() && t.Reached(PreviousKept)
                           && IsDir(old(dir.Now()).previous);
              && (!pairs ==> o.Done? && dir.Now() == old(dir.Now()))
              && (pairs ==> dir.Now() == old(dir.Now()) || dir.Now() == old(dir.Now()).(meta := Some(KeptText(t))))
              && (pairs && o.Done? ==> dir.Now().meta == Some(KeptText(t)))
      ensures Lookup(dir.metas, LiveJson) == Lookup(old(dir.metas), LiveJson)
    {
      if t.source.Rollback? || t.replacedRef.None? || t.Abandons() || !t.Reached(PreviousKept) {
        return Done;
      }
      var text := KeptText(t);
      if !(Previous in dir.dirs && dir.dirs[Previous].Dir?) || Lookup(dir.metas, PreviousJson) == Some(text) {
        return Done;
      }
      o := dir.WriteMeta(PreviousJson, text);
    }

    method CloseTxn() returns (o: Outcome)
      modifies this, dir
      ensures dir.Now() in DiscardStages(old(dir.Now()))
      ensures file == old(file) || file == None
      ensures file != old(file) || o.Done? ==> dir.Now() == DiscardStages(old(dir.Now()))[2]
      ensures o.Done? ==> file == None
    {
      o := dir.DiscardSuperseded();
      if !o.Done? {
        return;
      }
      if file.Some? {
        :- Survives();
        file := None;
      }
      o := Survives();
    }

    method StaleReason(t: Txn) returns (problems: set<Problem>)
      ensures problems == StaleProblems(t, Current().live, dir.Now())
    {
      var now := Current();
      var liveOk := {t.expected.live, Some(LiveText(t.ref)),
                     if t.replacedRef.Some? then Some(LiveText(t.replacedRef.value)) else None};
      var prevOk := {t.expected.previous, t.previousBefore, Some(KeptText(t))};
      if t.source.Rollback? {
        prevOk := prevOk + {None};
      }
      problems := {};
      if now.live !in liveOk {
        problems := problems + {LiveChanged};
      }
      var keepInProgress := (t.phase.Committed? || t.Abandons()) && now.previous.None?
                            && Lookup(dir.metas, SupersededJson) == t.previousBefore;
      if now.previous !in prevOk && !keepInProgress {
        problems := problems + {PreviousChanged};
      }
    }
  }
}
