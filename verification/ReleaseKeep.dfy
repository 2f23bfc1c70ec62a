/** Keeping the release an install replaces, and undoing that keep after a stop
    at any point (src/boxmunge/release_keep.py, src/boxmunge/fileutil.py).

    Directories are maps from file names to contents. A metadata file is either
    absent or one text; a SHA-256 is modelled by the text it digests. */
module ReleaseKeep {
  import opened Options

  type Tree = map<string, string>

  datatype Node = Dir(files: Tree) | NotDir(what: string)

  /** What live.json, previous.json and previous.superseded.json may hold. */
  datatype Text =
    | LiveMeta(ref: string)
    | PreviousMeta(ref: string, snapshot: string, replacedAt: string, replacedBy: string)
    | OtherText(raw: string)

  /** Directory names under .releases/; Discarded(n) is n's `.discarded` debris. */
  datatype Name = Building | Previous | Superseded | Incoming | Discarded(of: Name)

  datatype MetaName = LiveJson | PreviousJson | SupersededJson

  /** The four names a keep and its undo move things between. */
  datatype Slots = Slots(previous: Option<Node>, superseded: Option<Node>,
                         meta: Option<Text>, superMeta: Option<Text>)

  predicate NothingAside(s: Slots) {
    s.superseded.None? && s.superMeta.None?
  }

  predicate IsDir(node: Option<Node>) {
    node.Some? && node.value.Dir?
  }

  predicate IsNotDir(node: Option<Node>) {
    node.Some? && node.value.NotDir?
  }

  // ---------------------------------------------------------------------
  // The states a run passes through, one per rename, unlink or write
  // ---------------------------------------------------------------------

  /** Where a keep of `code` begun at `a` can stop. A single state means the
      first rename was refused because its target name is taken. */
  function KeepStages(a: Slots, code: Tree, text: Text): seq<Slots> {
    if a.previous.Some? && a.superseded.Some? then [a]
    else
      var s1 := if a.previous.Some? then a.(previous := None, superseded := a.previous) else a;
      var s2 := if a.meta.Some? then s1.(meta := None, superMeta := a.meta) else s1;
      var s3 := s2.(previous := Some(Dir(code)));
      [a, s1, s2, s3, s3.(meta := Some(text))]
  }

  /** Where an undo begun at `a` can stop. A single state means the name to
      discard is not a real directory. */
  function RestoreStages(a: Slots, hadPrevious: bool, previousBefore: Option<Text>): seq<Slots> {
    var drop := a.superseded.Some? || !hadPrevious;
    if drop && IsNotDir(a.previous) then [a]
    else
      var s1 := if drop then a.(previous := None) else a;
      var s2 := if a.superseded.Some? then s1.(previous := a.superseded, superseded := None) else s1;
      var s3 := if a.superMeta.Some? || previousBefore.None? then s2.(meta := None) else s2;
      var s4 := if a.superMeta.Some? then s3.(meta := a.superMeta, superMeta := None) else s3;
      [a, s1, s2, s3, s4]
  }

  /** Where a rescue begun at `a` can stop. */
  function RescueStages(a: Slots): seq<Slots> {
    var s1 := if a.superseded.Some? && a.previous.None? then a.(previous := a.superseded, superseded := None) else a;
    var s2 := if s1.superMeta.Some? && s1.meta.None? then s1.(meta := s1.superMeta, superMeta := None) else s1;
    [a, s1, s2]
  }

  /** Where discarding what was moved aside can stop. */
  function DiscardStages(a: Slots): seq<Slots> {
    [a, a.(superseded := None), a.(superseded := None, superMeta := None)]
  }

  /** The state a run is in when it was cut after `stop` of its steps. */
  function CutAt(stages: seq<Slots>, stop: nat): Slots
    requires stages != []
  {
    if stop < |stages| then stages[stop] else stages[|stages| - 1]
  }

  predicate Completed(stages: seq<Slots>, stop: nat) {
    |stages| == 5 && stop >= 4
  }

  // ---------------------------------------------------------------------
  // The undo is exact after any sequence of interrupted attempts
  // ---------------------------------------------------------------------

  /** One run over an open install at `committed`: an undo cut somewhere, or an
      undo followed, only once it completed, by a keep cut somewhere. */
  datatype Visit =
    | Undo(stop: nat)
    | UndoThenKeep(undoStop: nat, keepStop: nat, code: Tree, text: Text)

  function AfterVisit(s: Slots, had: bool, before: Option<Text>, v: Visit): Slots {
    match v
    case Undo(stop) => CutAt(RestoreStages(s, had, before), stop)
    case UndoThenKeep(undoStop, keepStop, code, text) =>
      var stages := RestoreStages(s, had, before);
      var mid := CutAt(stages, undoStop);
      if Completed(stages, undoStop) then CutAt(KeepStages(mid, code, text), keepStop) else mid
  }

  function AfterVisits(s: Slots, had: bool, before: Option<Text>, visits: seq<Visit>): Slots
    decreases |visits|
  {
    if visits == [] then s
    else AfterVisits(AfterVisit(s, had, before, visits[0]), had, before, visits[1..])
  }

  /** What every stopping point has in common: whatever was moved aside is what
      the install found, and whatever was not moved aside is still in place. */
  ghost predicate Undoable(s: Slots, found: Slots) {
    && (s.superseded.Some? ==> s.superseded == found.previous && !IsNotDir(s.previous))
    && (s.superseded.None? ==> s.previous == found.previous || (found.previous.None? && IsDir(s.previous)))
    && (s.superMeta.Some? ==> s.superMeta == found.meta)
    && (s.superMeta.None? ==> s.meta == found.meta || found.meta.None?)
    && (IsNotDir(found.previous) ==> s == found)
  }

  lemma KeepStaysUndoable(found: Slots, code: Tree, text: Text, stop: nat)
    requires NothingAside(found) && !IsNotDir(found.previous)
    ensures Undoable(CutAt(KeepStages(found, code, text), stop), found)
  {
    var stages := KeepStages(found, code, text);
    assert |stages| == 5;
    var i := if stop < 5 then stop else 4;
    assert i == 0 || i == 1 || i == 2 || i == 3 || i == 4;
  }

  lemma RestoreStaysUndoable(s: Slots, found: Slots, stop: nat)
    requires NothingAside(found) && Undoable(s, found)
    ensures Undoable(CutAt(RestoreStages(s, IsDir(found.previous), found.meta), stop), found)
    ensures Completed(RestoreStages(s, IsDir(found.previous), found.meta), stop)
            ==> CutAt(RestoreStages(s, IsDir(found.previous), found.meta), stop) == found
    ensures |RestoreStages(s, IsDir(found.previous), found.meta)| == 1 <==> IsNotDir(found.previous)
  {
    var stages := RestoreStages(s, IsDir(found.previous), found.meta);
    if |stages| == 5 {
      var i := if stop < 5 then stop else 4;
      assert i == 0 || i == 1 || i == 2 || i == 3 || i == 4;
    }
  }

  lemma VisitStaysUndoable(s: Slots, found: Slots, v: Visit)
    requires NothingAside(found) && Undoable(s, found)
    ensures Undoable(AfterVisit(s, IsDir(found.previous), found.meta, v), found)
  {
    match v
    case Undo(stop) => RestoreStaysUndoable(s, found, stop);
    case UndoThenKeep(undoStop, keepStop, code, text) =>
      RestoreStaysUndoable(s, found, undoStop);
      if Completed(RestoreStages(s, IsDir(found.previous), found.meta), undoStop) {
        KeepStaysUndoable(found, code, text, keepStop);
      }
  }

  lemma {:induction false} VisitsStayUndoable(s: Slots, found: Slots, visits: seq<Visit>)
    requires NothingAside(found) && Undoable(s, found)
    ensures Undoable(AfterVisits(s, IsDir(found.previous), found.meta, visits), found)
    decreases |visits|
  {
    if visits != [] {
      VisitStaysUndoable(s, found, visits[0]);
      VisitsStayUndoable(AfterVisit(s, IsDir(found.previous), found.meta, visits[0]), found, visits[1..]);
    }
  }

  /** Crash-safe undo. Whatever was at the four names when the install opened
      (`previous/` may be absent, a directory, or something else), and however
      many keeps and undos were cut at whatever step since, one undo run to its
      end puts exactly that back. */
  lemma CrashSafeUndo(found: Slots, visits: seq<Visit>, stop: nat)
    requires NothingAside(found) && stop >= 4
    ensures CutAt(RestoreStages(AfterVisits(found, IsDir(found.previous), found.meta, visits),
                                IsDir(found.previous), found.meta), stop) == found
  {
    VisitsStayUndoable(found, found, visits);
    var s := AfterVisits(found, IsDir(found.previous), found.meta, visits);
    RestoreStaysUndoable(s, found, stop);
  }

  /** Nothing that was kept before is ever off the disk: at every stopping point
      the old `previous/` and previous.json are under one of their two names. */
  lemma NothingFoundIsEverLost(found: Slots, visits: seq<Visit>)
    requires NothingAside(found)
    ensures var s := AfterVisits(found, IsDir(found.previous), found.meta, visits);
            && (found.previous.Some? ==> s.previous == found.previous || s.superseded == found.previous)
            && (found.meta.Some? ==> s.meta == found.meta || s.superMeta == found.meta)
  {
    VisitsStayUndoable(found, found, visits);
  }

  /** Dropping the record of an install cut anywhere, a rescue run to its end and
      then a discard cut anywhere, leaves a rollback target where there was one,
      and its metadata where there was some. */
  lemma DroppingKeepsARollbackTarget(found: Slots, visits: seq<Visit>, stop: nat)
    requires NothingAside(found)
    ensures var s := AfterVisits(found, IsDir(found.previous), found.meta, visits);
            var n := CutAt(DiscardStages(RescueStages(s)[2]), stop);
            && (found.previous.Some? ==> n.previous.Some?) && (found.meta.Some? ==> n.meta.Some?)
            && (n.previous.Some? ==> n.previous == s.previous || n.previous == found.previous)
            && (n.meta.Some? ==> n.meta == s.meta || n.meta == found.meta)
  {
    VisitsStayUndoable(found, found, visits);
    var s := AfterVisits(found, IsDir(found.previous), found.meta, visits);
    var i := if stop < 3 then stop else 2;
    assert i == 0 || i == 1 || i == 2;
  }

  /** previous/ is a keep's, not what the install found. */
  predicate TreeIsNew(s: Slots, found: Slots) {
    s.previous.Some? && (s.superseded.Some? || found.previous.None?)
  }

  /** previous.json is a keep's, not what the install found. */
  predicate TextIsNew(s: Slots, found: Slots) {
    s.meta.Some? && (s.superMeta.Some? || found.meta.None?)
  }

  predicate KeptBy(v: Visit, previous: Option<Node>, meta: Option<Text>) {
    v.UndoThenKeep? && previous == Some(Dir(v.code)) && meta == Some(v.text)
  }

  /** A tree and metadata that belong together: those found, or those of one keep. */
  ghost predicate Paired(n: Slots, found: Slots, visits: seq<Visit>) {
    || (n.previous == found.previous && n.meta == found.meta)
    || exists i :: 0 <= i < |visits| && KeptBy(visits[i], n.previous, n.meta)
  }

  /** What is new in a state, some keep wrote; and if both are, the same one. */
  ghost predicate Provenance(s: Slots, found: Slots, visits: seq<Visit>) {
    && Undoable(s, found)
    && (TreeIsNew(s, found) ==>
          exists i :: 0 <= i < |visits| && visits[i].UndoThenKeep? && s.previous == Some(Dir(visits[i].code)))
    && (TextIsNew(s, found) ==>
          exists i :: 0 <= i < |visits| && visits[i].UndoThenKeep? && s.meta == Some(visits[i].text))
    && (TreeIsNew(s, found) && TextIsNew(s, found) ==>
          exists i :: 0 <= i < |visits| && KeptBy(visits[i], s.previous, s.meta))
  }

  lemma RestoreKeepsProvenance(s: Slots, found: Slots, visits: seq<Visit>, stop: nat)
    requires NothingAside(found) && Provenance(s, found, visits)
    ensures Provenance(CutAt(RestoreStages(s, IsDir(found.previous), found.meta), stop), found, visits)
  {
    RestoreStaysUndoable(s, found, stop);
    var stages := RestoreStages(s, IsDir(found.previous), found.meta);
    var n := CutAt(stages, stop);
    var i := if stop < |stages| then stop else |stages| - 1;
    assert i == 0 || i == 1 || i == 2 || i == 3 || i == 4;
    assert TreeIsNew(n, found) ==> TreeIsNew(s, found) && n.previous == s.previous;
    assert TextIsNew(n, found) ==> TextIsNew(s, found) && n.meta == s.meta;
  }

  lemma KeepHasProvenance(found: Slots, visits: seq<Visit>, k: nat, stop: nat)
    requires NothingAside(found) && !IsNotDir(found.previous) && k < |visits| && visits[k].UndoThenKeep?
    ensures Provenance(CutAt(KeepStages(found, visits[k].code, visits[k].text), stop), found, visits)
  {
    var code, text := visits[k].code, visits[k].text;
    KeepStaysUndoable(found, code, text, stop);
    var stages := KeepStages(found, code, text);
    var n := CutAt(stages, stop);
    var i := if stop < 5 then stop else 4;
    assert i == 0 || i == 1 || i == 2 || i == 3 || i == 4;
    assert TreeIsNew(n, found) ==> n.previous == Some(Dir(code));
    assert TextIsNew(n, found) ==> n.meta == Some(text);
  }

  lemma {:induction false} VisitsKeepProvenance(s: Slots, found: Slots, visits: seq<Visit>, from: nat)
    requires NothingAside(found) && Provenance(s, found, visits) && from <= |visits|
    ensures Provenance(AfterVisits(s, IsDir(found.previous), found.meta, visits[from..]), found, visits)
    decreases |visits| - from
  {
    if from < |visits| {
      var v, had, before := visits[from], IsDir(found.previous), found.meta;
      assert visits[from..][0] == v && visits[from..][1..] == visits[from + 1..];
      match v {
        case Undo(stop) => RestoreKeepsProvenance(s, found, visits, stop);
        case UndoThenKeep(undoStop, keepStop, code, text) =>
          RestoreKeepsProvenance(s, found, visits, undoStop);
          RestoreStaysUndoable(s, found, undoStop);
          if Completed(RestoreStages(s, had, before), undoStop) {
            KeepHasProvenance(found, visits, from, keepStop);
          }
      }
      VisitsKeepProvenance(AfterVisit(s, had, before, v), found, visits, from + 1);
    }
  }

  /** No keep writes over again what the install found. */
  ghost predicate AllDiffer(found: Slots, visits: seq<Visit>) {
    forall i :: 0 <= i < |visits| && visits[i].UndoThenKeep? ==>
      found.previous != Some(Dir(visits[i].code)) && found.meta != Some(visits[i].text)
  }

  /** After any keeps and undos, each cut anywhere, what a rescue leaves is a pair
      exactly when the tree and the metadata in place are both new or neither is:
      of each, a keep's is in place next to the one moved aside (or none was found). */
  lemma ARescuePairsExactlyWhen(found: Slots, visits: seq<Visit>)
    requires NothingAside(found)
    ensures var s := AfterVisits(found, IsDir(found.previous), found.meta, visits);
            var matched := TreeIsNew(s, found) <==> TextIsNew(s, found);
            && (matched ==> Paired(RescueStages(s)[2], found, visits))
            && (AllDiffer(found, visits) ==> (matched <==> Paired(RescueStages(s)[2], found, visits)))
  {
    VisitsKeepProvenance(found, found, visits, 0);
    assert visits[0..] == visits;
    var s := AfterVisits(found, IsDir(found.previous), found.meta, visits);
    var n := RescueStages(s)[2];
    assert n.previous == if TreeIsNew(s, found) then s.previous else found.previous;
    assert n.meta == if TextIsNew(s, found) then s.meta else found.meta;
  }

  /** It can leave a mismatch: a finished keep whose undo was cut between its two
      halves leaves the old tree with the new metadata. */
  lemma ACutUndoCanMispair(found: Slots, code: Tree, text: Text)
    requires NothingAside(found) && IsDir(found.previous) && found.meta.Some?
    requires found.previous != Some(Dir(code)) && found.meta != Some(text)
    ensures var visits := [UndoThenKeep(4, 4, code, text), Undo(2)];
            !Paired(RescueStages(AfterVisits(found, true, found.meta, visits))[2], found, visits)
  {
    var visits := [UndoThenKeep(4, 4, code, text), Undo(2)];
    var s := AfterVisit(found, true, found.meta, visits[0]);
    assert visits[1..] == [Undo(2)] && visits[1..][1..] == [];
    assert s == Slots(Some(Dir(code)), found.previous, Some(text), found.meta);
    var n := AfterVisit(s, true, found.meta, Undo(2));
    assert AfterVisits(n, true, found.meta, []) == n;
    assert AfterVisits(s, true, found.meta, [Undo(2)]) == n;
    assert AfterVisits(found, true, found.meta, visits) == n;
    ARescuePairsExactlyWhen(found, visits);
  }

  // ---------------------------------------------------------------------
  // The disk, changed one filesystem call at a time
  // ---------------------------------------------------------------------

  /** Names outside `touched` hold what they held. */
  ghost predicate SameExcept(now: map<Name, Node>, was: map<Name, Node>, touched: set<Name>) {
    forall n: Name :: n !in touched ==> Lookup(now, n) == Lookup(was, n)
  }

  class ReleasesDir {
    var dirs: map<Name, Node>
    var metas: map<MetaName, Text>

    function Now(): Slots
      reads this
    {
      Slots(Lookup(dirs, Previous), Lookup(dirs, Superseded),
            Lookup(metas, PreviousJson), Lookup(metas, SupersededJson))
    }

    /** shutil.rmtree of a real directory: file by file, in no fixed order. */
    method RemoveTree(name: Name) returns (o: Outcome)
      modifies this`dirs
      ensures SameExcept(dirs, old(dirs), {name})
      ensures o.Done? ==> name !in dirs
      ensures o.Refused? <==> !IsDir(Lookup(old(dirs), name))
      ensures o.Refused? ==> dirs == old(dirs)
    {
      if name !in dirs || dirs[name].NotDir? {
        return Refused;
      }
      while dirs[name].files.Keys != {}
        invariant name in dirs && dirs[name].Dir?
        invariant SameExcept(dirs, old(dirs), {name})
        decreases |dirs[name].files.Keys|
      {
        o := Survives();
        if !o.Done? {
          return;
        }
        var file :| file in dirs[name].files.Keys;
        var rest := dirs[name].files - {file};
        assert rest.Keys == dirs[name].files.Keys - {file};
        dirs := dirs[name := Dir(rest)];
      }
      :- Survives();
      dirs := dirs - {name};
      o := Survives();
    }

    /** fileutil.discard_dir: to its `.discarded` name first, then removed, so
        that a stop never leaves it half-deleted under its own name. */
    method DiscardDir(name: Name) returns (o: Outcome)
      modifies this`dirs
      ensures SameExcept(dirs, old(dirs), {name, Discarded(name)})
      ensures !name.Discarded? ==> name !in dirs || Lookup(dirs, name) == Lookup(old(dirs), name)
      ensures name !in old(dirs) ==> o.Done? && dirs == old(dirs)
      ensures o.Done? ==> name !in dirs
      ensures o.Done? && !name.Discarded? && name in old(dirs) ==> Discarded(name) !in dirs
      ensures IsNotDir(Lookup(old(dirs), name)) ==> o.Refused? && dirs == old(dirs)
    {
      if name !in dirs {
        return Done;
      }
      if name.Discarded? {
        o := RemoveTree(name);
        return;
      }
      if dirs[name].NotDir? {
        return Refused;
      }
      var doomed := Discarded(name);
      if doomed in dirs {
        :- RemoveTree(doomed);
        assert Lookup(dirs, name) == Lookup(old(dirs), name);
      }
      :- Survives();
      dirs := dirs[doomed := dirs[name]] - {name};
      :- Survives();
      o := RemoveTree(doomed);
    }

    /** fileutil.durable_rename_dir: refuses a target name that exists. */
    method RenameDir(src: Name, dest: Name) returns (o: Outcome)
      requires src in dirs && src != dest
      modifies this`dirs
      ensures dirs == old(dirs) || dirs == old(dirs)[dest := old(dirs)[src]] - {src}
      ensures o.Done? ==> dest !in old(dirs) && dirs == old(dirs)[dest := old(dirs)[src]] - {src}
      ensures o.Refused? <==> dest in old(dirs)
      ensures o.Refused? ==> dirs == old(dirs)
    {
      if dest in dirs {
        return Refused;
      }
      :- Survives();
      dirs := dirs[dest := dirs[src]] - {src};
      o := Survives();
    }

    /** fileutil.durable_rename: replaces whatever is at the target name. */
    method RenameMeta(src: MetaName, dest: MetaName) returns (o: Outcome)
      requires src in metas && src != dest
      modifies this`metas
      ensures !o.Refused?
      ensures metas == old(metas) || metas == old(metas)[dest := old(metas)[src]] - {src}
      ensures o.Done? ==> metas == old(metas)[dest := old(metas)[src]] - {src}
    {
      o := Survives();
      if !o.Done? {
        return;
      }
      metas := metas[dest := metas[src]] - {src};
      o := Survives();
    }

    /** fileutil.atomic_write_text: the old text or all of the new one. */
    method WriteMeta(name: MetaName, text: Text) returns (o: Outcome)
      modifies this`metas
      ensures !o.Refused?
      ensures metas == old(metas) || metas == old(metas)[name := text]
      ensures o.Done? ==> metas == old(metas)[name := text]
    {
      o := Survives();
      if !o.Done? {
        return;
      }
      metas := metas[name := text];
      o := Survives();
    }

    method UnlinkMeta(name: MetaName) returns (o: Outcome)
      requires name in metas
      modifies this`metas
      ensures !o.Refused?
      ensures metas == old(metas) || metas == old(metas) - {name}
      ensures o.Done? ==> metas == old(metas) - {name}
    {
      o := Survives();
      if !o.Done? {
        return;
      }
      metas := metas - {name};
      o := Survives();
    }

    /** Copies the live release's code entry by entry into `previous.building`. */
    method CopyCode(code: Tree) returns (o: Outcome)
      modifies this`dirs
      ensures SameExcept(dirs, old(dirs), {Building})
      ensures o.Done? ==> Lookup(dirs, Building) == Some(Dir(code))
    {
      var copied, left: Tree := map[], code;
      while left.Keys != {}
        invariant SameExcept(dirs, old(dirs), {Building})
        invariant copied.Keys + left.Keys == code.Keys
        invariant forall f :: f in copied ==> copied[f] == code[f]
        invariant forall f :: f in left ==> left[f] == code[f]
        decreases left.Keys
      {
        dirs := dirs[Building := Dir(copied)];
        :- Survives();
        var file :| file in left.Keys;
        copied, left := copied[file := left[file]], left - {file};
      }
      assert copied == code;
      dirs := dirs[Building := Dir(copied)];
      o := Survives();
    }

    /** release_keep.keep_previous_release_txn. `code` is the live release code
        and `text` the previous.json that pairs it with its snapshot; `ensured` is
        how starting the data-dir record ended, between the copy and the renames. */
    method KeepPrevious(code: Tree, text: Text, ensured: Outcome) returns (o: Outcome)
      modifies this
      ensures !ensured.Done? ==> !o.Done? && Now() == old(Now())
      ensures Now() in KeepStages(old(Now()), code, text)
      ensures o.Done? ==> Completed(KeepStages(old(Now()), code, text), 4)
                          && Now() == CutAt(KeepStages(old(Now()), code, text), 4)
      ensures Lookup(metas, LiveJson) == Lookup(old(metas), LiveJson)
    {
      ghost var stages := KeepStages(Now(), code, text);
      ghost var now := Now();
      assert stages[0] == now;
      o := DiscardDir(Building);
      if o.Done? {
        o := CopyCode(code);
      }
      assert Now() == now;
      if o.Done? {
        o := ensured;
      }
      if !o.Done? {
        return;
      }
      if Previous in dirs {
        o := RenameDir(Previous, Superseded);
        assert |stages| == 5 ==> stages[1] == now.(previous := None, superseded := now.previous);
        if !o.Done? {
          assert Now() == stages[0] || Now() == stages[1];
          return;
        }
      }
      assert |stages| == 5 && Now() == stages[1];
      if PreviousJson in metas {
        o := RenameMeta(PreviousJson, SupersededJson);
        assert Now() == stages[1] || Now() == stages[2];
        if !o.Done? {
          return;
        }
      }
      assert Now() == stages[2];
      o := RenameDir(Building, Previous);
      assert Now() == stages[2] || Now() == stages[3];
      if !o.Done? {
        return;
      }
      assert Now() == stages[3];
      o := WriteMeta(PreviousJson, text);
      assert Now() == stages[3] || Now() == stages[4];
    }

    /** release_keep.restore_superseded. */
    method RestoreSuperseded(hadPrevious: bool, previousBefore: Option<Text>) returns (o: Outcome)
      modifies this
      ensures Now() in RestoreStages(old(Now()), hadPrevious, previousBefore)
      ensures o.Done? ==> Completed(RestoreStages(old(Now()), hadPrevious, previousBefore), 4)
                          && Now() == CutAt(RestoreStages(old(Now()), hadPrevious, previousBefore), 4)
      ensures Lookup(metas, LiveJson) == Lookup(old(metas), LiveJson)
    {
      ghost var stages := RestoreStages(Now(), hadPrevious, previousBefore);
      ghost var now := Now();
      assert stages[0] == now;
      o := DiscardDir(Building);
      assert Now() == now;
      if !o.Done? {
        return;
      }
      if Superseded in dirs || !hadPrevious {
        o := DiscardDir(Previous);
        assert Now() == stages[0] || (|stages| == 5 && Now() == stages[1]);
        if !o.Done? {
          return;
        }
      }
      assert |stages| == 5 && Now() == stages[1];
      if Superseded in dirs {
        o := RenameDir(Superseded, Previous);
        assert Now() == stages[1] || Now() == stages[2];
        if !o.Done? {
          return;
        }
      }
      assert Now() == stages[2];
      if SupersededJson in metas {
        if PreviousJson in metas {
          o := UnlinkMeta(PreviousJson);
          assert Now() == stages[2] || Now() == stages[3];
          if !o.Done? {
            return;
          }
        }
        assert Now() == stages[3];
        o := RenameMeta(SupersededJson, PreviousJson);
        assert Now() == stages[3] || Now() == stages[4];
      } else {
        if previousBefore.None? && PreviousJson in metas {
          o := UnlinkMeta(PreviousJson);
          assert Now() == stages[2] || Now() == stages[3];
          if !o.Done? {
            return;
          }
        }
        assert Now() == stages[4];
        o := Done;
      }
    }

    /** release_keep.rescue_superseded. */
    method RescueSuperseded() returns (o: Outcome)
      modifies this
      ensures !o.Refused? && Now() in RescueStages(old(Now()))
      ensures o.Done? ==> Now() == RescueStages(old(Now()))[2]
      ensures Lookup(metas, LiveJson) == Lookup(old(metas), LiveJson)
    {
      ghost var stages := RescueStages(Now());
      o := Done;
      assert Now() == stages[0];
      if Superseded in dirs && Previous !in dirs {
        o := RenameDir(Superseded, Previous);
        assert Now() == stages[0] || Now() == stages[1];
        if !o.Done? {
          return;
        }
      }
      assert Now() == stages[1];
      if SupersededJson in metas && PreviousJson !in metas {
        o := RenameMeta(SupersededJson, PreviousJson);
      }
      assert Now() == stages[1] || Now() == stages[2];
    }

    /** release_keep.discard_superseded: the last use of what was moved aside. */
    method DiscardSuperseded() returns (o: Outcome)
      modifies this
      ensures Now() in DiscardStages(old(Now()))
      ensures o.Done? ==> Now() == DiscardStages(old(Now()))[2]
      ensures Lookup(metas, LiveJson) == Lookup(old(metas), LiveJson)
    {
      ghost var stages := DiscardStages(Now());
      assert Now() == stages[0];
      o := DiscardDir(Superseded);
      assert Now() == stages[0] || Now() == stages[1];
      if !o.Done? {
        return;
      }
      assert Now() == stages[1];
      if SupersededJson in metas {
        o := UnlinkMeta(SupersededJson);
      }
      assert Now() == stages[1] || Now() == stages[2];
    }
  }
}
