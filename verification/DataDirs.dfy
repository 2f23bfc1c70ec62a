/** Which top-level entries of a project hold data the app writes, and which a
    release may replace (src/boxmunge/data_dirs.py; _check is that of
    src/boxmunge/release.py). */
module DataDirs {
  import opened Options

  type Name = string

  /** A compose.yml is the mounts it declares: top-level entry -> read-write? */
  datatype Content = Compose(binds: map<Name, bool>) | Plain(bytes: string)

  datatype Entry = Dir(children: map<string, Entry>) | File(content: Content) | Link(target: string)

  type Tree = map<Name, Entry>

  const COMPOSE_YML: Name := "compose.yml"

  const BOX_OWNED_ENTRIES: set<Name> := {"secrets.env", "security", "data", "backups", "caddy.override.conf"}
  const BOXMUNGE_ENTRIES: set<Name> :=
    {"repo", ".releases", "compose.boxmunge.yml", "compose.boxmunge-staging.yml", "compose.staging-base.yml"}
  const BOX: set<Name> := BOX_OWNED_ENTRIES + BOXMUNGE_ENTRIES

  datatype Record = NoRecord | Recorded(names: set<Name>) | Unreadable

  function StagingCopy(name: Name): Name {
    name + "-staging"
  }

  predicate HoldsData(e: Option<Entry>): (holds: bool)
    ensures holds <==> e != None && e != Some(Dir(map[]))
  {
    match e
    case None => false
    case Some(Dir(children)) => children != map[]
    case Some(_) => true
  }

  predicate IsPlaceholderFile(name: string, e: Entry)
    decreases e
  {
    match e
    case Dir(children) => forall c :: c in children ==> IsPlaceholderFile(c, children[c])
    case File(content) => content == Plain("") && (name == ".gitkeep" || name == ".keep")
    case Link(_) => false
  }

  predicate IsPlaceholder(e: Entry) {
    e.Dir? && forall c :: c in e.children ==> IsPlaceholderFile(c, e.children[c])
  }

  /** What there is at a path inside the entry. */
  function Below(e: Entry, path: seq<string>): Option<Entry>
    decreases path
  {
    if path == [] then Some(e)
    else if e.Dir? && path[0] in e.children then Below(e.children[path[0]], path[1..]) else None
  }

  /** An inner path that may be in a placeholder: a directory, or an empty keep file. */
  predicate Harmless(e: Entry, path: seq<string>) {
    && path != [] && Below(e, path).Some?
    && var inner := Below(e, path).value;
       inner.Dir? || (path[|path| - 1] in {".gitkeep", ".keep"} && inner == File(Plain("")))
  }

  lemma BelowChild(e: Entry, name: string, path: seq<string>)
    requires e.Dir? && name in e.children && path != []
    ensures Below(e, [name] + path) == Below(e.children[name], path)
    ensures Harmless(e, [name] + path) <==> Harmless(e.children[name], path)
  {
    assert ([name] + path)[1..] == path;
  }

  lemma {:induction false} PlaceholderFileExactly(e: Entry, name: string)
    requires e.Dir? && name in e.children
    ensures IsPlaceholderFile(name, e.children[name])
            <==> forall path :: path != [] && path[0] == name && Below(e, path).Some? ==> Harmless(e, path)
    decreases e
  {
    var child := e.children[name];
    assert Below(e, [name]) == Some(child);
    forall path | |path| > 1 && path[0] == name
      ensures Below(e, path) == Below(child, path[1..]) && (Harmless(e, path) <==> Harmless(child, path[1..]))
    {
      BelowChild(e, name, path[1..]);
      assert path == [name] + path[1..];
    }
    if child.Dir? {
      forall c | c in child.children
        ensures IsPlaceholderFile(c, child.children[c])
                <==> forall path :: path != [] && path[0] == c && Below(child, path).Some? ==> Harmless(child, path)
      {
        PlaceholderFileExactly(child, c);
      }
      if exists path :: path != [] && Below(child, path).Some? && !Harmless(child, path) {
        var path :| path != [] && Below(child, path).Some? && !Harmless(child, path);
        BelowChild(e, name, path);
        assert ([name] + path)[0] == name;
      }
    }
  }

  /** A placeholder is a directory with nothing but directories and empty keep files
      anywhere in it. */
  lemma PlaceholderExactlyWhen(e: Entry)
    ensures IsPlaceholder(e)
            <==> e.Dir? && forall path :: path != [] && Below(e, path).Some? ==> Harmless(e, path)
  {
    if e.Dir? {
      forall c | c in e.children
        ensures IsPlaceholderFile(c, e.children[c])
                <==> forall path :: path != [] && path[0] == c && Below(e, path).Some? ==> Harmless(e, path)
      {
        PlaceholderFileExactly(e, c);
      }
      if !IsPlaceholder(e) {
        var c :| c in e.children && !IsPlaceholderFile(c, e.children[c]);
        var path :| path != [] && path[0] == c && Below(e, path).Some? && !Harmless(e, path);
      }
    }
  }

  /** The mounts of the compose file at hand; None when it cannot be read. */
  function Binds(compose: Option<Entry>): Option<map<Name, bool>> {
    match compose
    case None => Some(map[])
    case Some(File(Compose(binds))) => Some(binds)
    case Some(_) => None
  }

  function ReadWrite(binds: map<Name, bool>): set<Name> {
    set n | n in binds && binds[n]
  }

  function LiveReadWrite(entries: Tree): set<Name> {
    ReadWriteBy(Lookup(entries, COMPOSE_YML))
  }

  /** The entries a compose file mounts, and those it mounts read-write. */
  function MountedBy(compose: Option<Entry>): set<Name> {
    if Binds(compose).None? then {} else Binds(compose).value.Keys
  }

  function ReadWriteBy(compose: Option<Entry>): set<Name> {
    if Binds(compose).None? then {} else ReadWrite(Binds(compose).value)
  }

  predicate Occupied(entries: Tree, name: Name) {
    HoldsData(Lookup(entries, name)) || HoldsData(Lookup(entries, StagingCopy(name)))
  }

  datatype Classes = Classes(
    release: set<Name>, recorded: set<Name>, mounted: set<Name>,
    seeded: set<Name>, adopted: set<Name>, staged: set<Name>)
  {
    function BoxState(): set<Name> {
      BOX + recorded + set t | t in mounted + recorded + staged :: StagingCopy(t)
    }
  }

  function Shipped(tree: Tree): set<Name> {
    set n | n in tree && !IsPlaceholder(tree[n])
  }

  /** data_dirs.classify for installing `tree`; None for an unreadable record or
      compose file. `kept` is the kept release's compose file, read only while
      there is no record, and `staged` the staged release's. */
  function Classify(entries: Tree, tree: Tree, record: Record,
                    kept: Option<Entry>, staged: Option<Entry>): Option<Classes> {
    var live, incoming := Binds(Lookup(entries, COMPOSE_YML)), Binds(Lookup(tree, COMPOSE_YML));
    var older, slot := if record.NoRecord? then Binds(kept) else Some(map[]), Binds(staged);
    if live.None? || incoming.None? || older.None? || slot.None? || record.Unreadable? then None
    else
      var release, liveRw := ReadWrite(incoming.value), ReadWrite(live.value);
      var stored := if record.Recorded? then record.names else {};
      var adopted := ReadWrite(older.value) * (live.value.Keys - liveRw) * Shipped(tree);
      var candidates := stored + liveRw + (ReadWrite(older.value) - adopted);
      var mounted := live.value.Keys + incoming.value.Keys;
      var recorded := release + mounted * candidates + (set n | n in candidates && Occupied(entries, n)) - BOX;
      Some(Classes(release, recorded, mounted, recorded - release - liveRw - stored,
                   adopted - recorded, slot.value.Keys))
  }

  datatype Refusal =
    | NotReadable | CarriesBoxEntries(names: set<Name>) | ShipsMounted(names: set<Name>)
    | ShipsSeeded(names: set<Name>) | ShipsOccupied(names: set<Name>)

  /** release._check. */
  function Check(entries: Tree, tree: Tree, dirs: Classes): Option<Refusal> {
    var forbidden := tree.Keys * BOX;
    var mounted := Shipped(tree) * dirs.release;
    var occupied := set n | n in Shipped(tree) * dirs.recorded && Occupied(entries, n);
    if forbidden != {} then Some(CarriesBoxEntries(forbidden))
    else if mounted != {} then Some(ShipsMounted(mounted))
    else if occupied * dirs.seeded != {} then Some(ShipsSeeded(occupied * dirs.seeded))
    else if occupied != {} then Some(ShipsOccupied(occupied)) else None
  }

  /** Recorded entries that become release code: shipped, holding nothing, and
      not mounted read-write by the release. */
  function Taken(entries: Tree, tree: Tree, dirs: Classes): set<Name> {
    set n | n in tree.Keys * dirs.recorded && n !in dirs.release && !Occupied(entries, n)
  }

  function AfterInstall(entries: Tree, tree: Tree, dirs: Classes): Classes {
    dirs.(recorded := dirs.recorded - Taken(entries, tree, dirs))
  }

  // ---------------------------------------------------------------------
  // What classification promises
  // ---------------------------------------------------------------------

  /** An entry that holds data and is on record, or is mounted read-write by the
      live release, is on the next record, whatever the incoming release is. */
  lemma DataStaysOnRecord(entries: Tree, tree: Tree, record: Record, kept: Option<Entry>, staged: Option<Entry>,
                          name: Name)
    requires Classify(entries, tree, record, kept, staged).Some?
    requires (record.Recorded? && name in record.names) || name in LiveReadWrite(entries)
    requires name !in BOX && Occupied(entries, name)
    ensures name in AfterInstall(entries, tree, Classify(entries, tree, record, kept, staged).value).recorded
  {
  }

  /** So does one a kept release mounted read-write while there is no record yet,
      unless it is one of the entries set aside. */
  lemma KeptDataIsRecordedOrSetAside(entries: Tree, tree: Tree, kept: Option<Entry>, staged: Option<Entry>, name: Name)
    requires Classify(entries, tree, NoRecord, kept, staged).Some?
    requires Binds(kept).Some? && name in ReadWrite(Binds(kept).value)
    requires name !in BOX && Occupied(entries, name)
    ensures var dirs := Classify(entries, tree, NoRecord, kept, staged).value;
            && (name in AfterInstall(entries, tree, dirs).recorded || name in dirs.adopted)
            && (name in dirs.adopted ==> name in Shipped(tree) && name !in LiveReadWrite(entries))
  {
  }

  // ---------------------------------------------------------------------
  // Whose data an entry is, without the classes
  // ---------------------------------------------------------------------

  /** The record, or the live compose file, says the app writes there. */
  predicate Claimed(entries: Tree, record: Record, name: Name) {
    (record.Recorded? && name in record.names) || name in LiveReadWrite(entries)
  }

  /** So does the incoming release, or while there is no record the kept one. */
  predicate IsData(entries: Tree, tree: Tree, record: Record, kept: Option<Entry>, name: Name) {
    && name !in BOX
    && (Claimed(entries, record, name) || name in LiveReadWrite(tree)
        || (record.NoRecord? && name in ReadWriteBy(kept)))
  }

  /** An entry some compose file at hand mounts, or data: staging may have a copy. */
  predicate MayBeStaged(entries: Tree, tree: Tree, record: Record, kept: Option<Entry>, staged: Option<Entry>,
                        name: Name) {
    || name in MountedBy(Lookup(entries, COMPOSE_YML)) || name in MountedBy(Lookup(tree, COMPOSE_YML))
    || name in MountedBy(staged) || IsData(entries, tree, record, kept, name)
  }

  /** Data, and the staging copy of what may be staged, is box state. */
  lemma DataIsBoxState(entries: Tree, tree: Tree, record: Record, kept: Option<Entry>, staged: Option<Entry>,
                       name: Name)
    requires Classify(entries, tree, record, kept, staged).Some?
    ensures var dirs := Classify(entries, tree, record, kept, staged).value;
            && dirs.adopted <= tree.Keys
            && (IsData(entries, tree, record, kept, name) && HoldsData(Lookup(entries, name)) && name !in tree ==>
                  name in dirs.recorded)
            && (MayBeStaged(entries, tree, record, kept, staged, name)
                && HoldsData(Lookup(entries, StagingCopy(name))) ==>
                  StagingCopy(name) in dirs.BoxState())
  {
    var dirs := Classify(entries, tree, record, kept, staged).value;
    if MayBeStaged(entries, tree, record, kept, staged, name) && HoldsData(Lookup(entries, StagingCopy(name))) {
      assert name in dirs.mounted + dirs.recorded + dirs.staged;
    }
  }

  /** Everything the classification reads can be read. */
  predicate Readable(entries: Tree, tree: Tree, record: Record, kept: Option<Entry>, staged: Option<Entry>) {
    && !record.Unreadable? && Binds(Lookup(entries, COMPOSE_YML)).Some? && Binds(Lookup(tree, COMPOSE_YML)).Some?
    && Binds(staged).Some? && (record.NoRecord? ==> Binds(kept).Some?)
  }

  /** A release may be installed when all can be read, it ships nothing of the box's
      own, and whatever it ships but placeholders it does not mount read-write
      itself, nor is it for an entry that holds data and that the record or the live
      release, or without a record the kept one, says the app writes; of these last,
      the live release must not mount it read-only. */
  predicate Installable(entries: Tree, tree: Tree, record: Record, kept: Option<Entry>, staged: Option<Entry>) {
    && Readable(entries, tree, record, kept, staged) && tree.Keys !! BOX
    && forall n :: n in tree && !IsPlaceholder(tree[n]) ==>
         && n !in LiveReadWrite(tree)
         && (HoldsData(Lookup(entries, n)) || HoldsData(Lookup(entries, StagingCopy(n))) ==>
               && !Claimed(entries, record, n)
               && (record.NoRecord? && n in ReadWriteBy(kept) ==> n in MountedBy(Lookup(entries, COMPOSE_YML))))
  }

  lemma PassesExactlyWhen(entries: Tree, tree: Tree, dirs: Classes)
    ensures Check(entries, tree, dirs).None?
            <==> tree.Keys !! BOX
                 && forall n :: n in tree && !IsPlaceholder(tree[n]) ==>
                      n !in dirs.release && (Occupied(entries, n) ==> n !in dirs.recorded)
  {
    var occupied := set n | n in Shipped(tree) * dirs.recorded && Occupied(entries, n);
    assert forall n :: n in occupied <==> n in tree && !IsPlaceholder(tree[n]) && n in dirs.recorded
                                          && Occupied(entries, n);
    assert forall n :: n in Shipped(tree) * dirs.release <==> n in tree && !IsPlaceholder(tree[n]) && n in dirs.release;
    assert forall n :: n in tree.Keys * BOX <==> n in tree && n in BOX;
  }

  lemma OccupiedIsRecordedExactlyWhen(entries: Tree, tree: Tree, record: Record, kept: Option<Entry>,
                                      staged: Option<Entry>, name: Name)
    requires Classify(entries, tree, record, kept, staged).Some?
    requires name in Shipped(tree) && name !in BOX && name !in LiveReadWrite(tree) && Occupied(entries, name)
    ensures name in Classify(entries, tree, record, kept, staged).value.recorded
            <==> || Claimed(entries, record, name)
                 || (record.NoRecord? && name in ReadWriteBy(kept) && name !in MountedBy(Lookup(entries, COMPOSE_YML)))
  {
  }

  lemma RefusedExactlyWhen(entries: Tree, tree: Tree, record: Record, kept: Option<Entry>, staged: Option<Entry>)
    ensures var dirs := Classify(entries, tree, record, kept, staged);
            Installable(entries, tree, record, kept, staged)
            <==> dirs.Some? && Check(entries, tree, dirs.value).None?
  {
    var classes := Classify(entries, tree, record, kept, staged);
    if classes.Some? && tree.Keys !! BOX {
      var dirs := classes.value;
      PassesExactlyWhen(entries, tree, dirs);
      assert dirs.release == LiveReadWrite(tree);
      forall n | n in tree && !IsPlaceholder(tree[n]) && n !in LiveReadWrite(tree) && Occupied(entries, n)
        ensures n in dirs.recorded
                <==> || Claimed(entries, record, n)
                     || (record.NoRecord? && n in ReadWriteBy(kept) && n !in MountedBy(Lookup(entries, COMPOSE_YML)))
      {
        OccupiedIsRecordedExactlyWhen(entries, tree, record, kept, staged, n);
      }
    } else if classes.Some? {
      PassesExactlyWhen(entries, tree, classes.value);
    }
  }

  /** A release that passes the check ships, for an entry that is on record, only
      a placeholder or something for an entry that holds nothing. */
  lemma CheckedReleaseShipsNothingOverData(entries: Tree, tree: Tree, dirs: Classes, name: Name)
    requires Check(entries, tree, dirs).None?
    requires name in tree && name in dirs.recorded && HoldsData(Lookup(entries, name))
    ensures IsPlaceholder(tree[name]) && name !in BOX
  {
    var occupied := set n | n in Shipped(tree) * dirs.recorded && Occupied(entries, n);
    assert name in Shipped(tree) ==> name in occupied;
    assert name in tree.Keys * BOX <==> name in BOX;
  }
}
