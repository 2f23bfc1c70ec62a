/** Installing a release over a live project without ever losing what the app
    wrote (src/boxmunge/release.py, src/boxmunge/data_dirs.py). Every step can be
    the last one, and between any two steps the running containers may write
    through the mounts they were started with. */
module Installer {
  import opened Options
  import opened DataDirs
  import opened Ledger

  /** A directory under .releases/retained/. */
  datatype Dest = Dest(name: Name, stamp: nat)

  type Retained = map<Dest, map<string, Entry>>

  /** What there is at an entry, piece by piece, as set-aside moves it. */
  function Contents(entries: Tree, name: Name): map<string, Entry> {
    if name !in entries then map[]
    else if entries[name].Dir? then entries[name].children else map[name := entries[name]]
  }

  /** The piece is still at its entry, or in some directory set aside for it. */
  ghost predicate Somewhere(entries: Tree, retained: Retained, name: Name, piece: string, e: Entry) {
    || (piece in Contents(entries, name) && Contents(entries, name)[piece] == e)
    || IsAside(retained, name, piece, e)
  }

  /** Some directory set aside for the entry has the piece. */
  ghost predicate IsAside(retained: Retained, name: Name, piece: string, e: Entry) {
    exists d :: d in retained && d.name == name && piece in retained[d] && retained[d][piece] == e
  }

  /** Nothing set aside is ever changed or dropped. */
  ghost predicate Grows(was: Retained, now: Retained) {
    forall d :: d in was ==> d in now && forall p :: p in was[d] ==> p in now[d] && now[d][p] == was[d][p]
  }

  /** Every piece that was there for these entries is there or set aside. */
  ghost predicate NothingLost(was: Tree, entries: Tree, retained: Retained, names: set<Name>) {
    forall n, p :: n in names && p in Contents(was, n) ==> Somewhere(entries, retained, n, p, Contents(was, n)[p])
  }

  /** Only these entries may differ. */
  ghost predicate SameExcept(was: Tree, now: Tree, names: set<Name>) {
    forall n: Name :: n !in names ==> Lookup(now, n) == Lookup(was, n)
  }

  ghost predicate SameDests(was: Retained, now: Retained, dest: Dest) {
    forall d: Dest :: d != dest ==> Lookup(now, d) == Lookup(was, d)
  }

  lemma NewDestGrows(was: Retained, now: Retained, dest: Dest)
    requires dest !in was && SameDests(was, now, dest)
    ensures Grows(was, now)
  {
    forall d | d in was
      ensures d in now && now[d] == was[d]
    {
      assert Lookup(now, d) == Lookup(was, d);
    }
  }

  /** Every piece is in one of the two. */
  ghost predicate Parted(was: map<string, Entry>, here: map<string, Entry>, there: map<string, Entry>) {
    forall p :: p in was ==> (p in here && here[p] == was[p]) || (p in there && there[p] == was[p])
  }

  lemma PartedOn(was: map<string, Entry>, here: map<string, Entry>, there: map<string, Entry>, piece: string)
    requires Parted(was, here, there) && piece in here && here.Keys !! there.Keys
    ensures Parted(was, here - {piece}, there[piece := here[piece]])
    ensures (here - {piece}).Keys !! there[piece := here[piece]].Keys
  {
  }

  lemma SomewhereStays(was: Tree, wasRetained: Retained, now: Tree, retained: Retained, name: Name, piece: string,
                       e: Entry)
    requires Somewhere(was, wasRetained, name, piece, e) && Grows(wasRetained, retained)
    requires piece in Contents(was, name) ==> Somewhere(now, retained, name, piece, Contents(was, name)[piece])
    ensures Somewhere(now, retained, name, piece, e)
  {
    if !(piece in Contents(was, name) && Contents(was, name)[piece] == e) {
      var d :| d in wasRetained && d.name == name && piece in wasRetained[d] && wasRetained[d][piece] == e;
      assert d in retained;
    }
  }

  /** Losing nothing, step after step, is losing nothing. */
  lemma NothingLostStep(first: Tree, was: Tree, wasRetained: Retained, now: Tree, retained: Retained,
                        names: set<Name>, name: Name)
    requires NothingLost(first, was, wasRetained, names) && Grows(wasRetained, retained)
    requires NothingLost(was, now, retained, {name})
    requires forall n :: n in names && n != name ==> Lookup(now, n) == Lookup(was, n)
    ensures NothingLost(first, now, retained, names)
  {
    forall n, p | n in names && p in Contents(first, n)
      ensures Somewhere(now, retained, n, p, Contents(first, n)[p])
    {
      if n != name {
        assert Lookup(now, n) == Lookup(was, n);
        assert Contents(now, n) == Contents(was, n);
      }
      SomewhereStays(was, wasRetained, now, retained, n, p, Contents(first, n)[p]);
    }
  }

  lemma NothingLostSame(first: Tree, was: Tree, now: Tree, retained: Retained, names: set<Name>)
    requires NothingLost(first, was, retained, names)
    requires forall n :: n in names ==> Lookup(now, n) == Lookup(was, n)
    ensures NothingLost(first, now, retained, names)
  {
    forall n, p | n in names && p in Contents(first, n)
      ensures Somewhere(now, retained, n, p, Contents(first, n)[p])
    {
      assert Lookup(now, n) == Lookup(was, n);
      assert Contents(now, n) == Contents(was, n);
      SomewhereStays(was, retained, now, retained, n, p, Contents(first, n)[p]);
    }
  }

  /** Every piece the log says was moved is where it was moved to. */
  ghost predicate Kept(log: seq<Happening>, retained: Retained) {
    log == []
    || var h := log[|log| - 1];
       && Kept(log[..|log| - 1], retained)
       && (h.Moved? ==> IsAside(retained, h.name, h.piece, h.e))
  }

  lemma {:induction false} KeptOn(log: seq<Happening>, was: Retained, now: Retained)
    requires Kept(log, was) && Grows(was, now)
    ensures Kept(log, now)
    decreases |log|
  {
    if log != [] {
      KeptOn(log[..|log| - 1], was, now);
      var h := log[|log| - 1];
      if h.Moved? {
        var d :| d in was && d.name == h.name && h.piece in was[d] && was[d][h.piece] == h.e;
        assert d in now;
      }
    }
  }

  lemma KeptThen(log: seq<Happening>, h: Happening, retained: Retained)
    requires Kept(log, retained)
    requires h.Moved? ==> IsAside(retained, h.name, h.piece, h.e)
    ensures Kept(log + [h], retained)
  {
    assert (log + [h])[..|log|] == log;
  }

  /** None of these holds data. */
  ghost predicate NoneHold(entries: Tree, names: set<Name>) {
    forall n :: n in names ==> !HoldsData(Lookup(entries, n))
  }

  lemma NoneHoldOn(was: Tree, now: Tree, adopted: set<Name>, left: set<Name>, name: Name)
    requires NoneHold(was, adopted - left) && name in left && left <= adopted
    requires forall n :: n in adopted && n != name ==> Lookup(now, n) == Lookup(was, n)
    ensures !HoldsData(Lookup(now, name)) ==> NoneHold(now, adopted - (left - {name}))
  {
  }

  /** The app's data is there as the app left it. */
  ghost predicate Agrees(app: Tree, entries: Tree) {
    forall n :: n in app ==> Lookup(entries, n) == Some(app[n]) && HoldsData(Some(app[n]))
  }

  lemma AgreesElsewhere(app: Tree, was: Tree, now: Tree, name: Name)
    requires Agrees(app, was) && SameExcept(was, now, {name}) && name !in app
    ensures Agrees(app, now)
  {
    forall n | n in app
      ensures Lookup(now, n) == Some(app[n])
    {
      assert Lookup(now, n) == Lookup(was, n);
    }
  }

  lemma AgreesAfterAWrite(app: Tree, was: Tree, now: Tree, name: Name, content: Option<Entry>)
    requires Agrees(app, was) && SameExcept(was, now, {name}) && Lookup(now, name) == content
    ensures Agrees(Apply(app, Wrote(name, content)), now)
  {
    forall n | n in Apply(app, Wrote(name, content)) && n != name
      ensures Lookup(now, n) == Some(app[n])
    {
      assert Lookup(now, n) == Lookup(was, n);
    }
  }

  lemma AgreesAfterAMove(app: Tree, was: Tree, now: Tree, name: Name, piece: string, e: Entry)
    requires Agrees(app, was) && SameExcept(was, now, {name}) && name in was
    requires Lookup(now, name) == if was[name].Dir? then Some(Dir(was[name].children - {piece})) else None
    ensures Agrees(Apply(app, Moved(name, piece, e)), now)
  {
    forall n | n in Apply(app, Moved(name, piece, e)) && n != name
      ensures Lookup(now, n) == Some(app[n])
    {
      assert Lookup(now, n) == Lookup(was, n);
    }
    assert name in app ==> Lookup(was, name) == Some(app[name]);
  }

  class Project {
    var entries: Tree           // the project directory, top level
    var record: Record          // .releases/data-dirs.json
    var retained: Retained
    var keptCompose: Option<Entry>    // .releases/previous/compose.yml
    var stagedCompose: Option<Entry>  // the staged release's
    var mounts: set<Name>       // what the running containers were started with, read-write
    /** Each entry's inode: a running container's mount follows it, not the name. */
    var inodes: map<Name, nat>
    ghost var book: Book
    /** What containers wrote to since the running install began. */
    ghost var written: set<Name>

    /** Any project may be where a history begins: its containers run the live compose
        file, and what the app has is the data at entries on record or mounted. */
    constructor (entries: Tree, record: Record, keptCompose: Option<Entry>, stagedCompose: Option<Entry>,
                 inodes: map<Name, nat>)
      requires COMPOSE_YML !in LiveReadWrite(entries) + ReadWriteBy(keptCompose)
      ensures this.entries == entries && this.record == record && this.inodes == inodes
      ensures this.keptCompose == keptCompose && this.stagedCompose == stagedCompose
      ensures Safe() && mounts == LiveReadWrite(entries) && written == {} && retained == map[] && book.log == []
      ensures forall n :: n in book.start <==> n in entries && n != COMPOSE_YML && OnRecord(n)
                                               && HoldsData(Some(entries[n]))
      ensures forall n :: n in book.start ==> book.start[n] == entries[n]
    {
      this.entries, this.record, this.inodes := entries, record, inodes;
      this.keptCompose, this.stagedCompose := keptCompose, stagedCompose;
      mounts, written, retained := LiveReadWrite(entries), {}, map[];
      new;
      ghost var app :=
        map n | n in entries && n != COMPOSE_YML && OnRecord(n) && HoldsData(Some(entries[n])) :: entries[n];
      book := Book(app, mounts, [], app, {}, mounts, {});
    }

    /** What classification goes by: the record, the live compose file and, while
        there is no record, the kept release's. */
    predicate OnRecord(name: Name)
      reads this
    {
      || name in BOX || (record.Recorded? && name in record.names) || name in LiveReadWrite(entries)
      || (record.NoRecord? && Binds(keptCompose).Some? && name in ReadWrite(Binds(keptCompose).value))
    }

    /** The app's data is as the app left it, and on record or mounted, except
        where an install has seen nothing and the app wrote since. A project with
        no record yet runs its live compose file. */
    ghost predicate Safe()
      reads this
    {
      && book.Valid() && Kept(book.log, retained) && book.mounts == mounts && book.written == written
      && COMPOSE_YML !in LiveReadWrite(entries) + mounts + written && COMPOSE_YML !in book.app
      && (Binds(keptCompose).Some? ==> COMPOSE_YML !in ReadWrite(Binds(keptCompose).value))
      && (record.NoRecord? ==> mounts <= LiveReadWrite(entries))
      && Agrees(book.app, entries) && Guarded()
    }

    ghost predicate Guarded()
      reads this
    {
      forall n :: n in book.app || n in mounts ==> OnRecord(n) || n in book.exposed
    }

    /** Only containers have acted. */
    ghost predicate Ran(was: Tree, wasBook: Book, wasWritten: set<Name>)
      reads this
    {
      && SameExcept(was, entries, written) && LiveReadWrite(entries) == LiveReadWrite(was)
      && book.Continues(wasBook) && book.exposed == wasBook.exposed && book.app.Keys <= wasBook.app.Keys + mounts
      && wasWritten <= written <= wasWritten + mounts
    }

    /** One write, or deletion, through a read-write mount. */
    method WriteThrough(name: Name, content: Option<Entry>)
      requires Safe() && name in mounts
      modifies this`entries, this`book, this`written
      ensures Safe() && Ran(old(entries), old(book), old(written))
      ensures Lookup(entries, name) == content && SameExcept(old(entries), entries, {name})
      ensures written == old(written) + {name} && book == old(book).Then(Wrote(name, content))
    {
      ghost var was := entries;
      if content.Some? {
        entries := entries[name := content.value];
      } else {
        entries := entries - {name};
      }
      assert Lookup(entries, COMPOSE_YML) == Lookup(was, COMPOSE_YML);
      AgreesAfterAWrite(book.app, was, entries, name, content);
      Note(Wrote(name, content));
      written := written + {name};
    }

    /** The running containers write, or delete, whatever they like wherever they
        have a read-write mount. */
    method ContainersWrite()
      requires Safe()
      modifies this`entries, this`book, this`written
      ensures Safe() && Ran(old(entries), old(book), old(written))
    {
      var writes: nat :| true;
      for i := 0 to writes
        invariant Safe() && Ran(old(entries), old(book), old(written))
      {
        var name: Name, content: Option<Entry> := *, *;
        if name in mounts {
          ghost var was, wasBook, wasWritten := entries, book, written;
          WriteThrough(name, content);
        }
      }
    }

    /** Between two steps of an install: the containers run on, and the install
        may be killed or fail. */
    method Step() returns (o: Outcome)
      requires Safe()
      modifies this`entries, this`book, this`written
      ensures Safe() && !o.Refused? && Ran(old(entries), old(book), old(written))
    {
      ContainersWrite();
      o := Survives();
    }

    // -------------------------------------------------------------------
    // Starting the record
    // -------------------------------------------------------------------

    /** Nothing but the install writes here. */
    ghost predicate Mine(name: Name)
      reads this
    {
      name !in mounts && name !in written && name != COMPOSE_YML
    }

    /** What setting entries aside may have done so far. */
    ghost predicate SettingAside(was: Tree, wasBook: Book, wasRetained: Retained, wasWritten: set<Name>,
                                 names: set<Name>)
      reads this
    {
      && Safe() && SameExcept(was, entries, written + names) && LiveReadWrite(entries) == LiveReadWrite(was)
      && book.Continues(wasBook) && book.exposed == wasBook.exposed && book.app.Keys <= wasBook.app.Keys + mounts
      && Grows(wasRetained, retained) && wasWritten <= written <= wasWritten + mounts
    }

    /** The ledger's side of one rename into the directory set aside. */
    ghost method Enter(name: Name, piece: string, e: Entry, dest: Dest, wasRetained: Retained)
      requires book.Valid() && Kept(book.log, wasRetained) && Grows(wasRetained, retained)
      requires dest in retained && dest.name == name && piece in retained[dest] && retained[dest][piece] == e
      modifies this`book
      ensures book == old(book).Then(Moved(name, piece, e)) && book.Valid() && book.Continues(old(book))
      ensures Kept(book.log, retained)
    {
      ThenIsValid(book, Moved(name, piece, e));
      KeptOn(book.log, wasRetained, retained);
      KeptThen(book.log, Moved(name, piece, e), retained);
      book := book.Then(Moved(name, piece, e));
    }

    /** One rename of a child into the directory set aside for its entry. */
    method RenameChild(name: Name, child: string, dest: Dest)
      requires Safe() && Mine(name) && dest in retained && dest.name == name
      requires name in entries && entries[name].Dir? && child in entries[name].children && child !in retained[dest]
      modifies this`entries, this`book, this`retained
      ensures Safe() && LiveReadWrite(entries) == LiveReadWrite(old(entries)) && book.Continues(old(book))
      ensures book == old(book).Then(Moved(name, child, old(entries)[name].children[child]))
      ensures entries == old(entries)[name := Dir(old(entries)[name].children - {child})]
      ensures retained == old(retained)[dest := old(retained)[dest][child := old(entries)[name].children[child]]]
      ensures Grows(old(retained), retained)
    {
      var children := entries[name].children;
      ghost var wasRetained, was, wasApp := retained, entries, book.app;
      retained := retained[dest := retained[dest][child := children[child]]];
      Enter(name, child, children[child], dest, wasRetained);
      entries := entries[name := Dir(children - {child})];
      AgreesAfterAMove(wasApp, was, entries, name, child, children[child]);
      assert Lookup(entries, COMPOSE_YML) == Lookup(was, COMPOSE_YML);
    }

    /** One rename of an entry that is no directory. */
    method RenameEntry(name: Name, dest: Dest)
      requires Safe() && Mine(name) && dest in retained && dest.name == name
      requires name in entries && !entries[name].Dir? && retained[dest] == map[]
      modifies this`entries, this`book, this`retained
      ensures Safe() && LiveReadWrite(entries) == LiveReadWrite(old(entries)) && book.Continues(old(book))
      ensures book == old(book).Then(Moved(name, name, old(entries)[name]))
      ensures entries == old(entries) - {name} && retained == old(retained)[dest := map[name := old(entries)[name]]]
      ensures Grows(old(retained), retained)
    {
      var e := entries[name];
      ghost var wasRetained, was, wasApp := retained, entries, book.app;
      retained := retained[dest := map[name := e]];
      Enter(name, name, e, dest, wasRetained);
      entries := entries - {name};
      AgreesAfterAMove(wasApp, was, entries, name, name, e);
      assert Lookup(entries, COMPOSE_YML) == Lookup(was, COMPOSE_YML);
    }

    method MoveChild(name: Name, dest: Dest) returns (o: Outcome, ghost child: string)
      requires Safe() && Mine(name) && dest in retained && dest.name == name
      requires name in entries && entries[name].Dir? && entries[name].children.Keys != {}
      requires retained[dest].Keys !! entries[name].children.Keys
      modifies this`entries, this`book, this`written, this`retained
      ensures SettingAside(old(entries), old(book), old(retained), old(written), {name}) && Mine(name) && !o.Refused?
      ensures !o.Done? ==> Lookup(entries, name) == Lookup(old(entries), name) && retained == old(retained)
      ensures var was := old(entries)[name].children;
              o.Done? ==> child in was && Lookup(entries, name) == Some(Dir(was - {child}))
                          && retained == old(retained)[dest := old(retained)[dest][child := was[child]]]
    {
      child := "";
      o := Step();
      assert Lookup(entries, name) == Lookup(old(entries), name);
      if o.Done? {
        var moved :| moved in entries[name].children.Keys;
        child := moved;
        RenameChild(name, moved, dest);
      }
    }

    method MoveChildren(name: Name, dest: Dest) returns (o: Outcome)
      requires Safe() && Mine(name) && dest.name == name
      requires name in entries && entries[name].Dir? && dest in retained && retained[dest] == map[]
      modifies this`entries, this`book, this`written, this`retained
      ensures SettingAside(old(entries), old(book), old(retained), old(written), {name}) && Mine(name) && !o.Refused?
      ensures dest in retained
      ensures name in entries && entries[name].Dir?
      ensures Parted(old(entries)[name].children, entries[name].children, retained[dest])
      ensures o.Done? ==> entries[name].children.Keys == {}
    {
      ghost var was := entries[name].children;
      while entries[name].children.Keys != {}
        invariant SettingAside(old(entries), old(book), old(retained), old(written), {name}) && Mine(name)
        invariant dest in retained
        invariant name in entries && entries[name].Dir?
        invariant Parted(was, entries[name].children, retained[dest])
        invariant entries[name].children.Keys !! retained[dest].Keys
        decreases entries[name].children.Keys
      {
        ghost var child: string;
        ghost var wasHere, wasThere := entries[name].children, retained;
        o, child := MoveChild(name, dest);
        if !o.Done? {
          return;
        }
        PartedOn(was, wasHere, wasThere[dest], child);
      }
      o := Done;
    }

    /** A data entry that is a file or a link is moved aside itself. */
    method MoveEntry(name: Name, dest: Dest) returns (o: Outcome)
      requires Safe() && Mine(name) && dest.name == name
      requires name in entries && !entries[name].Dir? && dest in retained && retained[dest] == map[]
      modifies this`entries, this`book, this`written, this`retained
      ensures SettingAside(old(entries), old(book), old(retained), old(written), {name}) && Mine(name) && !o.Refused?
      ensures o.Done? ==> name !in entries && Lookup(retained, dest) == Some(map[name := old(entries)[name]])
      ensures !o.Done? ==> Lookup(entries, name) == Lookup(old(entries), name) && retained == old(retained)
    {
      o := Step();
      assert Lookup(entries, name) == Lookup(old(entries), name);
      if o.Done? {
        RenameEntry(name, dest);
      }
    }

    /** data_dirs._move_contents: the contents of a directory, not the directory,
        so that a running container's mount of it stays whole. */
    method MoveContents(name: Name, dest: Dest) returns (o: Outcome)
      requires Safe() && Mine(name) && name in entries && dest.name == name
      modifies this`entries, this`book, this`written, this`retained
      ensures SettingAside(old(entries), old(book), old(retained), old(written), {name}) && Mine(name) && !o.Refused?
      ensures NothingLost(old(entries), entries, retained, {name})
      ensures o.Done? ==> !HoldsData(Lookup(entries, name))
    {
      if dest in retained {
        return Stopped;
      }
      ghost var wasRetained := retained;
      retained := retained[dest := map[]];
      ghost var withDest := retained;
      NewDestGrows(wasRetained, retained, dest);
      KeptOn(book.log, wasRetained, retained);
      if entries[name].Dir? {
        o := MoveChildren(name, dest);
      } else {
        o := MoveEntry(name, dest);
      }
      GrowsOn(wasRetained, withDest, retained);
    }

    /** data_dirs.start_record: sets aside what is adopted, then writes the record;
        a stop before that leaves no record, so the next deploy moves the rest. */
    method StartRecord(dirs: Classes, stamp: nat) returns (o: Outcome)
      requires Safe() && record.NoRecord?
      requires forall n :: n in dirs.adopted ==> Mine(n)
      requires forall n :: n in book.app || n in mounts ==> n in BOX + dirs.recorded + dirs.adopted || n in book.exposed
      modifies this`entries, this`book, this`written, this`retained, this`record
      ensures Safe() && !o.Refused? && book.Continues(old(book)) && Grows(old(retained), retained)
      ensures SameExcept(old(entries), entries, written + dirs.adopted)
      ensures old(written) <= written <= old(written) + mounts
      ensures NothingLost(old(entries), entries, retained, dirs.adopted)
      ensures record.NoRecord? || record == Recorded(dirs.recorded)
      ensures record.Recorded? ==> forall n :: n in dirs.adopted ==> !HoldsData(Lookup(entries, n))
      ensures o.Done? ==> record == Recorded(dirs.recorded) && AppWithin(dirs.recorded)
    {
      o := SetAllAside(dirs.adopted, stamp);
      if o.Done? {
        ghost var before := entries;
        o := SaveRecord(dirs.recorded);
        NothingLostSame(old(entries), before, entries, retained, dirs.adopted);
      }
    }

    method SetAllAside(adopted: set<Name>, stamp: nat) returns (o: Outcome)
      requires Safe() && forall n :: n in adopted ==> Mine(n)
      modifies this`entries, this`book, this`written, this`retained
      ensures SettingAside(old(entries), old(book), old(retained), old(written), adopted) && !o.Refused?
      ensures forall n :: n in adopted ==> Mine(n)
      ensures NothingLost(old(entries), entries, retained, adopted)
      ensures o.Done? ==> NoneHold(entries, adopted)
    {
      var left := adopted;
      o := Done;
      while left != {} && o.Done?
        invariant SettingAside(old(entries), old(book), old(retained), old(written), adopted) && !o.Refused?
        invariant left <= adopted && forall n :: n in adopted ==> Mine(n)
        invariant NothingLost(old(entries), entries, retained, adopted)
        invariant o.Done? ==> NoneHold(entries, adopted - left)
        decreases left
      {
        var name :| name in left;
        if HoldsData(Lookup(entries, name)) {
          ghost var was := entries;
          o := SetAside(name, stamp, adopted, old(entries), old(book), old(retained), old(written));
          NoneHoldOn(was, entries, adopted, left, name);
        }
        left := left - {name};
      }
    }

    /** One of the entries to set aside, on from where the others are. */
    method SetAside(name: Name, stamp: nat, ghost adopted: set<Name>, ghost first: Tree, ghost firstBook: Book,
                    ghost firstRetained: Retained, ghost firstWritten: set<Name>)
        returns (o: Outcome)
      requires SettingAside(first, firstBook, firstRetained, firstWritten, adopted)
      requires name in adopted && name in entries
      requires forall n :: n in adopted ==> Mine(n)
      requires NothingLost(first, entries, retained, adopted)
      modifies this`entries, this`book, this`written, this`retained
      ensures SettingAside(first, firstBook, firstRetained, firstWritten, adopted) && !o.Refused?
      ensures forall n :: n in adopted ==> Mine(n)
      ensures forall n :: n in adopted && n != name ==> Lookup(entries, n) == Lookup(old(entries), n)
      ensures NothingLost(first, entries, retained, adopted)
      ensures o.Done? ==> !HoldsData(Lookup(entries, name))
    {
      ghost var was, wasRetained, wasWritten := entries, retained, written;
      o := MoveContents(name, Dest(name, stamp));
      NothingLostStep(first, was, wasRetained, entries, retained, adopted, name);
      SameExceptStep(first, was, entries, wasWritten, written, adopted, name);
      GrowsOn(firstRetained, wasRetained, retained);
    }

    /** Everything the app has or can write is among these names, or exposed. */
    ghost predicate AppWithin(names: set<Name>)
      reads this
    {
      forall n :: n in book.app || n in mounts ==> n in BOX + names || n in book.exposed
    }

    /** data_dirs.save_record, in one atomic write. */
    method SaveRecord(names: set<Name>) returns (o: Outcome)
      requires Safe() && !record.Unreadable? && AppWithin(names)
      modifies this`entries, this`book, this`written, this`record
      ensures Safe() && !o.Refused? && book.Continues(old(book))
      ensures SameExcept(old(entries), entries, written) && old(written) <= written <= old(written) + mounts
      ensures record == old(record) || record == Recorded(names)
      ensures o.Done? ==> record == Recorded(names) && AppWithin(names) && book.exposed == old(book).exposed - names
    {
      o := Step();
      if !o.Done? {
        return;
      }
      record := Recorded(names);
      Note(Covered(names));
      o := Step();
    }

    /** From here on, what containers write is counted. */
    ghost method CountWrites()
      requires Safe()
      modifies this`book, this`written
      ensures Safe() && written == {} && book == old(book).Then(Marked) && book.Continues(old(book))
    {
      Note(Marked);
      written := {};
    }

    /** The next line of the log. */
    ghost method Note(h: Happening)
      requires book.Valid() && Kept(book.log, retained) && book.May(h) && !h.Moved?
      modifies this`book
      ensures book == old(book).Then(h) && book.Valid() && book.Continues(old(book)) && Kept(book.log, retained)
    {
      ThenIsValid(book, h);
      KeptThen(book.log, h, retained);
      book := book.Then(h);
    }

    // -------------------------------------------------------------------
    // Replacing release code
    // -------------------------------------------------------------------

    /** Code is being replaced: everything the app has, or can write, is on the
        record on disk, or exposed, and so is all the incoming release will let it
        write. */
    ghost predicate Installing(tree: Tree, recorded: set<Name>)
      reads this
    {
      Safe() && record == Recorded(recorded) && AppWithin(recorded) && MountsOnRecord(tree, recorded)
    }

    /** This entry is release code, or an install has seen nothing there. */
    ghost predicate Replaceable(name: Name, recorded: set<Name>)
      reads this
    {
      name in book.exposed || name !in BOX + recorded
    }

    /** What replacing these entries, and the containers, may have done so far. */
    ghost predicate Replacing(tree: Tree, recorded: set<Name>, was: Tree, wasBook: Book, wasWritten: set<Name>,
                              names: set<Name>)
      reads this
    {
      && Installing(tree, recorded) && SameExcept(was, entries, written + names)
      && book.Continues(wasBook) && wasBook.exposed <= book.exposed && wasWritten <= written <= wasWritten + mounts
    }

    method InstallStep(ghost tree: Tree, ghost recorded: set<Name>) returns (o: Outcome)
      requires Installing(tree, recorded)
      modifies this`entries, this`book, this`written
      ensures Replacing(tree, recorded, old(entries), old(book), old(written), {}) && !o.Refused?
      ensures book.exposed == old(book).exposed
    {
      o := Step();
    }

    /** What the app wrote there since it was seen empty goes with this change. */
    ghost method GiveUp(name: Name, tree: Tree, recorded: set<Name>)
      requires Installing(tree, recorded) && Replaceable(name, recorded)
      modifies this`book
      ensures Installing(tree, recorded) && book.exposed == old(book).exposed && book.Continues(old(book))
      ensures name !in book.app && book.app.Keys <= old(book).app.Keys
    {
      if name in book.app {
        Note(Lost(name));
      }
    }

    /** release._remove; rmtree may be cut anywhere inside. */
    method RemoveEntry(name: Name, ghost tree: Tree, ghost recorded: set<Name>) returns (o: Outcome)
      requires Installing(tree, recorded) && Replaceable(name, recorded)
      modifies this`entries, this`book, this`written, this`inodes
      ensures Replacing(tree, recorded, old(entries), old(book), old(written), {name}) && !o.Refused?
      ensures inodes - {name} == old(inodes) - {name}
      ensures o.Done? && name !in written ==> name !in entries
    {
      if name in entries && entries[name].Dir? {
        var partial: map<string, Entry> := *;
        o := Put(name, Dir(partial), tree, recorded);
        if !o.Done? {
          return;
        }
      }
      inodes := inodes - {name};
      o := Drop(name, tree, recorded);
    }

    method Drop(name: Name, ghost tree: Tree, ghost recorded: set<Name>) returns (o: Outcome)
      requires Installing(tree, recorded) && Replaceable(name, recorded)
      modifies this`entries, this`book, this`written
      ensures Replacing(tree, recorded, old(entries), old(book), old(written), {name}) && !o.Refused?
      ensures name !in written ==> name !in entries
    {
      GiveUp(name, tree, recorded);
      ghost var was := entries;
      entries := entries - {name};
      if name != COMPOSE_YML {
        assert Lookup(entries, COMPOSE_YML) == Lookup(was, COMPOSE_YML);
      }
      assert Lookup(entries, name) == None && SameExcept(was, entries, {name});
      AgreesElsewhere(book.app, was, entries, name);
      assert Installing(tree, recorded);
      o := InstallStep(tree, recorded);
    }

    /** One change to an entry being replaced, and what may follow it. */
    method Put(name: Name, e: Entry, ghost tree: Tree, ghost recorded: set<Name>) returns (o: Outcome)
      requires Installing(tree, recorded) && Replaceable(name, recorded)
      requires name == COMPOSE_YML ==> Binds(Some(e)).None? || Lookup(tree, name) == Some(e)
      modifies this`entries, this`book, this`written
      ensures Replacing(tree, recorded, old(entries), old(book), old(written), {name}) && !o.Refused?
      ensures name !in written ==> Lookup(entries, name) == Some(e)
    {
      GiveUp(name, tree, recorded);
      ghost var was := entries;
      entries := entries[name := e];
      if name == COMPOSE_YML {
        assert COMPOSE_YML !in LiveReadWrite(entries);
      } else {
        assert Lookup(entries, COMPOSE_YML) == Lookup(was, COMPOSE_YML);
      }
      assert Lookup(entries, name) == Some(e);
      o := InstallStep(tree, recorded);
    }

    /** release._copy_entry; a file is partly written before it is whole. */
    method CopyEntry(name: Name, item: Entry, ghost tree: Tree, ghost recorded: set<Name>) returns (o: Outcome)
      requires Installing(tree, recorded) && Replaceable(name, recorded)
      requires Lookup(tree, name) == Some(item)
      modifies this`entries, this`book, this`written, this`inodes
      ensures Replacing(tree, recorded, old(entries), old(book), old(written), {name}) && !o.Refused?
      ensures inodes - {name} == old(inodes) - {name}
      ensures o.Done? && name !in written ==> Lookup(entries, name) == Some(item)
    {
      var inode: nat :| true;
      inodes := inodes[name := inode];
      if !item.Link? {
        var children: map<string, Entry>, bytes: string := *, *;
        o := Put(name, if item.Dir? then Dir(children) else File(Plain(bytes)), tree, recorded);
        if !o.Done? {
          return;
        }
      }
      o := Put(name, item, tree, recorded);
    }

    /** Removes the children it has listed; a name a container turned into
        something else than a directory meanwhile is an error. */
    method ClearDir(name: Name, ghost tree: Tree, ghost recorded: set<Name>) returns (o: Outcome)
      requires Installing(tree, recorded) && Replaceable(name, recorded)
      requires name in entries && entries[name].Dir? && name != COMPOSE_YML
      modifies this`entries, this`book, this`written
      ensures Replacing(tree, recorded, old(entries), old(book), old(written), {name}) && !o.Refused?
      ensures o.Done? && name !in written ==> Lookup(entries, name) == Some(Dir(map[]))
    {
      var left := entries[name].children.Keys;
      ghost var children := entries[name].children;
      o := InstallStep(tree, recorded);
      if !o.Done? {
        return;
      }
      while left != {}
        invariant Replacing(tree, recorded, old(entries), old(book), old(written), {name})
        invariant left == children.Keys
        invariant name !in written ==> Lookup(entries, name) == Some(Dir(children))
        decreases left
      {
        var child :| child in left;
        if name !in entries || !entries[name].Dir? {
          return Stopped;
        }
        o := Put(name, Dir(entries[name].children - {child}), tree, recorded);
        if !o.Done? {
          return;
        }
        left, children := left - {child}, children - {child};
      }
      o := Done;
    }

    method FillDir(name: Name, item: Entry, ghost tree: Tree, ghost recorded: set<Name>) returns (o: Outcome)
      requires Installing(tree, recorded) && Replaceable(name, recorded)
      requires item.Dir? && name != COMPOSE_YML
      requires name !in written ==> Lookup(entries, name) == Some(Dir(map[]))
      modifies this`entries, this`book, this`written
      ensures Replacing(tree, recorded, old(entries), old(book), old(written), {name}) && !o.Refused?
      ensures o.Done? && name !in written ==> Lookup(entries, name) == Some(item)
    {
      var left := item.children.Keys;
      ghost var children: map<string, Entry> := map[];
      while left != {}
        invariant Replacing(tree, recorded, old(entries), old(book), old(written), {name})
        invariant left <= item.children.Keys && children.Keys == item.children.Keys - left
        invariant forall c :: c in children ==> children[c] == item.children[c]
        invariant name !in written ==> Lookup(entries, name) == Some(Dir(children))
        decreases left
      {
        var child :| child in left;
        if name !in entries || !entries[name].Dir? {
          return Stopped;
        }
        o := Put(name, Dir(entries[name].children[child := item.children[child]]), tree, recorded);
        if !o.Done? {
          return;
        }
        left, children := left - {child}, children[child := item.children[child]];
      }
      assert children == item.children;
      o := Done;
    }

    /** release._refresh_dir_in_place. */
    method RefreshDirInPlace(name: Name, item: Entry, ghost tree: Tree, ghost recorded: set<Name>) returns (o: Outcome)
      requires Installing(tree, recorded) && Replaceable(name, recorded)
      requires item.Dir? && name in entries && entries[name].Dir? && name != COMPOSE_YML
      modifies this`entries, this`book, this`written
      ensures Replacing(tree, recorded, old(entries), old(book), old(written), {name}) && !o.Refused?
      ensures o.Done? && name !in written ==> Lookup(entries, name) == Some(item)
    {
      o := ClearDir(name, tree, recorded);
      if o.Done? {
        o := FillDir(name, item, tree, recorded);
      }
    }

    /** release._install_entry: a directory over a directory keeps its inode. */
    method InstallEntry(name: Name, item: Entry, ghost tree: Tree, ghost recorded: set<Name>) returns (o: Outcome)
      requires Installing(tree, recorded) && Replaceable(name, recorded)
      requires Lookup(tree, name) == Some(item)
      modifies this`entries, this`book, this`written, this`inodes
      ensures Replacing(tree, recorded, old(entries), old(book), old(written), {name}) && !o.Refused?
      ensures inodes - {name} == old(inodes) - {name}
      ensures item.Dir? && name in old(entries) && old(entries)[name].Dir? ==> inodes == old(inodes)
      ensures o.Done? && name !in written ==> Lookup(entries, name) == Some(item)
    {
      if item.Dir? && name in entries && entries[name].Dir? {
        o := RefreshDirInPlace(name, item, tree, recorded);
        return;
      }
      o := RemoveEntry(name, tree, recorded);
      if o.Done? {
        o := CopyEntry(name, item, tree, recorded);
      }
    }

    /** Entries the release no longer ships go. */
    method RemoveStale(stale: set<Name>, ghost tree: Tree, ghost recorded: set<Name>) returns (o: Outcome)
      requires Installing(tree, recorded) && stale !! BOX + recorded
      modifies this`entries, this`book, this`written, this`inodes
      ensures Replacing(tree, recorded, old(entries), old(book), old(written), stale) && !o.Refused?
      ensures forall n :: n !in stale ==> Lookup(inodes, n) == Lookup(old(inodes), n)
      ensures o.Done? ==> Gone(entries, stale, written)
    {
      var left := stale;
      while left != {}
        invariant Replacing(tree, recorded, old(entries), old(book), old(written), stale) && left <= stale
        invariant forall n :: n !in stale ==> Lookup(inodes, n) == Lookup(old(inodes), n)
        invariant Gone(entries, stale - left, written)
        decreases left
      {
        var name :| name in left;
        ghost var was, wasInodes, wasWritten := entries, inodes, written;
        o := RemoveEntry(name, tree, recorded);
        OtherInodes(wasInodes, inodes, name);
        SameExceptStep(old(entries), was, entries, wasWritten, written, stale, name);
        if !o.Done? {
          return;
        }
        GoneStep(was, entries, stale, left, wasWritten, written, name);
        left := left - {name};
      }
      o := Done;
    }

    /** One entry: release code, or data that holds nothing. */
    method InstallOne(name: Name, tree: Tree, recorded: set<Name>) returns (o: Outcome)
      requires Installing(tree, recorded)
      requires name in tree && name !in BOX && (name in recorded ==> !HoldsData(Lookup(entries, name)))
      modifies this`entries, this`book, this`written, this`inodes
      ensures Replacing(tree, recorded, old(entries), old(book), old(written), {name}) && !o.Refused?
      ensures forall n :: n != name ==> Lookup(inodes, n) == Lookup(old(inodes), n)
      ensures name !in written && tree[name].Dir? && name in old(entries) && old(entries)[name].Dir? ==>
                inodes == old(inodes)
      ensures o.Done? && name !in written ==> Lookup(entries, name) == Some(tree[name])
    {
      if name in recorded {
        SeeNothing({name});
      }
      o := InstallStep(tree, recorded);
      if o.Done? {
        assert name !in written ==> Lookup(entries, name) == Lookup(old(entries), name);
        o := InstallEntry(name, tree[name], tree, recorded);
        OtherInodes(old(inodes), inodes, name);
      }
    }

    /** An install sees that these hold nothing. */
    ghost method SeeNothing(names: set<Name>)
      requires Safe() && forall n :: n in names ==> !HoldsData(Lookup(entries, n))
      modifies this`book
      ensures Safe() && book == old(book).Then(Looked(names)) && book.Continues(old(book))
    {
      Expose(names);
    }

    /** Every shipped entry is installed, except data the server holds. */
    method InstallEntries(tree: Tree, recorded: set<Name>) returns (o: Outcome)
      requires Installing(tree, recorded) && tree.Keys !! BOX
      modifies this`entries, this`book, this`written, this`inodes
      ensures Replacing(tree, recorded, old(entries), old(book), old(written), tree.Keys) && !o.Refused?
      ensures o.Done? ==> Installed(old(entries), entries, tree, tree.Keys, recorded, written)
      ensures KeptAsFound(old(entries), entries, recorded, written)
      ensures SameDirInodes(old(entries), tree, recorded + written, old(inodes), inodes)
    {
      var left := tree.Keys;
      while left != {}
        invariant Replacing(tree, recorded, old(entries), old(book), old(written), tree.Keys - left)
        invariant left <= tree.Keys
        invariant Installed(old(entries), entries, tree, tree.Keys - left, recorded, written)
        invariant KeptAsFound(old(entries), entries, recorded, written)
        invariant SameDirInodes(old(entries), tree, recorded + written, old(inodes), inodes)
        decreases left
      {
        var name :| name in left;
        assert name !in written ==> Lookup(entries, name) == Lookup(old(entries), name);
        ghost var was, wasInodes, wasWritten := entries, inodes, written;
        var keep := name in recorded && HoldsData(Lookup(entries, name));
        if !keep {
          o := InstallOne(name, tree, recorded);
          SameExceptStep(old(entries), was, entries, wasWritten, written, tree.Keys, name);
          SameDirInodesStep(old(entries), was, tree, recorded, wasWritten, written,
                            old(inodes), wasInodes, inodes, name);
          KeptAsFoundStep(old(entries), was, entries, recorded, wasWritten, written, name);
          if !o.Done? {
            return;
          }
        }
        InstalledStep(old(entries), was, entries, tree, left, recorded, wasWritten, written, name);
        left := left - {name};
      }
      o := Done;
    }

    // -------------------------------------------------------------------
    // install_release
    // -------------------------------------------------------------------

    /** What classifying the project for this release gives now. */
    function Classified(tree: Tree): Option<Classes>
      reads this
    {
      Classify(entries, tree, record, keptCompose, stagedCompose)
    }

    /** The lemma behind the record's promise: what the app has is about to be
        recorded or set aside, unless it was given up before. */
    lemma AppIsRecorded(tree: Tree, dirs: Classes)
      requires Safe() && Classified(tree) == Some(dirs)
      ensures forall n :: n in book.app ==> n in BOX + dirs.recorded + dirs.adopted || n in book.exposed
      ensures record.NoRecord? ==> mounts <= BOX + dirs.recorded
      ensures record.Recorded? ==> dirs.adopted == {}
      ensures forall n :: n in dirs.adopted ==> n !in mounts && n != COMPOSE_YML && n !in dirs.recorded
    {
      forall n | n in book.app && n !in BOX && n !in book.exposed
        ensures n in dirs.recorded + dirs.adopted
      {
        assert Lookup(entries, n) == Some(book.app[n]);
        if (record.Recorded? && n in record.names) || n in LiveReadWrite(entries) {
          DataStaysOnRecord(entries, tree, record, keptCompose, stagedCompose, n);
        } else {
          KeptDataIsRecordedOrSetAside(entries, tree, keptCompose, stagedCompose, n);
        }
      }
    }

    /** What is on record again is out of harm's way. */
    ghost method Uncover()
      requires Safe()
      modifies this`book
      ensures Safe() && book.Continues(old(book)) && book.app == old(book).app
    {
      Note(Covered(set n | n in book.exposed && OnRecord(n)));
    }

    /** Where the install has seen nothing: entries containers can write that are
        neither mounted nor found to hold data, whatever the record said. */
    ghost method Survey(tree: Tree, dirs: Classes)
      requires Safe() && Classified(tree) == Some(dirs)
      modifies this`book
      ensures Safe() && book.Continues(old(book)) && book.app == old(book).app
      ensures forall n :: n in book.app || n in mounts ==> n in BOX + dirs.recorded + dirs.adopted || n in book.exposed
    {
      Uncover();
      AppIsRecorded(tree, dirs);
      Expose(mounts - BOX - dirs.recorded - book.app.Keys);
    }

    ghost method Expose(names: set<Name>)
      requires Safe() && names !! book.app.Keys
      modifies this`book
      ensures Safe() && book == old(book).Then(Looked(names)) && book.Continues(old(book))
    {
      Note(Looked(names));
    }

    /** A project that has no record starts one first. */
    method Begin(tree: Tree, dirs: Classes, stamp: nat) returns (o: Outcome)
      requires Safe() && written == {} && Classified(tree) == Some(dirs)
      modifies this`entries, this`book, this`written, this`retained, this`record
      ensures Safe() && !o.Refused? && book.Continues(old(book)) && Grows(old(retained), retained) && written <= mounts
      ensures SameExcept(old(entries), entries, written + dirs.adopted)
      ensures NothingLost(old(entries), entries, retained, dirs.adopted)
      ensures o.Done? ==> record.Recorded? && AppWithin(dirs.recorded)
      ensures record.Recorded? ==> forall n :: n in dirs.adopted ==> !HoldsData(Lookup(entries, n))
      ensures old(record).Recorded? ==> record == old(record) && dirs.adopted == {}
    {
      AppIsRecorded(tree, dirs);
      Survey(tree, dirs);
      if record.NoRecord? {
        o := StartRecord(dirs, stamp);
      } else {
        o := Step();
      }
    }

    /** release._ensure_record, which every operation that replaces or drops a kept
        release calls first. */
    method EnsureRecord(tree: Tree, stamp: nat) returns (o: Outcome)
      requires Safe()
      modifies this`entries, this`book, this`written, this`retained, this`record
      ensures Safe() && book.Continues(old(book)) && Grows(old(retained), retained)
      ensures o.Done? ==> record.Recorded?
      ensures o.Refused? <==> old(record).Unreadable? || (old(record).NoRecord? && old(Classified(tree)).None?)
      ensures o.Refused? ==> entries == old(entries) && record == old(record) && book == old(book)
      ensures !o.Refused? && old(record).NoRecord? ==>
                var adopted := old(Classified(tree)).value.adopted;
                && SameExcept(old(entries), entries, written + adopted) && written <= mounts
                && NothingLost(old(entries), entries, retained, adopted)
    {
      if record.Recorded? {
        return Done;
      }
      var dirs := Classified(tree);
      if dirs.None? {
        return Refused;
      }
      CountWrites();
      o := Begin(tree, dirs.value, stamp);
    }

    /** The record the project will have: what is found empty and shipped as code
        is off it. */
    method SettleRecord(tree: Tree, dirs: Classes, final: Classes) returns (o: Outcome)
      requires Safe() && record.Recorded? && AppWithin(dirs.recorded) && MountsOnRecord(tree, dirs.release)
      requires dirs.release <= BOX + dirs.recorded && final == AfterInstall(entries, tree, dirs)
      modifies this`entries, this`book, this`written, this`record
      ensures Safe() && !o.Refused? && book.Continues(old(book))
      ensures SameExcept(old(entries), entries, written) && old(written) <= written <= old(written) + mounts
      ensures record == old(record) || record == Recorded(final.recorded)
      ensures o.Done? ==> Installing(tree, final.recorded)
    {
      SeeNothing(Taken(entries, tree, dirs));
      assert AppWithin(final.recorded);
      o := SaveRecord(final.recorded);
    }

    /** The record first; then stale code goes and the release's comes. */
    method Replace(tree: Tree, dirs: Classes) returns (o: Outcome, final: Classes)
      requires Safe() && record.Recorded? && AppWithin(dirs.recorded)
      requires tree.Keys !! BOX && dirs.release <= BOX + dirs.recorded && MountsOnRecord(tree, dirs.release)
      modifies this`entries, this`book, this`written, this`record, this`inodes
      ensures Safe() && !o.Refused? && book.Continues(old(book))
      ensures old(written) <= written <= old(written) + mounts
      ensures final == AfterInstall(old(entries), tree, dirs)
      ensures record == old(record) || record == Recorded(final.recorded)
      ensures SameExcept(old(entries), entries, written + (old(entries).Keys - final.BoxState()) + tree.Keys)
      ensures KeptAsFound(old(entries), entries, final.recorded, written)
      ensures o.Done? ==> record == Recorded(final.recorded) && Exactly(entries, tree, final, written)
                          && Installed(old(entries), entries, tree, tree.Keys, final.recorded, written)
      ensures SameDirInodes(old(entries), tree, final.recorded + written, old(inodes), inodes)
    {
      final := AfterInstall(entries, tree, dirs);
      var stale := entries.Keys - final.BoxState() - tree.Keys;
      o := SettleRecord(tree, dirs, final);
      if o.Done? {
        ghost var was := entries;
        assert stale !! BOX + final.recorded + tree.Keys;
        o := ReplaceCode(tree, final, stale);
        ReplacedKeeps(old(entries), was, entries, tree, final.recorded, written, old(inodes), inodes);
        ReplacedExcept(old(entries), was, entries, tree, final, written);
        if o.Done? {
          ReplacedExactly(old(entries), was, entries, tree, final, written);
        }
      }
    }

    method ReplaceCode(tree: Tree, final: Classes, stale: set<Name>) returns (o: Outcome)
      requires Installing(tree, final.recorded) && tree.Keys !! BOX && stale !! BOX + final.recorded + tree.Keys
      modifies this`entries, this`book, this`written, this`inodes
      ensures Replacing(tree, final.recorded, old(entries), old(book), old(written), stale + tree.Keys) && !o.Refused?
      ensures KeptAsFound(old(entries), entries, final.recorded, written)
      ensures o.Done? ==> Gone(entries, stale, written)
                          && Installed(old(entries), entries, tree, tree.Keys, final.recorded, written)
      ensures SameDirInodes(old(entries), tree, final.recorded + written, old(inodes), inodes)
    {
      o := RemoveStale(stale, tree, final.recorded);
      if o.Done? {
        ghost var cleared, clearedInodes, clearedWritten := entries, inodes, written;
        o := InstallEntries(tree, final.recorded);
        ClearedThenInstalled(old(entries), cleared, entries, tree, final.recorded, stale, clearedWritten, written);
        SameDirInodesFrom(old(entries), cleared, tree, final.recorded, stale, written, clearedInodes, inodes);
      }
    }

    /** The record is written, every entry that is neither box state nor written
        meanwhile is exactly what the release ships, so is every shipped entry that
        held no data, and the data the release does not mount is named. */
    ghost predicate Finished(was: Tree, tree: Tree, final: Classes, unmounted: set<Name>)
      reads this
    {
      && record == Recorded(final.recorded)
      && Exactly(entries, tree, final, written)
      && Installed(was, entries, tree, tree.Keys, final.recorded, written)
      && unmounted == set n | n in final.recorded - final.release && HoldsData(Lookup(entries, n))
    }

    /** Replaces, and names the data the release does not mount. */
    method Finish(tree: Tree, dirs: Classes) returns (o: Outcome, unmounted: set<Name>)
      requires Safe() && record.Recorded? && AppWithin(dirs.recorded)
      requires tree.Keys !! BOX && dirs.release <= BOX + dirs.recorded && MountsOnRecord(tree, dirs.release)
      modifies this`entries, this`book, this`written, this`record, this`inodes
      ensures Safe() && !o.Refused? && book.Continues(old(book))
      ensures old(written) <= written <= old(written) + mounts
      ensures KeptAfter(old(entries), entries, tree, dirs, written, old(inodes), inodes)
      ensures o.Done? ==> Finished(old(entries), tree, AfterInstall(old(entries), tree, dirs), unmounted)
    {
      var final;
      o, final := Replace(tree, dirs);
      unmounted := set n | n in final.recorded - final.release && HoldsData(Lookup(entries, n));
    }

    /** The install proper, of a release that passed the checks. `was` is what the
        project held once any set-aside was done. */
    method InstallChecked(tree: Tree, dirs: Classes, stamp: nat)
      returns (o: Outcome, unmounted: set<Name>, ghost was: Tree)
      requires Safe() && written == {}
      requires Classified(tree) == Some(dirs) && Check(entries, tree, dirs).None?
      modifies this`entries, this`book, this`written, this`retained, this`record, this`inodes
      ensures Safe() && !o.Refused? && book.Continues(old(book)) && Grows(old(retained), retained) && written <= mounts
      ensures NothingLost(old(entries), entries, retained, dirs.adopted)
      ensures SameExcept(old(entries), was, written + dirs.adopted)
      ensures BoxStateKept(old(entries), entries, tree, dirs, written)
      ensures o.Done? ==> Finished(was, tree, AfterInstall(was, tree, dirs), unmounted)
      ensures SameDirInodes(old(entries), tree, dirs.recorded + dirs.adopted + written, old(inodes), inodes)
    {
      CheckedMounts(tree, dirs);
      AppIsRecorded(tree, dirs);
      ghost var first := entries;
      o := Begin(tree, dirs, stamp);
      was := entries;
      unmounted := {};
      KeptSoFar(first, was, tree, dirs, written);
      if o.Done? {
        o, unmounted := FinishFrom(tree, dirs, first);
      }
    }

    /** The rest of it, once the record is there. */
    method FinishFrom(tree: Tree, dirs: Classes, ghost first: Tree) returns (o: Outcome, unmounted: set<Name>)
      requires Safe() && record.Recorded? && AppWithin(dirs.recorded) && written <= mounts
      requires tree.Keys !! BOX && dirs.release <= BOX + dirs.recorded && MountsOnRecord(tree, dirs.release)
      requires SameExcept(first, entries, written + dirs.adopted) && dirs.adopted !! dirs.recorded
      requires NothingLost(first, entries, retained, dirs.adopted)
      requires forall n :: n in dirs.adopted ==> !HoldsData(Lookup(entries, n))
      modifies this`entries, this`book, this`written, this`record, this`inodes
      ensures Safe() && !o.Refused? && book.Continues(old(book)) && old(written) <= written <= mounts
      ensures NothingLost(first, entries, retained, dirs.adopted)
      ensures BoxStateKept(first, entries, tree, dirs, written)
      ensures o.Done? ==> Finished(old(entries), tree, AfterInstall(old(entries), tree, dirs), unmounted)
      ensures SameDirInodes(first, tree, dirs.recorded + dirs.adopted + written, old(inodes), inodes)
    {
      o, unmounted := Finish(tree, dirs);
      SetAsideIsKept(first, old(entries), entries, retained, dirs.adopted);
      KeptFromFirst(first, old(entries), entries, tree, dirs, old(written), written, old(inodes), inodes);
    }

    lemma CheckedMounts(tree: Tree, dirs: Classes)
      requires Safe() && Classified(tree) == Some(dirs) && Check(entries, tree, dirs).None?
      ensures tree.Keys !! BOX && dirs.release <= BOX + dirs.recorded && MountsOnRecord(tree, dirs.release)
    {
      assert tree.Keys * BOX == {};
      assert Shipped(tree) * dirs.release == {};
      assert COMPOSE_YML in dirs.release ==> COMPOSE_YML in Shipped(tree);
    }

    /** release.install_release. Refused means nothing changed. Whatever the
        outcome: the app's data is where the app left it and on record or mounted,
        or the log excuses its loss; but for what containers wrote meanwhile, box
        state the release does not ship, and recorded data, is as it was; and what
        was set aside is kept. Once done, with the same exception, everything
        outside box state, and every shipped entry but placeholders over data, is
        exactly what the release ships; and an entry the live release mounted
        read-write is what it was if and only if the release ships nothing for it,
        it was found holding data, or what is shipped is what was there. */
    method InstallRelease(tree: Tree, stamp: nat) returns (o: Outcome, refusal: Option<Refusal>, unmounted: set<Name>)
      requires Safe()
      modifies this`entries, this`book, this`written, this`retained, this`record, this`inodes
      ensures Safe() && book.Continues(old(book)) && Grows(old(retained), retained)
      ensures o.Refused? <==> refusal.Some?
      ensures refusal == old(RefusalOf(tree))
      ensures o.Refused? <==> !Installable(old(entries), tree, old(record), keptCompose, stagedCompose)
      ensures o.Refused? ==> entries == old(entries) && record == old(record) && retained == old(retained)
                             && book == old(book) && inodes == old(inodes) && written == old(written)
      ensures !o.Refused? ==>
                var dirs := old(Classified(tree)).value;
                && written <= mounts && old(book).log + [Marked] <= book.log
                && NothingLost(old(entries), entries, retained, dirs.adopted)
                && BoxStateKept(old(entries), entries, tree, dirs, written)
                && Survive(old(entries), entries, tree, old(record), keptCompose, stagedCompose, written)
                && SameDirInodes(old(entries), tree, dirs.recorded + dirs.adopted + written, old(inodes), inodes)
      ensures o.Done? ==>
                var dirs := old(Classified(tree)).value;
                && (forall n ::
                      n in tree && n !in written ==> Lookup(entries, n) == Some(tree[n]) || IsPlaceholder(tree[n]))
                && MountsEndUp(old(entries), entries, tree, written)
                && NothingElseSurvives(old(entries), entries, tree, record, stagedCompose, written)
                && RecordEndsUp(old(entries), tree, old(record), keptCompose, written, record)
                && exists was: Tree :: SameExcept(old(entries), was, written + dirs.adopted)
                                       && Finished(was, tree, AfterInstall(was, tree, dirs), unmounted)
    {
      refusal, unmounted := RefusalOf(tree), {};
      RefusedExactlyWhen(entries, tree, record, keptCompose, stagedCompose);
      if refusal.Some? {
        return Refused, refusal, {};
      }
      var dirs := Classified(tree).value;
      ghost var first, was, wasRecord := entries, entries, record;
      CheckedMounts(tree, dirs);
      CountWrites();
      AppIsRecorded(tree, dirs);
      o, unmounted, was := InstallChecked(tree, dirs, stamp);
      BoxStateSurvives(first, entries, tree, dirs, wasRecord, keptCompose, stagedCompose, written);
      if o.Done? {
        Concluded(first, was, entries, tree, dirs, wasRecord, keptCompose, stagedCompose, written);
      }
    }

    /** Why the release is refused now, before anything is changed. */
    function RefusalOf(tree: Tree): Option<Refusal>
      reads this
    {
      if Classified(tree).None? then Some(NotReadable) else Check(entries, tree, Classified(tree).value)
    }

    // -------------------------------------------------------------------
    // Any history
    // -------------------------------------------------------------------

    /** Containers are started from the compose file in place, whether an install
        switches to it or the box comes up again. */
    method StartContainers()
      requires Safe()
      modifies this`mounts, this`book
      ensures Safe() && mounts == LiveReadWrite(entries) && book.Continues(old(book))
    {
      mounts := LiveReadWrite(entries);
      Note(Started(mounts));
    }

    /** A release is kept, or the kept one dropped or put back: never before there
        is a record. A release that mounts its own compose file is not modelled. */
    method ChangeKept(tree: Tree, stamp: nat)
      requires Safe()
      modifies this`entries, this`book, this`written, this`retained, this`record, this`keptCompose
      ensures Safe() && book.Continues(old(book)) && Grows(old(retained), retained)
    {
      var o := EnsureRecord(tree, stamp);
      var compose: Option<Entry> := *;
      if o.Done? && (Binds(compose).None? || COMPOSE_YML !in ReadWrite(Binds(compose).value)) {
        keptCompose := compose;
      }
    }

    method OneRound(tree: Tree, stamp: nat)
      requires Safe()
      modifies this
      ensures Safe() && book.Continues(old(book)) && Grows(old(retained), retained)
    {
      if * {
        ContainersWrite();
      } else if * {
        StartContainers();
      } else if * {
        ChangeKept(tree, stamp);
      } else if * {
        var staged: Option<Entry> := *;
        stagedCompose := staged;
      } else {
        var o, refusal, unmounted := InstallRelease(tree, stamp);
      }
    }

    /** Any history: installs of any releases, each finished, refused or cut
        anywhere, the containers writing before, during and after each, started
        again or not in between, and the kept and staged releases changing. At
        every point the app's data is as the log says the app left it, what the log
        says was moved is where it was moved to, and every loss in it was excused. */
    method AnyHistory(releases: seq<Tree>)
      requires Safe()
      modifies this
      ensures Safe() && book.Continues(old(book)) && Grows(old(retained), retained)
    {
      for i := 0 to |releases|
        invariant Safe() && book.Continues(old(book)) && Grows(old(retained), retained)
      {
        ghost var was, wasBook := retained, book;
        OneRound(releases[i], i);
        GrowsOn(old(retained), was, retained);
      }
    }

    /** What a safe state promises: data that was there at the start, or that a
        container wrote at step `k`, and that no later step wrote over, moved or
        lost, is there. */
    lemma DataIsThere(n: Name, k: nat)
      requires Safe() && k <= |book.log| && (if k == 0 then n in book.start else WritesData(book.log[k - 1], n))
      requires forall j | k <= j < |book.log| ::
                 !((book.log[j].Wrote? || book.log[j].Moved? || book.log[j].Lost?) && book.log[j].name == n)
      ensures Lookup(entries, n) == if k == 0 then Some(book.start[n]) else book.log[k - 1].written
    {
      if k == 0 {
        WhatIsLeftAloneStays(book.start, book.log, n);
      } else {
        TheLastWriteIsKept(book.start, book.log, k - 1, n);
      }
    }

    /** And what is lost was written by a container after an install had seen
        nothing there, the entry being neither on record nor newly mounted since. */
    lemma LostOnlyAfterALook(j: nat) returns (i: nat, k: nat)
      requires Safe() && j < |book.log| && book.log[j].Lost?
      ensures i < k < j && WritesData(book.log[k], book.log[j].name)
      ensures book.log[i].Looked? && book.log[j].name in book.log[i].names
      ensures book.log[j].name !in Replay(book.start, book.log[..i])
      ensures forall m :: i < m < j && (book.log[m].Covered? || book.log[m].Started?) ==>
                book.log[j].name !in book.log[m].names
    {
      i, k := LossesFollowALook(book.start, book.log, j);
    }

    /** Every write in the log was a container's, through a mount it then had; and
        what counts as written since an install began is what containers wrote since. */
    lemma WritesAreContainers(n: Name, j: nat) returns (k: nat)
      requires Safe() && j < |book.log|
      ensures book.log[j].Wrote? ==> book.log[j].name in MountedAt(book.first, book.log[..j])
      ensures n in written ==> k < |book.log| && book.log[k].Wrote? && book.log[k].name == n
                               && forall i :: k < i < |book.log| ==> !book.log[i].Marked?
    {
      if book.log[j].Wrote? {
        WritesAreThroughMounts(book.first, book.log, j);
      }
      k := 0;
      if n in written {
        k := WrittenByAContainer(book.log, n);
      }
    }

    /** Pieces the log says were moved are in a directory set aside for their entry. */
    lemma MovedIsKept(j: nat)
      requires Safe() && j < |book.log| && book.log[j].Moved?
      ensures var h := book.log[j];
              IsAside(retained, h.name, h.piece, h.e)
    {
      KeptAt(book.log, retained, j);
    }

    /** A container writes to an entry on record just after an install saw it empty. */
    method WriteAfterALook(name: Name, e: Entry, ghost tree: Tree, ghost recorded: set<Name>)
      requires Installing(tree, recorded) && name in mounts && name !in BOX && name in recorded
      requires !HoldsData(Lookup(entries, name))
      modifies this`entries, this`book, this`written
      ensures Installing(tree, recorded) && name in book.exposed && written == old(written) + {name}
      ensures book.log == old(book).log + [Looked({name})] + [Wrote(name, Some(e))]
    {
      SeeNothing({name});
      WriteThrough(name, Some(e));
    }

    /** Such losses happen: the release ships a placeholder for an entry that is on
        record, mounted and empty. What a container writes once the install has
        seen it empty is removed or overwritten, if the install goes on and nothing
        is written there again. */
    method ALateWriteIsLost(name: Name, e: Entry, tree: Tree, recorded: set<Name>) returns (o: Outcome)
      requires Installing(tree, recorded) && name in tree && name in mounts
      requires name !in BOX && name in recorded && !HoldsData(Lookup(entries, name))
      requires HoldsData(Some(e)) && e != tree[name]
      modifies this`entries, this`book, this`written, this`inodes
      ensures Safe() && old(book).log + [Looked({name})] + [Wrote(name, Some(e))] <= book.log
      ensures o.Done? && name !in written ==> Lookup(entries, name) == Some(tree[name])
    {
      WriteAfterALook(name, e, tree, recorded);
      CountWrites();
      o := InstallEntry(name, tree[name], tree, recorded);
    }
  }

  /** Outside box state, and where no container wrote, the project holds what the
      release ships and no more. */
  ghost predicate Exactly(entries: Tree, tree: Tree, final: Classes, written: set<Name>) {
    forall n :: n !in final.BoxState() && n !in written ==> Lookup(entries, n) == Lookup(tree, n)
  }

  /** Recorded entries found holding data are as they were found, where no
      container wrote. */
  ghost predicate KeptAsFound(was: Tree, now: Tree, recorded: set<Name>, written: set<Name>) {
    forall n :: n in recorded && HoldsData(Lookup(was, n)) && n !in written ==> Lookup(now, n) == Lookup(was, n)
  }

  lemma KeptAsFoundStep(first: Tree, was: Tree, now: Tree, recorded: set<Name>,
                        wasWritten: set<Name>, written: set<Name>, name: Name)
    requires KeptAsFound(first, was, recorded, wasWritten) && wasWritten <= written
    requires SameExcept(was, now, written + {name})
    requires name in recorded && name !in wasWritten ==> !HoldsData(Lookup(first, name))
    ensures KeptAsFound(first, now, recorded, written)
  {
  }

  /** Each of these is as shipped, or is data that was found and kept. */
  ghost predicate Installed(first: Tree, now: Tree, tree: Tree, names: set<Name>, recorded: set<Name>,
                            written: set<Name>) {
    forall n :: n in names && n in tree && n !in written ==>
      || Lookup(now, n) == Some(tree[n])
      || (n in recorded && HoldsData(Lookup(first, n)) && Lookup(now, n) == Lookup(first, n))
  }

  lemma InstalledStep(first: Tree, was: Tree, now: Tree, tree: Tree, left: set<Name>, recorded: set<Name>,
                      wasWritten: set<Name>, written: set<Name>, name: Name)
    requires Installed(first, was, tree, tree.Keys - left, recorded, wasWritten) && wasWritten <= written
    requires SameExcept(was, now, written + {name}) && name in left && left <= tree.Keys
    requires name !in written ==>
               || Lookup(now, name) == Some(tree[name])
               || (name in recorded && HoldsData(Lookup(first, name)) && Lookup(now, name) == Lookup(first, name))
    ensures Installed(first, now, tree, tree.Keys - (left - {name}), recorded, written)
  {
    forall n | n in tree && n !in left && n !in written
      ensures Lookup(now, n) == Lookup(was, n)
    {
    }
  }

  /** These are gone. */
  ghost predicate Gone(entries: Tree, names: set<Name>, written: set<Name>) {
    forall n :: n in names && n !in written ==> Lookup(entries, n) == None
  }

  lemma GoneStep(was: Tree, now: Tree, names: set<Name>, left: set<Name>,
                 wasWritten: set<Name>, written: set<Name>, name: Name)
    requires Gone(was, names - left, wasWritten) && wasWritten <= written && SameExcept(was, now, written + {name})
    requires name !in written ==> name !in now
    ensures Gone(now, names - (left - {name}), written)
  {
    forall n | n in names - (left - {name}) && n !in written
      ensures Lookup(now, n) == None
    {
      if n != name {
        assert Lookup(now, n) == Lookup(was, n);
      }
    }
  }

  lemma SameExceptStep(first: Tree, was: Tree, now: Tree, wasWritten: set<Name>, written: set<Name>,
                       names: set<Name>, name: Name)
    requires SameExcept(first, was, wasWritten + names) && wasWritten <= written && name in names
    requires SameExcept(was, now, written + {name})
    ensures SameExcept(first, now, written + names)
  {
  }

  lemma ClearedThenInstalled(first: Tree, cleared: Tree, now: Tree, tree: Tree, recorded: set<Name>, stale: set<Name>,
                             wasWritten: set<Name>, written: set<Name>)
    requires SameExcept(first, cleared, wasWritten + stale) && wasWritten <= written && stale !! recorded + tree.Keys
    requires SameExcept(cleared, now, written + tree.Keys) && KeptAsFound(cleared, now, recorded, written)
    ensures KeptAsFound(first, now, recorded, written)
    ensures Gone(cleared, stale, wasWritten) ==> Gone(now, stale, written)
    ensures Installed(cleared, now, tree, tree.Keys, recorded, written)
            ==> Installed(first, now, tree, tree.Keys, recorded, written)
  {
    forall n | n !in stale && n !in written
      ensures Lookup(cleared, n) == Lookup(first, n)
    {
    }
    forall n | n in stale && n !in written
      ensures Lookup(now, n) == Lookup(cleared, n)
    {
    }
  }

  lemma SameDirInodesFrom(first: Tree, cleared: Tree, tree: Tree, recorded: set<Name>, stale: set<Name>,
                          written: set<Name>, wasInodes: map<Name, nat>, inodes: map<Name, nat>)
    requires SameExcept(first, cleared, written + stale) && stale !! tree.Keys
    requires SameDirInodes(cleared, tree, recorded + written, wasInodes, inodes)
    ensures SameDirInodes(first, tree, recorded + written, wasInodes, inodes)
  {
    forall n | n in tree && n !in written
      ensures Lookup(cleared, n) == Lookup(first, n)
    {
    }
  }

  lemma ReplacedExactly(first: Tree, was: Tree, now: Tree, tree: Tree, final: Classes, written: set<Name>)
    requires SameExcept(first, was, written)
    requires SameExcept(was, now, written + (first.Keys - final.BoxState() - tree.Keys) + tree.Keys)
    requires Gone(now, first.Keys - final.BoxState() - tree.Keys, written)
    requires Installed(was, now, tree, tree.Keys, final.recorded, written)
    ensures Exactly(now, tree, final, written)
    ensures Installed(first, now, tree, tree.Keys, final.recorded, written)
  {
    forall n | n !in written
      ensures Lookup(was, n) == Lookup(first, n)
    {
    }
    forall n | n !in final.BoxState() && n !in written
      ensures Lookup(now, n) == Lookup(tree, n)
    {
      if n !in tree && n !in first {
        assert Lookup(now, n) == Lookup(was, n);
      }
    }
  }

  lemma ReplacedKeeps(first: Tree, was: Tree, now: Tree, tree: Tree, recorded: set<Name>, written: set<Name>,
                      wasInodes: map<Name, nat>, inodes: map<Name, nat>)
    requires SameExcept(first, was, written) && KeptAsFound(was, now, recorded, written)
    requires SameDirInodes(was, tree, recorded + written, wasInodes, inodes)
    ensures KeptAsFound(first, now, recorded, written)
    ensures SameDirInodes(first, tree, recorded + written, wasInodes, inodes)
  {
    forall n | n !in written
      ensures Lookup(was, n) == Lookup(first, n)
    {
    }
  }

  lemma ReplacedExcept(first: Tree, was: Tree, now: Tree, tree: Tree, final: Classes, written: set<Name>)
    requires SameExcept(first, was, written)
    requires SameExcept(was, now, written + (first.Keys - final.BoxState() - tree.Keys + tree.Keys))
    ensures SameExcept(first, now, written + (first.Keys - final.BoxState()) + tree.Keys)
  {
    forall n | n !in written + (first.Keys - final.BoxState()) + tree.Keys
      ensures Lookup(now, n) == Lookup(first, n)
    {
      assert Lookup(was, n) == Lookup(first, n);
    }
  }

  /** A directory the release ships over a directory of code stays the same one. */
  ghost predicate SameDirInodes(entries: Tree, tree: Tree, data: set<Name>, was: map<Name, nat>, now: map<Name, nat>) {
    forall n :: n in tree && tree[n].Dir? && n in entries && entries[n].Dir? && n !in BOX + data
                ==> Lookup(now, n) == Lookup(was, n)
  }

  lemma SameDirInodesStep(first: Tree, was: Tree, tree: Tree, recorded: set<Name>,
                          wasWritten: set<Name>, written: set<Name>,
                          firstInodes: map<Name, nat>, wasInodes: map<Name, nat>, inodes: map<Name, nat>, name: Name)
    requires SameDirInodes(first, tree, recorded + wasWritten, firstInodes, wasInodes) && wasWritten <= written
    requires forall n :: n != name ==> Lookup(inodes, n) == Lookup(wasInodes, n)
    requires name in tree && (name !in wasWritten ==> Lookup(was, name) == Lookup(first, name))
    requires name !in written && tree[name].Dir? && name in was && was[name].Dir? ==> inodes == wasInodes
    ensures SameDirInodes(first, tree, recorded + written, firstInodes, inodes)
  {
  }

  /** But for what was set aside or written: box state the release does not ship (of
      staging copies, those holding data), and recorded data it does, is untouched. */
  ghost predicate BoxStateKept(was: Tree, now: Tree, tree: Tree, dirs: Classes, written: set<Name>) {
    && KeptAsFound(was, now, dirs.recorded, written)
    && forall n :: n !in tree && n !in written + dirs.adopted
                   && (n in BOX + dirs.recorded || (n in dirs.BoxState() && HoldsData(Lookup(was, n))))
                   ==> Lookup(now, n) == Lookup(was, n)
  }

  lemma KeptSoFar(first: Tree, was: Tree, tree: Tree, dirs: Classes, written: set<Name>)
    requires SameExcept(first, was, written + dirs.adopted) && dirs.adopted !! dirs.recorded
    ensures BoxStateKept(first, was, tree, dirs, written)
  {
  }

  /** What replacing keeps, whatever its outcome. */
  ghost predicate KeptAfter(was: Tree, now: Tree, tree: Tree, dirs: Classes, written: set<Name>,
                            wasInodes: map<Name, nat>, inodes: map<Name, nat>) {
    var final := AfterInstall(was, tree, dirs);
    && SameExcept(was, now, written + (was.Keys - final.BoxState()) + tree.Keys)
    && KeptAsFound(was, now, final.recorded, written)
    && SameDirInodes(was, tree, final.recorded + written, wasInodes, inodes)
  }

  /** Recorded data found at first is still found when the record is settled, so it
      is not taken for code; nor is the staging copy of what is taken holding data. */
  lemma KeptFromFirst(first: Tree, was: Tree, now: Tree, tree: Tree, dirs: Classes,
                      wasWritten: set<Name>, written: set<Name>, wasInodes: map<Name, nat>, inodes: map<Name, nat>)
    requires SameExcept(first, was, wasWritten + dirs.adopted) && dirs.adopted !! dirs.recorded && wasWritten <= written
    requires KeptAfter(was, now, tree, dirs, written, wasInodes, inodes)
    ensures BoxStateKept(first, now, tree, dirs, written)
    ensures SameDirInodes(first, tree, dirs.recorded + dirs.adopted + written, wasInodes, inodes)
  {
    forall n | n in dirs.recorded && HoldsData(Lookup(first, n)) && n !in written
      ensures Lookup(now, n) == Lookup(first, n)
    {
      assert Lookup(was, n) == Lookup(first, n);
      assert n !in Taken(was, tree, dirs);
    }
    UnshippedIsKept(first, was, now, tree, dirs, wasWritten, written);
    MoreDirs(first, was, tree, dirs, written, wasInodes, inodes);
  }

  lemma UnshippedIsKept(first: Tree, was: Tree, now: Tree, tree: Tree, dirs: Classes,
                        wasWritten: set<Name>, written: set<Name>)
    requires SameExcept(first, was, wasWritten + dirs.adopted) && wasWritten <= written
    requires SameExcept(was, now, written + (was.Keys - AfterInstall(was, tree, dirs).BoxState()) + tree.Keys)
    ensures forall n :: n !in tree && n !in written + dirs.adopted
                        && (n in BOX + dirs.recorded || (n in dirs.BoxState() && HoldsData(Lookup(first, n))))
                        ==> Lookup(now, n) == Lookup(first, n)
  {
    var final := AfterInstall(was, tree, dirs);
    forall n | n !in tree && n !in written + dirs.adopted
               && (n in BOX + dirs.recorded || (n in dirs.BoxState() && HoldsData(Lookup(first, n))))
      ensures Lookup(now, n) == Lookup(first, n)
    {
      assert Lookup(was, n) == Lookup(first, n);
      if n !in BOX + dirs.recorded {
        var t :| t in dirs.mounted + dirs.recorded + dirs.staged && StagingCopy(t) == n;
        assert t !in Taken(was, tree, dirs);
        assert t in final.mounted + final.recorded + final.staged;
      }
      assert n in final.BoxState();
    }
  }

  /** Where the release ships nothing and no container wrote: boxmunge's own entries,
      data, and what staging copies hold, are as they were. */
  ghost predicate Survive(was: Tree, now: Tree, tree: Tree, record: Record, kept: Option<Entry>,
                          staged: Option<Entry>, written: set<Name>) {
    && (forall n :: n in BOX && n !in tree && n !in written ==> Lookup(now, n) == Lookup(was, n))
    && (forall n :: IsData(was, tree, record, kept, n) && HoldsData(Lookup(was, n)) && n !in tree && n !in written
                    ==> Lookup(now, n) == Lookup(was, n))
    && (forall t :: && (|| t in MountedBy(Lookup(was, COMPOSE_YML)) + MountedBy(Lookup(tree, COMPOSE_YML))
                                + MountedBy(staged)
                        || IsData(was, tree, record, kept, t))
                    && HoldsData(Lookup(was, StagingCopy(t)))
                    && StagingCopy(t) !in tree && StagingCopy(t) !in written
                    ==> Lookup(now, StagingCopy(t)) == Lookup(was, StagingCopy(t)))
  }

  /** And only those: what is left that the release does not ship is boxmunge's, on
      the new record, or a staging copy of what is on it or mounted. */
  ghost predicate NothingElseSurvives(was: Tree, now: Tree, tree: Tree, record: Record, staged: Option<Entry>,
                                      written: set<Name>) {
    record.Recorded?
    && forall n :: n in now && n !in tree && n !in written && n !in BOX + record.names ==>
         exists t :: n == StagingCopy(t)
                     && t in MountedBy(Lookup(was, COMPOSE_YML)) + MountedBy(Lookup(tree, COMPOSE_YML))
                             + MountedBy(staged) + record.names
  }

  /** The record an install leaves: only data that was found or is mounted; all the
      release mounts read-write; what was found holding data; and nothing the
      release ships as code that was found empty, staging's copy included. */
  ghost predicate RecordEndsUp(was: Tree, tree: Tree, record: Record, kept: Option<Entry>, written: set<Name>,
                               now: Record) {
    && now.Recorded?
    && (forall n :: n in now.names ==>
          && IsData(was, tree, record, kept, n)
          && (n in MountedBy(Lookup(was, COMPOSE_YML)) + MountedBy(Lookup(tree, COMPOSE_YML))
              || HoldsData(Lookup(was, n)) || HoldsData(Lookup(was, StagingCopy(n)))))
    && LiveReadWrite(tree) - BOX <= now.names
    && (forall n :: IsData(was, tree, record, kept, n) && HoldsData(Lookup(was, n)) && n !in written
                    && (n in tree ==> Claimed(was, record, n))
                    ==> n in now.names)
    && (forall n :: n in now.names && n in tree && n !in LiveReadWrite(tree) && n !in written
                    && StagingCopy(n) !in written + tree.Keys
                    ==> HoldsData(Lookup(was, n)) || HoldsData(Lookup(was, StagingCopy(n))))
  }

  lemma BoxStateSurvives(was: Tree, now: Tree, tree: Tree, dirs: Classes, record: Record,
                         kept: Option<Entry>, staged: Option<Entry>, written: set<Name>)
    requires Classify(was, tree, record, kept, staged) == Some(dirs) && BoxStateKept(was, now, tree, dirs, written)
    ensures Survive(was, now, tree, record, kept, staged, written)
  {
    DataIsBoxState(was, tree, record, kept, staged, COMPOSE_YML);
    forall n | IsData(was, tree, record, kept, n) && HoldsData(Lookup(was, n)) && n !in tree
      ensures n in dirs.recorded
    {
      DataIsBoxState(was, tree, record, kept, staged, n);
    }
    forall t | MayBeStaged(was, tree, record, kept, staged, t) && HoldsData(Lookup(was, StagingCopy(t)))
      ensures StagingCopy(t) in dirs.BoxState()
    {
      DataIsBoxState(was, tree, record, kept, staged, t);
    }
  }

  lemma OnlyBoxStateSurvives(first: Tree, was: Tree, now: Tree, tree: Tree, dirs: Classes, record: Record,
                             kept: Option<Entry>, staged: Option<Entry>, written: set<Name>)
    requires Classify(first, tree, record, kept, staged) == Some(dirs)
    requires Exactly(now, tree, AfterInstall(was, tree, dirs), written)
    ensures NothingElseSurvives(first, now, tree, Recorded(AfterInstall(was, tree, dirs).recorded), staged, written)
  {
    var final := AfterInstall(was, tree, dirs);
    forall n | n in now && n !in tree && n !in written && n !in BOX + final.recorded
      ensures exists t :: n == StagingCopy(t)
                          && t in MountedBy(Lookup(first, COMPOSE_YML)) + MountedBy(Lookup(tree, COMPOSE_YML))
                                  + MountedBy(staged) + final.recorded
    {
      assert Lookup(now, n) != Lookup(tree, n);
      assert n in final.BoxState();
    }
  }

  lemma RecordIsExact(first: Tree, was: Tree, tree: Tree, dirs: Classes, record: Record,
                      kept: Option<Entry>, staged: Option<Entry>, written: set<Name>)
    requires Classify(first, tree, record, kept, staged) == Some(dirs)
    requires SameExcept(first, was, written + dirs.adopted)
    ensures RecordEndsUp(first, tree, record, kept, written, Recorded(AfterInstall(was, tree, dirs).recorded))
  {
    DataIsBoxState(first, tree, record, kept, staged, COMPOSE_YML);
    forall n | n in dirs.recorded && n !in written
      ensures Lookup(was, n) == Lookup(first, n)
    {
    }
    forall n | n !in written + tree.Keys
      ensures Lookup(was, n) == Lookup(first, n)
    {
    }
    RecordIsOfData(first, tree, record, kept, staged);
    FoundDataIsRecorded(first, tree, record, kept, staged);
  }

  lemma RecordIsOfData(first: Tree, tree: Tree, record: Record, kept: Option<Entry>, staged: Option<Entry>)
    requires Classify(first, tree, record, kept, staged).Some?
    ensures var dirs := Classify(first, tree, record, kept, staged).value;
            forall n :: n in dirs.recorded ==>
              && IsData(first, tree, record, kept, n)
              && (n in MountedBy(Lookup(first, COMPOSE_YML)) + MountedBy(Lookup(tree, COMPOSE_YML))
                  || Occupied(first, n))
  {
  }

  lemma FoundDataIsRecorded(first: Tree, tree: Tree, record: Record, kept: Option<Entry>, staged: Option<Entry>)
    requires Classify(first, tree, record, kept, staged).Some?
    ensures var dirs := Classify(first, tree, record, kept, staged).value;
            && LiveReadWrite(tree) - BOX <= dirs.recorded && LiveReadWrite(tree) == dirs.release
            && forall n :: IsData(first, tree, record, kept, n) && HoldsData(Lookup(first, n))
                           && (n in tree ==> Claimed(first, record, n))
                           ==> n in dirs.recorded
  {
  }

  /** What becomes of the entries the live release mounted read-write, and no
      container wrote: those found empty, for which the release ships something, are
      what it ships; all others are as they were. */
  ghost predicate MountsEndUp(was: Tree, now: Tree, tree: Tree, written: set<Name>) {
    forall n :: n in LiveReadWrite(was) && n !in written ==>
      Lookup(now, n) == if n in tree && !HoldsData(Lookup(was, n)) then Some(tree[n]) else Lookup(was, n)
  }

  lemma Concluded(first: Tree, was: Tree, now: Tree, tree: Tree, dirs: Classes, record: Record,
                  kept: Option<Entry>, staged: Option<Entry>, written: set<Name>)
    requires Classify(first, tree, record, kept, staged) == Some(dirs) && Check(first, tree, dirs).None?
    requires SameExcept(first, was, written + dirs.adopted) && BoxStateKept(first, now, tree, dirs, written)
    requires Installed(was, now, tree, tree.Keys, AfterInstall(was, tree, dirs).recorded, written)
    requires Exactly(now, tree, AfterInstall(was, tree, dirs), written)
    ensures MountsEndUp(first, now, tree, written)
    ensures forall n :: n in tree && n !in written ==> Lookup(now, n) == Some(tree[n]) || IsPlaceholder(tree[n])
    ensures var final := Recorded(AfterInstall(was, tree, dirs).recorded);
            && NothingElseSurvives(first, now, tree, final, staged, written)
            && RecordEndsUp(first, tree, record, kept, written, final)
  {
    OnlyPlaceholdersAreLeftOut(first, was, now, tree, dirs, written);
    OnlyBoxStateSurvives(first, was, now, tree, dirs, record, kept, staged, written);
    RecordIsExact(first, was, tree, dirs, record, kept, staged, written);
    MountsFollow(first, was, now, tree, dirs, record, kept, staged, written);
  }

  lemma MountsFollow(first: Tree, was: Tree, now: Tree, tree: Tree, dirs: Classes, record: Record,
                     kept: Option<Entry>, staged: Option<Entry>, written: set<Name>)
    requires Classify(first, tree, record, kept, staged) == Some(dirs) && Check(first, tree, dirs).None?
    requires SameExcept(first, was, written + dirs.adopted) && BoxStateKept(first, now, tree, dirs, written)
    requires Installed(was, now, tree, tree.Keys, AfterInstall(was, tree, dirs).recorded, written)
    ensures MountsEndUp(first, now, tree, written)
  {
    assert tree.Keys * BOX == {};
    forall n | n in LiveReadWrite(first) && n !in written
      ensures Lookup(now, n) == if n in tree && !HoldsData(Lookup(first, n)) then Some(tree[n]) else Lookup(first, n)
    {
      assert n in BOX + dirs.recorded && n !in dirs.adopted;
      assert Lookup(was, n) == Lookup(first, n);
    }
  }

  lemma MoreDirs(first: Tree, was: Tree, tree: Tree, dirs: Classes, written: set<Name>,
                 firstInodes: map<Name, nat>, inodes: map<Name, nat>)
    requires SameExcept(first, was, written + dirs.adopted)
    requires SameDirInodes(was, tree, AfterInstall(was, tree, dirs).recorded + written, firstInodes, inodes)
    ensures SameDirInodes(first, tree, dirs.recorded + dirs.adopted + written, firstInodes, inodes)
  {
    var final := AfterInstall(was, tree, dirs).recorded;
    forall n | n in tree && tree[n].Dir? && n in first && first[n].Dir?
               && n !in BOX + (dirs.recorded + dirs.adopted + written)
      ensures Lookup(inodes, n) == Lookup(firstInodes, n)
    {
      assert Lookup(was, n) == Lookup(first, n) && n !in BOX + (final + written);
    }
  }

  /** Once all of it is set aside, what becomes of the entries does not matter. */
  lemma SetAsideIsKept(first: Tree, was: Tree, now: Tree, retained: Retained, names: set<Name>)
    requires NothingLost(first, was, retained, names) && forall n :: n in names ==> !HoldsData(Lookup(was, n))
    ensures NothingLost(first, now, retained, names)
  {
    forall n, p | n in names && p in Contents(first, n)
      ensures Somewhere(now, retained, n, p, Contents(first, n)[p])
    {
      assert !HoldsData(Lookup(was, n));
      assert p !in Contents(was, n);
    }
  }

  /** A release that passed the check leaves out only placeholders. */
  lemma OnlyPlaceholdersAreLeftOut(first: Tree, was: Tree, now: Tree, tree: Tree, dirs: Classes, written: set<Name>)
    requires Check(first, tree, dirs).None? && dirs.adopted !! dirs.recorded
    requires SameExcept(first, was, written + dirs.adopted)
    requires Installed(was, now, tree, tree.Keys, AfterInstall(was, tree, dirs).recorded, written)
    ensures forall n :: n in tree && n !in written ==> Lookup(now, n) == Some(tree[n]) || IsPlaceholder(tree[n])
  {
    forall n | n in tree && n !in written && Lookup(now, n) != Some(tree[n])
      ensures IsPlaceholder(tree[n])
    {
      assert Lookup(was, n) == Lookup(first, n);
      CheckedReleaseShipsNothingOverData(first, tree, dirs, n);
    }
  }

  lemma GrowsOn(first: Retained, was: Retained, now: Retained)
    requires Grows(first, was) && Grows(was, now)
    ensures Grows(first, now)
  {
  }

  lemma {:induction false} KeptAt(log: seq<Happening>, retained: Retained, j: nat)
    requires Kept(log, retained) && j < |log| && log[j].Moved?
    ensures IsAside(retained, log[j].name, log[j].piece, log[j].e)
    decreases |log|
  {
    if j < |log| - 1 {
      KeptAt(log[..|log| - 1], retained, j);
    }
  }

  lemma OtherInodes(was: map<Name, nat>, now: map<Name, nat>, name: Name)
    requires now - {name} == was - {name}
    ensures forall n :: n != name ==> Lookup(now, n) == Lookup(was, n)
  {
    forall n | n != name
      ensures Lookup(now, n) == Lookup(was, n)
    {
      assert n in now <==> n in now - {name};
      assert n in was <==> n in was - {name};
      if n in now {
        assert (now - {name})[n] == now[n] && (was - {name})[n] == was[n];
      }
    }
  }

  /** The release mounts read-write only recorded or box entries, not its compose file. */
  ghost predicate MountsOnRecord(tree: Tree, recorded: set<Name>) {
    var binds := Binds(Lookup(tree, COMPOSE_YML));
    binds.Some? && COMPOSE_YML !in ReadWrite(binds.value) && ReadWrite(binds.value) <= BOX + recorded
  }
}
