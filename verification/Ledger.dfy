/** What has happened to the app's data: a log of the containers' writes and of
    what installs did to them, and the data the app still has, read off it. */
module Ledger {
  import opened Options
  import opened DataDirs

  datatype Happening =
    | Wrote(name: Name, written: Option<Entry>)   // by a container, through a read-write mount
    | Moved(name: Name, piece: string, e: Entry)  // to a directory under .releases/retained/
    | Looked(names: set<Name>)                    // an install is about to replace these, seen to hold nothing
    | Covered(names: set<Name>)                   // these are on record
    | Started(names: set<Name>)                   // new containers mount these read-write
    | Marked                                      // an install begins: its writes are counted from here
    | Lost(name: Name)                            // an install removed or overwrote what the app had there

  /** What the app has after it. */
  function Apply(app: Tree, h: Happening): Tree {
    match h
    case Wrote(n, written) => if HoldsData(written) then app[n := written.value] else app - {n}
    case Moved(n, piece, _) => if n in app then Without(app, n, piece) else app
    case Lost(n) => app - {n}
    case _ => app
  }

  function Without(app: Tree, n: Name, piece: string): Tree
    requires n in app
  {
    var left := if app[n].Dir? then app[n].children - {piece} else map[];
    if left == map[] then app - {n} else app[n := Dir(left)]
  }

  function Replay(start: Tree, log: seq<Happening>): Tree {
    if log == [] then start else Apply(Replay(start, log[..|log| - 1]), log[|log| - 1])
  }

  predicate Covers(h: Happening, n: Name) {
    (h.Covered? || h.Started?) && n in h.names
  }

  /** An install has seen the entry when the app had nothing there, and it has not
      been on record since. */
  predicate SeenEmpty(start: Tree, log: seq<Happening>, n: Name) {
    log != []
    && var before, h := log[..|log| - 1], log[|log| - 1];
       || (h.Looked? && n in h.names && n !in Replay(start, before))
       || (!Covers(h, n) && SeenEmpty(start, before, n))
  }

  /** Nothing is lost but what was written after an install had seen nothing there. */
  predicate Excused(start: Tree, log: seq<Happening>) {
    log == []
    || var before, h := log[..|log| - 1], log[|log| - 1];
       Excused(start, before) && (h.Lost? ==> h.name in Replay(start, before) && SeenEmpty(start, before, h.name))
  }

  /** Where the running containers can write; `first` is where they could at the start. */
  function MountedAt(first: set<Name>, log: seq<Happening>): set<Name> {
    if log == [] then first
    else if log[|log| - 1].Started? then log[|log| - 1].names else MountedAt(first, log[..|log| - 1])
  }

  /** Every write was through a mount of the containers then running. */
  predicate ThroughMounts(first: set<Name>, log: seq<Happening>) {
    log == []
    || var before, h := log[..|log| - 1], log[|log| - 1];
       ThroughMounts(first, before) && (h.Wrote? ==> h.name in MountedAt(first, before))
  }

  /** What containers wrote to since an install last began. */
  function WrittenSince(log: seq<Happening>): set<Name> {
    if log == [] || log[|log| - 1].Marked? then {}
    else
      var before, h := WrittenSince(log[..|log| - 1]), log[|log| - 1];
      if h.Wrote? then before + {h.name} else before
  }

  /** `exposed` is where something can still be lost. */
  datatype Book = Book(start: Tree, first: set<Name>, log: seq<Happening>,
                       app: Tree, exposed: set<Name>, mounts: set<Name>, written: set<Name>) {
    ghost predicate Valid() {
      && app == Replay(start, log) && Excused(start, log) && (forall n :: n in exposed ==> SeenEmpty(start, log, n))
      && mounts == MountedAt(first, log) && ThroughMounts(first, log) && written == WrittenSince(log)
    }

    ghost predicate May(h: Happening) {
      && (h.Wrote? ==> h.name in mounts)
      && (h.Looked? ==> h.names !! app.Keys) && (h.Lost? ==> h.name in app && h.name in exposed)
    }

    function Then(h: Happening): Book {
      Book(start, first, log + [h], Apply(app, h),
           match h {
             case Looked(names) => exposed + names
             case Covered(names) => exposed - names
             case Started(names) => exposed - names
             case _ => exposed
           },
           if h.Started? then h.names else mounts,
           if h.Marked? then {} else if h.Wrote? then written + {h.name} else written)
    }

    ghost predicate Continues(was: Book) {
      start == was.start && first == was.first && was.log <= log
    }
  }

  lemma OneMore(start: Tree, first: set<Name>, log: seq<Happening>, h: Happening)
    ensures Replay(start, log + [h]) == Apply(Replay(start, log), h)
    ensures MountedAt(first, log + [h]) == if h.Started? then h.names else MountedAt(first, log)
    ensures ThroughMounts(first, log + [h]) <==>
              ThroughMounts(first, log) && (h.Wrote? ==> h.name in MountedAt(first, log))
    ensures WrittenSince(log + [h]) ==
              if h.Marked? then {} else if h.Wrote? then WrittenSince(log) + {h.name} else WrittenSince(log)
  {
    assert (log + [h])[..|log|] == log;
  }

  lemma OneMoreSeen(start: Tree, log: seq<Happening>, h: Happening, n: Name)
    ensures SeenEmpty(start, log + [h], n) <==>
              (h.Looked? && n in h.names && n !in Replay(start, log)) || (!Covers(h, n) && SeenEmpty(start, log, n))
  {
    assert (log + [h])[..|log|] == log;
  }

  lemma OneMoreExcused(start: Tree, log: seq<Happening>, h: Happening)
    ensures Excused(start, log + [h]) <==>
              Excused(start, log) && (h.Lost? ==> h.name in Replay(start, log) && SeenEmpty(start, log, h.name))
  {
    assert (log + [h])[..|log|] == log;
  }

  lemma ThenIsValid(b: Book, h: Happening)
    requires b.Valid() && b.May(h)
    ensures b.Then(h).Valid() && b.Then(h).Continues(b)
  {
    OneMore(b.start, b.first, b.log, h);
    OneMoreExcused(b.start, b.log, h);
    forall n | n in b.Then(h).exposed
      ensures SeenEmpty(b.start, b.log + [h], n)
    {
      OneMoreSeen(b.start, b.log, h, n);
      assert n !in b.exposed ==> h.Looked? && n in h.names;
    }
  }

  // ---------------------------------------------------------------------
  // Reading a valid book
  // ---------------------------------------------------------------------

  predicate WritesData(h: Happening, n: Name) {
    h.Wrote? && h.name == n && HoldsData(h.written)
  }

  lemma {:induction false} SeenAt(start: Tree, log: seq<Happening>, n: Name) returns (i: nat)
    requires SeenEmpty(start, log, n)
    ensures i < |log| && log[i].Looked? && n in log[i].names && n !in Replay(start, log[..i])
    ensures forall k :: i < k < |log| ==> !Covers(log[k], n)
    decreases |log|
  {
    var before, h := log[..|log| - 1], log[|log| - 1];
    if h.Looked? && n in h.names && n !in Replay(start, before) {
      i := |log| - 1;
    } else {
      i := SeenAt(start, before, n);
      assert before[..i] == log[..i];
    }
  }

  lemma {:induction false} WrittenBetween(start: Tree, log: seq<Happening>, n: Name, i: nat) returns (k: nat)
    requires i <= |log| && n !in Replay(start, log[..i]) && n in Replay(start, log)
    ensures i <= k < |log| && WritesData(log[k], n)
    decreases |log|
  {
    assert log[..|log|] == log;
    var before := log[..|log| - 1];
    assert before[..i] == log[..i];
    if WritesData(log[|log| - 1], n) {
      k := |log| - 1;
    } else {
      k := WrittenBetween(start, before, n, i);
    }
  }

  /** Whatever was lost was written by a container after an install had seen the
      entry hold none of the app's data, the entry not having been put on record,
      or mounted by new containers, since. */
  lemma {:induction false} LossesFollowALook(start: Tree, log: seq<Happening>, j: nat) returns (i: nat, k: nat)
    requires Excused(start, log) && j < |log| && log[j].Lost?
    ensures i < k < j && WritesData(log[k], log[j].name)
    ensures log[i].Looked? && log[j].name in log[i].names && log[j].name !in Replay(start, log[..i])
    ensures forall m :: i < m < j ==> !Covers(log[m], log[j].name)
    decreases |log|
  {
    var before := log[..|log| - 1];
    if j == |log| - 1 {
      i := SeenAt(start, before, log[j].name);
      assert before[..i] == log[..i];
      k := WrittenBetween(start, before, log[j].name, i);
      assert log[k] == before[k] && log[i] == before[i];
    } else {
      i, k := LossesFollowALook(start, before, j);
      assert before[..i] == log[..i];
    }
  }

  lemma {:induction false} WritesAreThroughMounts(first: set<Name>, log: seq<Happening>, j: nat)
    requires ThroughMounts(first, log) && j < |log| && log[j].Wrote?
    ensures log[j].name in MountedAt(first, log[..j])
    decreases |log|
  {
    if j < |log| - 1 {
      WritesAreThroughMounts(first, log[..|log| - 1], j);
      assert log[..|log| - 1][..j] == log[..j];
    }
  }

  /** What counts as written since an install began, a container wrote since. */
  lemma {:induction false} WrittenByAContainer(log: seq<Happening>, n: Name) returns (j: nat)
    requires n in WrittenSince(log)
    ensures j < |log| && log[j].Wrote? && log[j].name == n && forall k :: j < k < |log| ==> !log[k].Marked?
    decreases |log|
  {
    if log[|log| - 1].Wrote? && log[|log| - 1].name == n {
      j := |log| - 1;
    } else {
      j := WrittenByAContainer(log[..|log| - 1], n);
    }
  }

  predicate Concerns(h: Happening, n: Name) {
    (h.Wrote? || h.Moved? || h.Lost?) && h.name == n
  }

  /** What the app wrote last, and that was neither moved nor lost, it still has. */
  lemma {:induction false} TheLastWriteIsKept(start: Tree, log: seq<Happening>, k: nat, n: Name)
    requires k < |log| && WritesData(log[k], n)
    requires forall j | k < j < |log| :: !Concerns(log[j], n)
    ensures n in Replay(start, log) && Replay(start, log)[n] == log[k].written.value
    decreases |log|
  {
    if k < |log| - 1 {
      assert !Concerns(log[|log| - 1], n);
      TheLastWriteIsKept(start, log[..|log| - 1], k, n);
    }
  }

  /** So has it what it had at the start, until then. */
  lemma {:induction false} WhatIsLeftAloneStays(start: Tree, log: seq<Happening>, n: Name)
    requires n in start && forall j | 0 <= j < |log| :: !Concerns(log[j], n)
    ensures n in Replay(start, log) && Replay(start, log)[n] == start[n]
    decreases |log|
  {
    if log != [] {
      assert !Concerns(log[|log| - 1], n);
      WhatIsLeftAloneStays(start, log[..|log| - 1], n);
    }
  }
}
