/** The link policy of a bundle's archive, and what it means for resolving those
    links (src/boxmunge/bundle.py). Paths are sequences of names relative to the
    directory the archive is unpacked into. */
module BundleLinks {
  import opened Options
  import opened Text

  type Path = seq<string>

  datatype Kind = Regular | Directory | Symlink(target: string) | Hardlink(target: string) | Special

  datatype Member = Member(name: string, kind: Kind)

  predicate NoPart(part: string) {
    part == "" || part == "."
  }

  function NamesOf(parts: seq<string>): Path {
    if parts == [] then []
    else if NoPart(parts[0]) then NamesOf(parts[1..]) else [parts[0]] + NamesOf(parts[1..])
  }

  function MemberParts(name: string): Path {
    NamesOf(Split(name, '/'))
  }

  function DirName(path: Path): Path {
    if path == [] then [] else path[..|path| - 1]
  }

  /** posixpath.normpath of a relative path, on its parts. */
  function Norm(parts: seq<string>, done: Path): Path
    decreases |parts|
  {
    if parts == [] then done
    else if NoPart(parts[0]) then Norm(parts[1..], done)
    else if parts[0] != ".." || done == [] || done[|done| - 1] == ".." then Norm(parts[1..], done + [parts[0]])
    else Norm(parts[1..], done[..|done| - 1])
  }

  predicate Within(path: Path, top: string) {
    path != [] && path[0] == top
  }

  // ---------------------------------------------------------------------
  // The policy
  // ---------------------------------------------------------------------

  /** How many `..` a target starts with, and what follows them. */
  function Ups(parts: seq<string>): (n: nat) {
    if parts == [] then 0
    else if NoPart(parts[0]) then Ups(parts[1..])
    else if parts[0] == ".." then 1 + Ups(parts[1..]) else 0
  }

  function AfterUps(parts: seq<string>): seq<string> {
    if parts == [] then []
    else if NoPart(parts[0]) || parts[0] == ".." then AfterUps(parts[1..]) else parts
  }

  predicate ClimbsAfterName(target: string) {
    ".." in AfterUps(Split(target, '/'))
  }

  predicate LinkOk(m: Member, top: string) {
    match m.kind
    case Symlink(target) =>
      !ClimbsAfterName(target) && !("/" <= target)
      && Within(Norm(DirName(MemberParts(m.name)) + Split(target, '/'), []), top)
    case Hardlink(target) =>
      ".." !in Split(target, '/') && !("/" <= target) && Within(Norm(MemberParts(target), []), top)
    case _ => true
  }

  predicate NameOk(m: Member) {
    !("/" <= m.name) && ".." !in Split(m.name, '/')
  }

  ghost predicate Accepted(members: seq<Member>, top: string) {
    && (forall m :: m in members ==>
          && NameOk(m) && LinkOk(m, top)
          && (MemberParts(m.name) != [] ==> Within(MemberParts(m.name), top) && !m.kind.Special?))
    && exists m :: m in members && MemberParts(m.name) != []
  }

  method ClimbsAfterNameCheck(target: string) returns (climbs: bool)
    ensures climbs == ClimbsAfterName(target)
  {
    var parts := Split(target, '/');
    var seenName := false;
    for i := 0 to |parts|
      invariant !seenName ==> AfterUps(parts) == AfterUps(parts[i..])
      invariant seenName ==> (".." in AfterUps(parts) <==> ".." in parts[i..])
    {
      assert parts[i..] == [parts[i]] + parts[i + 1..];
      if parts[i] == ".." {
        if seenName {
          return true;
        }
      } else if !NoPart(parts[i]) {
        seenName := true;
      }
    }
    return false;
  }

  lemma TopIsTheOnlyOne(members: seq<Member>, tops: set<string>, top: string)
    requires Accepted(members, top)
    requires forall m :: m in members && MemberParts(m.name) != [] ==> MemberParts(m.name)[0] in tops
    requires forall t :: t in tops ==> exists m :: m in members && Within(MemberParts(m.name), t)
    ensures tops == {top}
  {
    var m :| m in members && MemberParts(m.name) != [];
    assert top in tops;
  }

  /** bundle._check_members: the single top directory, or None when refused. */
  method CheckMembers(members: seq<Member>) returns (r: Option<string>)
    ensures forall top :: Accepted(members, top) <==> r == Some(top)
  {
    var tops: set<string> := {};
    for i := 0 to |members|
      invariant forall m :: m in members[..i] ==>
                  NameOk(m) && (MemberParts(m.name) != [] ==> !m.kind.Special? && MemberParts(m.name)[0] in tops)
      invariant forall top :: top in tops ==> exists m :: m in members && Within(MemberParts(m.name), top)
    {
      var m := members[i];
      assert members[..i + 1] == members[..i] + [m] && m in members;
      if "/" <= m.name || ".." in Split(m.name, '/') {
        return None;
      }
      var parts := MemberParts(m.name);
      if parts != [] {
        tops := tops + {parts[0]};
        if m.kind.Special? {
          return None;
        }
      }
    }
    assert members[..|members|] == members;
    if |tops| != 1 {
      forall top
        ensures !Accepted(members, top)
      {
        if Accepted(members, top) {
          TopIsTheOnlyOne(members, tops, top);
        }
      }
      return None;
    }
    var top :| top in tops;
    assert tops == {top} by { OnlyOne(tops, top); }
    var ok := CheckLinks(members, top);
    if !ok {
      forall other
        ensures !Accepted(members, other)
      {
        if Accepted(members, other) {
          TopIsTheOnlyOne(members, tops, other);
        }
      }
      return None;
    }
    forall other
      ensures Accepted(members, other) <==> other == top
    {
      if Accepted(members, other) {
        TopIsTheOnlyOne(members, tops, other);
      }
    }
    return Some(top);
  }

  method CheckLinks(members: seq<Member>, top: string) returns (ok: bool)
    ensures ok <==> forall m :: m in members ==> LinkOk(m, top)
  {
    for i := 0 to |members|
      invariant forall m :: m in members[..i] ==> LinkOk(m, top)
    {
      var m := members[i];
      assert m in members;
      match m.kind {
        case Symlink(target) =>
          var climbs := ClimbsAfterNameCheck(target);
          if climbs || "/" <= target || !Within(Norm(DirName(MemberParts(m.name)) + Split(target, '/'), []), top) {
            return false;
          }
        case Hardlink(target) =>
          if ".." in Split(target, '/') || "/" <= target || !Within(Norm(MemberParts(target), []), top) {
            return false;
          }
        case _ =>
      }
      assert members[..i + 1] == members[..i] + [m];
    }
    assert members[..|members|] == members;
    return true;
  }

  lemma OnlyOne(tops: set<string>, top: string)
    requires |tops| == 1 && top in tops
    ensures tops == {top}
  {
    assert |tops - {top}| == 0;
  }

  // ---------------------------------------------------------------------
  // What the policy accepts
  // ---------------------------------------------------------------------

  /** A `..` comes after a name. */
  predicate NameThenUp(parts: seq<string>) {
    exists i, j :: 0 <= i < j < |parts| && parts[i] !in {"", ".", ".."} && parts[j] == ".."
  }

  lemma {:induction false} UpAfterUps(parts: seq<string>)
    ensures ".." in AfterUps(parts) <==> NameThenUp(parts)
  {
    if parts != [] {
      var rest := parts[1..];
      assert forall i :: 0 < i < |parts| ==> parts[i] == rest[i - 1];
      if NoPart(parts[0]) || parts[0] == ".." {
        UpAfterUps(rest);
        if NameThenUp(rest) {
          var i, j :| 0 <= i < j < |rest| && rest[i] !in {"", ".", ".."} && rest[j] == "..";
          assert parts[i + 1] == rest[i] && parts[j + 1] == rest[j];
        }
      } else if ".." in parts {
        var j :| 0 <= j < |parts| && parts[j] == "..";
        assert parts[0] !in {"", ".", ".."} && 0 < j;
      }
    }
  }

  /** Where a symlink counts as lying; one named like the unpack directory itself is
      resolved from there, as one right above the top directory's own entries. */
  function PlaceOf(m: Member, top: string): Path {
    if MemberParts(m.name) == [] then [top] else MemberParts(m.name)
  }

  lemma InPlaceIsWithin(dir: Path, last: string, target: string, top: string)
    requires ".." !in AfterUps(Split(target, '/')) && top != ".."
    requires forall d :: d in dir ==> !NoPart(d) && d != ".."
    requires dir != [] ==> dir[0] == top
    ensures Within(Norm(dir + Split(target, '/'), []), top) <==> InPlace(dir + [last], target, top)
  {
    var parts := Split(target, '/');
    DirFirst(dir, parts, []);
    assert [] + dir == dir;
    NormClimbs(parts, dir);
    NormOfFlat(AfterUps(parts), []);
  }

  /** The archive's own paths: relative, free of `..`, all under one top directory. */
  ghost predicate OneTop(members: seq<Member>, top: string) {
    && (exists m :: m in members && MemberParts(m.name) != [])
    && forall m :: m in members ==>
         && !("/" <= m.name) && ".." !in Split(m.name, '/')
         && (MemberParts(m.name) != [] ==> MemberParts(m.name)[0] == top)
  }

  /** What is asked of one member besides its name. */
  ghost predicate Fits(m: Member, top: string) {
    match m.kind
    case Regular => true
    case Directory => true
    case Special => MemberParts(m.name) == []
    case Symlink(target) =>
      !("/" <= target) && !NameThenUp(Split(target, '/')) && InPlace(PlaceOf(m, top), target, top)
    case Hardlink(target) =>
      !("/" <= target) && ".." !in Split(target, '/') && MemberParts(target) != [] && MemberParts(target)[0] == top
  }

  lemma FitsExactlyWhenLinkOk(members: seq<Member>, top: string, m: Member)
    requires OneTop(members, top) && m in members
    ensures Fits(m, top) <==> LinkOk(m, top) && (m.kind.Special? ==> MemberParts(m.name) == [])
  {
    var named :| named in members && MemberParts(named.name) != [];
    NamesAreNames(Split(named.name, '/'));
    assert top in MemberParts(named.name);
    match m.kind {
      case Symlink(target) =>
        UpAfterUps(Split(target, '/'));
        if !ClimbsAfterName(target) {
          NamesAreNames(Split(m.name, '/'));
          InDirName(MemberParts(m.name));
          var place := PlaceOf(m, top);
          assert DirName(MemberParts(m.name)) + [place[|place| - 1]] == place;
          InPlaceIsWithin(DirName(MemberParts(m.name)), place[|place| - 1], target, top);
        }
      case Hardlink(target) =>
        NamesAreNames(Split(target, '/'));
        NamesOfNames(Split(target, '/'));
        if ".." !in Split(target, '/') {
          NormOfFlat(MemberParts(target), []);
        }
      case _ =>
    }
  }

  /** Which archives are accepted: no special files; symlinks in place that never go
      up again after a name; hard links to paths under the top directory. Nothing
      more is asked of a regular file or a directory. */
  lemma AcceptedExactlyWhen(members: seq<Member>, top: string)
    ensures Accepted(members, top) <==> OneTop(members, top) && forall m :: m in members ==> Fits(m, top)
  {
    if OneTop(members, top) {
      forall m | m in members
        ensures Fits(m, top) <==> LinkOk(m, top) && (m.kind.Special? ==> MemberParts(m.name) == [])
      {
        FitsExactlyWhenLinkOk(members, top, m);
      }
    }
  }

  /** So any archive of plain files and directories under one top directory is. */
  lemma PlainArchivesAreAccepted(members: seq<Member>, top: string)
    requires OneTop(members, top)
    requires forall m :: m in members ==> m.kind.Regular? || m.kind.Directory?
    ensures Accepted(members, top)
  {
    AcceptedExactlyWhen(members, top);
  }

  /** What the parts of a path keep: all but empty ones and `.`, in order. */
  lemma {:induction false} NamesOfMore(parts: seq<string>, part: string)
    ensures NamesOf([]) == []
    ensures NamesOf(parts + [part]) == NamesOf(parts) + if part == "" || part == "." then [] else [part]
  {
    if parts == [] {
      assert [] + [part] == [part] && [part][1..] == [];
    } else {
      assert (parts + [part])[1..] == parts[1..] + [part];
      NamesOfMore(parts[1..], part);
    }
  }

  // ---------------------------------------------------------------------
  // Where unpacking can leave links
  // ---------------------------------------------------------------------

  /** A member can leave this link at that path: a symlink member there, or a hard
      link there, through `hops` others, to a symlink. Of members repeated at one
      path any can be the one that stays. */
  ghost predicate CanLeaveIn(members: seq<Member>, path: Path, target: string, hops: nat)
    decreases hops
  {
    exists m :: m in members && MemberParts(m.name) == path
                && match m.kind
                   case Symlink(text) => text == target
                   case Hardlink(other) => hops > 0 && CanLeaveIn(members, MemberParts(other), target, hops - 1)
                   case _ => false
  }

  ghost predicate CanLeave(members: seq<Member>, path: Path, target: string) {
    exists hops: nat :: CanLeaveIn(members, path, target, hops)
  }

  /** The links in the tree on disk: path -> target. */
  type Links = map<Path, string>

  /** Any links the members can leave, each on its own account. */
  ghost predicate LeftBy(links: Links, members: seq<Member>) {
    forall path :: path in links ==> CanLeave(members, path, links[path])
  }

  lemma InDirName(path: Path)
    ensures forall d :: d in DirName(path) ==> d in path
  {
  }

  lemma NamedPath(members: seq<Member>, top: string, m: Member)
    requires Accepted(members, top) && m in members && MemberParts(m.name) != []
    ensures MemberParts(m.name)[0] == top
    ensures forall d :: d in MemberParts(m.name) ==> !NoPart(d) && d != ".."
  {
    NamesAreNames(Split(m.name, '/'));
  }

  /** The text of a link left somewhere is that of an accepted symlink member, and
      its place is inside the top directory. */
  lemma {:induction false} LeftIsASymlinks(members: seq<Member>, top: string, path: Path, target: string, hops: nat)
      returns (l: Member)
    requires Accepted(members, top) && path != [] && CanLeaveIn(members, path, target, hops)
    ensures l in members && l.kind == Symlink(target) && MemberParts(l.name) != []
    ensures path[0] == top && forall d :: d in path ==> !NoPart(d) && d != ".."
    decreases hops
  {
    var m :| m in members && MemberParts(m.name) == path
             && match m.kind
                case Symlink(text) => text == target
                case Hardlink(other) => hops > 0 && CanLeaveIn(members, MemberParts(other), target, hops - 1)
                case _ => false;
    NamedPath(members, top, m);
    match m.kind {
      case Symlink(_) => l := m;
      case Hardlink(other) =>
        assert LinkOk(m, top);
        NormOfFlat(MemberParts(other), []) by {
          NamesAreNames(Split(other, '/'));
        }
        NamesOfNames(Split(other, '/'));
        l := LeftIsASymlinks(members, top, MemberParts(other), target, hops - 1);
    }
  }

  // ---------------------------------------------------------------------
  // Resolving a path, name by name (section 4.13 of the Base Definitions of
  // POSIX.1-2017)
  // ---------------------------------------------------------------------

  /** Where the walk is, and the names it still has to take. Paths above the
      unpack directory are spelled with leading `..`, absolute ones with "/". */
  datatype Walk = Walk(cur: Path, rest: seq<string>)

  function Parent(path: Path): Path {
    if path == [] || path[|path| - 1] == ".." then path + [".."] else path[..|path| - 1]
  }

  function Step(links: Links, w: Walk): Walk {
    if w.rest == [] then w
    else
      var name, rest := w.rest[0], w.rest[1..];
      if NoPart(name) then Walk(w.cur, rest)
      else if name == ".." then Walk(Parent(w.cur), rest)
      else if w.cur + [name] !in links then Walk(w.cur + [name], rest)
      else
        var target := links[w.cur + [name]];
        Walk(if "/" <= target then ["/"] else w.cur, Split(target, '/') + rest)
  }

  function Steps(links: Links, w: Walk, n: nat): Walk
    decreases n
  {
    if n == 0 then w else Steps(links, Step(links, w), n - 1)
  }

  function Resolving(link: Path): Walk
    requires link != []
  {
    Walk(DirName(link), [link[|link| - 1]])
  }

  function FirstName(parts: seq<string>): Option<string> {
    if parts == [] then None else if NoPart(parts[0]) then FirstName(parts[1..]) else Some(parts[0])
  }

  /** Every stop is inside the top directory, or right above it with the top
      directory's name next to take. */
  ghost predicate Contained(w: Walk, top: string) {
    && ".." !in w.cur && (w.cur != [] ==> w.cur[0] == top)
    && ".." !in AfterUps(w.rest)
    && Ups(w.rest) <= |w.cur|
    && (Ups(w.rest) == |w.cur| ==> FirstName(AfterUps(w.rest)) == Some(top))
  }

  lemma {:induction false} UpsOfFlat(parts: seq<string>)
    requires ".." !in parts
    ensures Ups(parts) == 0 && ".." !in AfterUps(parts) && FirstName(AfterUps(parts)) == FirstName(parts)
  {
    if parts != [] && NoPart(parts[0]) {
      UpsOfFlat(parts[1..]);
    }
  }

  /** A flat tail changes nothing about how a target starts. */
  lemma {:induction false} UpsThenFlat(parts: seq<string>, tail: seq<string>)
    requires ".." !in AfterUps(parts) && ".." !in tail
    ensures Ups(parts + tail) == Ups(parts) && ".." !in AfterUps(parts + tail)
    ensures FirstName(AfterUps(parts)).Some? ==> FirstName(AfterUps(parts + tail)) == FirstName(AfterUps(parts))
  {
    if parts == [] {
      assert parts + tail == tail;
      UpsOfFlat(tail);
    } else {
      assert (parts + tail)[1..] == parts[1..] + tail;
      if NoPart(parts[0]) || parts[0] == ".." {
        UpsThenFlat(parts[1..], tail);
      }
    }
  }

  lemma {:induction false} NormOfFlat(parts: seq<string>, done: Path)
    requires ".." !in parts
    ensures Norm(parts, done) == done + NamesOf(parts)
    ensures FirstName(parts) == if NamesOf(parts) == [] then None else Some(NamesOf(parts)[0])
    decreases |parts|
  {
    if parts != [] {
      if NoPart(parts[0]) {
        NormOfFlat(parts[1..], done);
      } else {
        NormOfFlat(parts[1..], done + [parts[0]]);
        assert done + [parts[0]] + NamesOf(parts[1..]) == done + NamesOf(parts);
      }
    }
  }

  /** normpath on a directory followed by a target that climbs first and only
      names afterwards: the climb, then the names. */
  lemma {:induction false} NormClimbs(parts: seq<string>, done: Path)
    requires ".." !in AfterUps(parts) && ".." !in done
    ensures Ups(parts) <= |done| ==> Norm(parts, done) == done[..|done| - Ups(parts)] + NamesOf(AfterUps(parts))
    ensures Ups(parts) > |done| ==> Norm(parts, done) != [] && Norm(parts, done)[0] == ".."
    decreases |parts|
  {
    if parts == [] {
      assert done[..|done|] == done;
    } else if NoPart(parts[0]) {
      NormClimbs(parts[1..], done);
    } else if parts[0] == ".." {
      if done == [] {
        assert [] + [".."] == [".."];
        NormAboveStays(parts[1..], [".."]);
      } else {
        NormClimbs(parts[1..], done[..|done| - 1]);
      }
    } else {
      assert done[..|done|] == done;
      NormOfFlat(parts, done);
    }
  }

  lemma {:induction false} NormAboveStays(parts: seq<string>, done: Path)
    requires done != [] && forall i :: 0 <= i < |done| ==> done[i] == ".."
    requires ".." !in AfterUps(parts)
    ensures Norm(parts, done) != [] && Norm(parts, done)[0] == ".."
    decreases |parts|
  {
    if parts != [] {
      if NoPart(parts[0]) {
        NormAboveStays(parts[1..], done);
      } else if parts[0] == ".." {
        NormAboveStays(parts[1..], done + [".."]);
      } else {
        NormOfFlat(parts, done);
      }
    }
  }

  lemma {:induction false} DirFirst(dir: Path, parts: seq<string>, done: Path)
    requires forall d :: d in dir ==> !NoPart(d) && d != ".."
    requires ".." !in done
    ensures Norm(dir + parts, done) == Norm(parts, done + dir)
    decreases |dir|
  {
    if dir == [] {
      assert dir + parts == parts && done + dir == done;
    } else {
      assert (dir + parts)[1..] == dir[1..] + parts;
      assert dir[0] in dir;
      DirFirst(dir[1..], parts, done + [dir[0]]);
      assert done + [dir[0]] + dir[1..] == done + dir;
    }
  }

  lemma {:induction false} NamesAreNames(parts: seq<string>)
    ensures forall n :: n in NamesOf(parts) ==> !NoPart(n) && n in parts
  {
    if parts != [] {
      NamesAreNames(parts[1..]);
    }
  }

  lemma {:induction false} NoUpsNoSkip(parts: seq<string>)
    requires Ups(parts) == 0
    ensures FirstName(AfterUps(parts)) == FirstName(parts)
  {
    if parts != [] && NoPart(parts[0]) {
      NoUpsNoSkip(parts[1..]);
    }
  }

  /** NamesOf keeps names. */
  lemma {:induction false} NamesOfNames(parts: seq<string>)
    ensures NamesOf(NamesOf(parts)) == NamesOf(parts)
  {
    if parts != [] {
      NamesOfNames(parts[1..]);
      if !NoPart(parts[0]) {
        assert NamesOf(parts)[1..] == NamesOf(parts[1..]);
      }
    }
  }

  /** The link, at this place, climbs no higher than right above the top directory,
      and comes back in by its name. */
  predicate InPlace(path: Path, target: string, top: string) {
    var parts := Split(target, '/');
    path != [] && Ups(parts) <= |path| - 1 && (Ups(parts) == |path| - 1 ==> FirstName(AfterUps(parts)) == Some(top))
  }

  /** It climbs as many levels as its place is deep, or more. */
  predicate ClimbsOut(path: Path, target: string) {
    Ups(Split(target, '/')) + 1 >= |path|
  }

  /** What the lexical policy says of a symlink member: it is in place. */
  lemma SymlinkMembersAreInPlace(members: seq<Member>, top: string, m: Member)
    requires Accepted(members, top) && m in members && m.kind.Symlink? && MemberParts(m.name) != []
    ensures InPlace(MemberParts(m.name), m.kind.target, top)
    ensures !("/" <= m.kind.target) && ".." !in AfterUps(Split(m.kind.target, '/'))
  {
    NamedPath(members, top, m);
    InDirName(MemberParts(m.name));
    assert MemberParts(m.name)[0] in MemberParts(m.name) && top != "..";
    var dir, parts := DirName(MemberParts(m.name)), Split(m.kind.target, '/');
    DirFirst(dir, parts, []);
    assert [] + dir == dir;
    NormClimbs(parts, dir);
    NormOfFlat(AfterUps(parts), []);
  }

  /** Links whose text the policy accepted, at places inside the top directory. */
  ghost predicate Sound(links: Links, top: string) {
    forall path :: path in links ==>
      && path != [] && path[0] == top && (forall d :: d in path ==> !NoPart(d) && d != "..")
      && !("/" <= links[path]) && ".." !in AfterUps(Split(links[path], '/'))
  }

  lemma LeftIsSound(members: seq<Member>, top: string, links: Links)
    requires Accepted(members, top) && LeftBy(links, members) && [] !in links
    ensures Sound(links, top)
  {
    forall path | path in links
      ensures path != [] && path[0] == top && (forall d :: d in path ==> !NoPart(d) && d != "..")
      ensures !("/" <= links[path]) && ".." !in AfterUps(Split(links[path], '/'))
    {
      var hops: nat :| CanLeaveIn(members, path, links[path], hops);
      var l := LeftIsASymlinks(members, top, path, links[path], hops);
      SymlinkMembersAreInPlace(members, top, l);
    }
  }

  // ---------------------------------------------------------------------
  // Links cannot climb, exactly when each is in place
  // ---------------------------------------------------------------------

  ghost predicate AllInPlace(links: Links, top: string) {
    forall path :: path in links ==> InPlace(path, links[path], top)
  }

  lemma StepStaysContained(links: Links, top: string, w: Walk)
    requires Sound(links, top) && AllInPlace(links, top) && Contained(w, top)
    ensures Contained(Step(links, w), top)
  {
    if w.rest != [] {
      var name, rest := w.rest[0], w.rest[1..];
      if !NoPart(name) && name != ".." {
        assert AfterUps(w.rest) == w.rest;
        assert ".." !in rest;
        UpsOfFlat(rest);
        if w.cur + [name] in links {
          UpsThenFlat(Split(links[w.cur + [name]], '/'), rest);
        }
      }
    }
  }

  lemma {:induction false} StepsStayContained(links: Links, top: string, w: Walk, n: nat)
    requires Sound(links, top) && AllInPlace(links, top) && Contained(w, top)
    ensures Contained(Steps(links, w, n), top)
    decreases n
  {
    if n > 0 {
      StepStaysContained(links, top, w);
      StepsStayContained(links, top, Step(links, w), n - 1);
    }
  }

  /** This stop is inside the top directory, or right above it with its name next. */
  predicate StopsInside(w: Walk, top: string) {
    Within(w.cur, top) || (w.cur == [] && FirstName(w.rest) == Some(top))
  }

  /** At every stop of resolving any of the links. */
  ghost predicate CannotClimb(links: Links, top: string) {
    forall link: Path, n: nat :: link in links && link != [] ==> StopsInside(Steps(links, Resolving(link), n), top)
  }

  lemma ContainedStopsInside(links: Links, top: string, link: Path, n: nat)
    requires Sound(links, top) && AllInPlace(links, top) && link in links
    ensures StopsInside(Steps(links, Resolving(link), n), top)
  {
    InDirName(link);
    assert |link| == 1 ==> link == [top];
    assert link[|link| - 1] in link;
    NoUpsNoSkip(Resolving(link).rest);
    assert Contained(Resolving(link), top);
    StepsStayContained(links, top, Resolving(link), n);
    var w := Steps(links, Resolving(link), n);
    if w.cur == [] {
      NoUpsNoSkip(w.rest);
    }
  }

  lemma FirstStep(links: Links, link: Path)
    requires link != [] && link in links && !("/" <= links[link])
    requires !NoPart(link[|link| - 1]) && link[|link| - 1] != ".."
    ensures Step(links, Resolving(link)) == Walk(DirName(link), Split(links[link], '/'))
  {
    assert DirName(link) + [link[|link| - 1]] == link;
    assert Split(links[link], '/') + [] == Split(links[link], '/');
  }

  /** The leading `..` of what is left to take, walked until none is left or the
      walk is right above the top directory; `left` of them are then still to go. */
  lemma {:induction false} WalkUp(links: Links, w: Walk) returns (n: nat)
    requires ".." !in w.cur && Ups(w.rest) >= |w.cur|
    ensures var v := Steps(links, w, n);
            && v.cur == [] && Ups(v.rest) == Ups(w.rest) - |w.cur| && AfterUps(v.rest) == AfterUps(w.rest)
    decreases |w.rest|
  {
    if w.cur == [] {
      n := 0;
    } else {
      n := WalkUp(links, Step(links, w));
      n := n + 1;
    }
  }

  /** One more level up. */
  lemma {:induction false} WalkAbove(links: Links, w: Walk) returns (n: nat)
    requires w.cur == [] && Ups(w.rest) > 0
    ensures Steps(links, w, n).cur == [".."]
    decreases |w.rest|
  {
    if NoPart(w.rest[0]) {
      n := WalkAbove(links, Step(links, w));
      n := n + 1;
    } else {
      n := 1;
      assert Steps(links, w, 1) == Steps(links, Step(links, w), 0);
      assert [] + [".."] == [".."];
    }
  }

  lemma {:induction false} StepsAdd(links: Links, w: Walk, a: nat, b: nat)
    ensures Steps(links, w, a + b) == Steps(links, Steps(links, w, a), b)
    decreases a
  {
    if a > 0 {
      StepsAdd(links, Step(links, w), a - 1, b);
    }
  }

  /** A link that climbs as many levels as it is deep is itself resolved through the
      directory above the top one. */
  lemma ClimbingReachesAbove(links: Links, top: string, link: Path) returns (n: nat)
    requires Sound(links, top) && link in links && ClimbsOut(link, links[link])
    ensures var parts, w := Split(links[link], '/'), Steps(links, Resolving(link), n);
            w.cur == [] && Ups(w.rest) == Ups(parts) + 1 - |link| && AfterUps(w.rest) == AfterUps(parts)
  {
    assert link[|link| - 1] in link;
    FirstStep(links, link);
    InDirName(link);
    n := WalkUp(links, Walk(DirName(link), Split(links[link], '/')));
    n := n + 1;
  }

  lemma OutOfPlaceClimbs(links: Links, top: string, link: Path) returns (n: nat)
    requires Sound(links, top) && link in links && !InPlace(link, links[link], top)
    ensures !StopsInside(Steps(links, Resolving(link), n), top)
  {
    n := ClimbingReachesAbove(links, top, link);
    var w := Steps(links, Resolving(link), n);
    assert link[0] in link && top != "..";
    if Ups(w.rest) > 0 {
      var more := WalkAbove(links, w);
      StepsAdd(links, Resolving(link), n, more);
      n := n + more;
    } else {
      NoUpsNoSkip(w.rest);
    }
  }

  /** Links cannot climb, exactly when. Whatever links an accepted archive leaves:
      resolving any of them, through any chain of others and for any number of
      steps, is inside the top directory at every stop, or right above it with its
      name next to take, if and only if each is in place where it lies. */
  lemma LinksCannotClimbExactlyWhen(members: seq<Member>, top: string, links: Links)
    requires Accepted(members, top) && LeftBy(links, members) && [] !in links
    ensures CannotClimb(links, top) <==> AllInPlace(links, top)
  {
    LeftIsSound(members, top, links);
    if AllInPlace(links, top) {
      forall link: Path, n: nat | link in links
        ensures StopsInside(Steps(links, Resolving(link), n), top)
      {
        ContainedStopsInside(links, top, link, n);
      }
    } else {
      var link :| link in links && !InPlace(link, links[link], top);
      var n := OutOfPlaceClimbs(links, top, link);
      assert link in links && link != [] && !StopsInside(Steps(links, Resolving(link), n), top);
    }
  }

  /** Each link lies where a symlink member put it. */
  ghost predicate AsMembers(links: Links, members: seq<Member>) {
    forall path :: path in links ==>
      exists m :: m in members && m.kind == Symlink(links[path]) && MemberParts(m.name) == path
  }

  /** Only a hard link can put a link out of place: an accepted archive whose links
      all lie where a symlink member put them cannot climb, and what ends, ends
      inside. */
  lemma LinksCannotClimb(members: seq<Member>, top: string, links: Links)
    requires Accepted(members, top) && AsMembers(links, members) && [] !in links
    ensures AllInPlace(links, top) && CannotClimb(links, top)
    ensures forall link: Path, n: nat :: link in links && link != [] && Steps(links, Resolving(link), n).rest == [] ==>
              Within(Steps(links, Resolving(link), n).cur, top)
  {
    forall path | path in links
      ensures CanLeave(members, path, links[path]) && InPlace(path, links[path], top)
    {
      var m :| m in members && m.kind == Symlink(links[path]) && MemberParts(m.name) == path;
      assert CanLeaveIn(members, path, links[path], 0);
      SymlinkMembersAreInPlace(members, top, m);
    }
    LinksCannotClimbExactlyWhen(members, top, links);
    forall link: Path, n: nat | link in links && Steps(links, Resolving(link), n).rest == []
      ensures Within(Steps(links, Resolving(link), n).cur, top)
    {
      assert StopsInside(Steps(links, Resolving(link), n), top);
    }
  }

  // ---------------------------------------------------------------------
  // Exactly which archives never step above the top directory
  // ---------------------------------------------------------------------

  ghost predicate NoneClimbsOut(links: Links) {
    forall path :: path in links ==> !ClimbsOut(path, links[path])
  }

  lemma {:induction false} StepsStayInside(links: Links, top: string, w: Walk, n: nat)
    requires Sound(links, top) && NoneClimbsOut(links)
    requires ".." !in w.cur && Within(w.cur, top) && ".." !in AfterUps(w.rest) && Ups(w.rest) < |w.cur|
    ensures Within(Steps(links, w, n).cur, top)
    decreases n
  {
    if n > 0 && w.rest != [] {
      var name, rest := w.rest[0], w.rest[1..];
      if !NoPart(name) && name != ".." {
        assert AfterUps(w.rest) == w.rest;
        assert ".." !in rest;
        UpsOfFlat(rest);
        if w.cur + [name] in links {
          UpsThenFlat(Split(links[w.cur + [name]], '/'), rest);
        }
      }
      StepsStayInside(links, top, Step(links, w), n - 1);
    } else if n > 0 {
      StepsStayInside(links, top, w, n - 1);
    }
  }

  /** Every resolution of every link stays inside the top directory. */
  ghost predicate NeverAbove(links: Links, top: string) {
    forall link: Path, n: nat :: link in links && link != [] ==> Within(Steps(links, Resolving(link), n).cur, top)
  }

  lemma NoneOutStaysInside(links: Links, top: string, link: Path, n: nat)
    requires Sound(links, top) && NoneClimbsOut(links) && link in links
    ensures Within(Steps(links, Resolving(link), n).cur, top)
  {
    assert !ClimbsOut(link, links[link]);
    InDirName(link);
    assert link[|link| - 1] in link;
    UpsOfFlat(Resolving(link).rest);
    StepsStayInside(links, top, Resolving(link), n);
  }

  /** The links an accepted archive leaves are resolved without ever leaving the top
      directory if and only if none climbs as many levels as its place is deep. */
  lemma NeverAboveExactlyWhen(members: seq<Member>, top: string, links: Links)
    requires Accepted(members, top) && LeftBy(links, members) && [] !in links
    ensures NeverAbove(links, top) <==> NoneClimbsOut(links)
  {
    LeftIsSound(members, top, links);
    if NoneClimbsOut(links) {
      forall link: Path, n: nat | link in links
        ensures Within(Steps(links, Resolving(link), n).cur, top)
      {
        NoneOutStaysInside(links, top, link, n);
      }
    } else {
      var link :| link in links && ClimbsOut(link, links[link]);
      var n := ClimbingReachesAbove(links, top, link);
      assert link in links && link != [] && !Within(Steps(links, Resolving(link), n).cur, top);
    }
  }

  /** So, of an archive: whatever it can leave stays inside if and only if no link
      it can leave, at any place, climbs as many levels as that place is deep. */
  lemma NeverAboveWhateverIsLeft(members: seq<Member>, top: string)
    requires Accepted(members, top)
    ensures (forall links: Links :: LeftBy(links, members) && [] !in links ==> NeverAbove(links, top))
            <==> forall path: Path, target :: path != [] && CanLeave(members, path, target) ==> !ClimbsOut(path, target)
  {
    forall links: Links | LeftBy(links, members) && [] !in links
      ensures NeverAbove(links, top) <==> NoneClimbsOut(links)
    {
      NeverAboveExactlyWhen(members, top, links);
    }
    if forall links: Links :: LeftBy(links, members) && [] !in links ==> NeverAbove(links, top) {
      forall path: Path, target | path != [] && CanLeave(members, path, target)
        ensures !ClimbsOut(path, target)
      {
        var one: Links := map[path := target];
        assert LeftBy(one, members) && NeverAbove(one, top);
        assert path in one && one[path] == target;
      }
    }
  }

  predicate PlainName(name: string) {
    !NoPart(name) && name != ".." && '/' !in name
  }

  /** A link in the top directory to `../` followed by the top directory's own name
      is accepted, in an archive of any name, and climbs as many levels as it is
      deep. */
  lemma AReboundIsAccepted(top: string, file: string)
    requires PlainName(top) && PlainName(file)
    ensures var target := ".." + ['/'] + top;
            var members := [Member(top + ['/'] + file, Symlink(target))];
            Accepted(members, top) && CanLeave(members, [top, file], target) && ClimbsOut([top, file], target)
  {
    TwoParts(top, file);
    TwoParts("..", top);
    AcceptsRebound(Member(top + ['/'] + file, Symlink(".." + ['/'] + top)), top, file);
  }

  lemma TwoParts(a: string, b: string)
    requires '/' !in a && '/' !in b
    ensures Split(a + ['/'] + b, '/') == [a, b]
  {
    SplitWhole(b, '/');
    SplitFirst(a, '/', b);
  }

  lemma AcceptsRebound(m: Member, top: string, file: string)
    requires PlainName(top) && PlainName(file) && m.kind.Symlink?
    requires Split(m.name, '/') == [top, file] && !("/" <= m.name)
    requires Split(m.kind.target, '/') == ["..", top] && !("/" <= m.kind.target)
    ensures Accepted([m], top) && CanLeave([m], [top, file], m.kind.target) && ClimbsOut([top, file], m.kind.target)
  {
    ReboundParts(top, file);
    assert MemberParts(m.name) == [top, file];
    assert LinkOk(m, top);
    assert m in [m];
    assert CanLeaveIn([m], [top, file], m.kind.target, 0);
  }

  lemma ReboundParts(top: string, file: string)
    requires PlainName(top) && PlainName(file)
    ensures NamesOf([top, file]) == [top, file] && DirName([top, file]) == [top]
    ensures AfterUps(["..", top]) == [top] && Ups(["..", top]) == 1
    ensures Norm([top] + ["..", top], []) == [top]
  {
    var name, up := [top, file], ["..", top];
    assert name[1..] == [file] && up[1..] == [top];
    assert NamesOf([file]) == [file] && NamesOf([top]) == [top];
    DirFirst([top], up, []);
    assert [] + [top] == [top];
    NormClimbs(up, [top]);
  }

  /** A hard link can take an accepted link out of its place: `top/dir/link` is a
      symlink to `../name`, and `top/file` a hard link to it. */
  lemma AHardLinkCanClimb(top: string, dir: string, link: string, file: string, name: string)
    requires PlainName(top) && PlainName(dir) && PlainName(link) && PlainName(file) && PlainName(name) && name != top
    ensures var target := ".." + ['/'] + name;
            var place := top + ['/'] + (dir + ['/'] + link);
            var members := [Member(place, Symlink(target)), Member(top + ['/'] + file, Hardlink(place))];
            var links: Links := map[[top, file] := target];
            Accepted(members, top) && LeftBy(links, members) && !CannotClimb(links, top)
  {
    var place := top + ['/'] + (dir + ['/'] + link);
    TwoParts(dir, link);
    SplitFirst(top, '/', dir + ['/'] + link);
    TwoParts("..", name);
    TwoParts(top, file);
    assert [top] + [dir, link] == [top, dir, link];
    HardLinkClimbs(Member(place, Symlink(".." + ['/'] + name)), Member(top + ['/'] + file, Hardlink(place)),
                   top, dir, link, file, name);
  }

  lemma HardLinkClimbs(m: Member, h: Member, top: string, dir: string, link: string, file: string, name: string)
    requires PlainName(top) && PlainName(dir) && PlainName(link) && PlainName(file) && PlainName(name) && name != top
    requires m.kind.Symlink? && h.kind == Hardlink(m.name)
    requires Split(m.name, '/') == [top, dir, link] && !("/" <= m.name)
    requires Split(m.kind.target, '/') == ["..", name] && !("/" <= m.kind.target)
    requires Split(h.name, '/') == [top, file] && !("/" <= h.name)
    ensures var links: Links := map[[top, file] := m.kind.target];
            Accepted([m, h], top) && LeftBy(links, [m, h]) && !CannotClimb(links, top)
  {
    var members, links: Links := [m, h], map[[top, file] := m.kind.target];
    HardLinkParts(top, dir, link, file, name);
    HardLinkAccepted(m, h, top, dir, link, file, name);
    HardLinkLeaves(m, h);
    assert [] !in links;
    LinksCannotClimbExactlyWhen(members, top, links);
    assert [top, file] in links && !InPlace([top, file], links[[top, file]], top);
  }

  lemma HardLinkLeaves(m: Member, h: Member)
    requires m.kind.Symlink? && h.kind == Hardlink(m.name)
    ensures CanLeave([m, h], MemberParts(h.name), m.kind.target)
  {
    var members := [m, h];
    assert members[0] == m && members[1] == h;
    assert CanLeaveIn(members, MemberParts(m.name), m.kind.target, 0);
    assert CanLeaveIn(members, MemberParts(h.name), m.kind.target, 1);
  }

  lemma HardLinkAccepted(m: Member, h: Member, top: string, dir: string, link: string, file: string, name: string)
    requires PlainName(top) && PlainName(dir) && PlainName(link) && PlainName(file) && PlainName(name) && name != top
    requires m.kind.Symlink? && h.kind == Hardlink(m.name)
    requires Split(m.name, '/') == [top, dir, link] && !("/" <= m.name)
    requires Split(m.kind.target, '/') == ["..", name] && !("/" <= m.kind.target)
    requires Split(h.name, '/') == [top, file] && !("/" <= h.name)
    ensures Accepted([m, h], top) && MemberParts(m.name) == [top, dir, link] && MemberParts(h.name) == [top, file]
  {
    HardLinkParts(top, dir, link, file, name);
    assert LinkOk(m, top) && LinkOk(h, top);
    assert m in [m, h];
  }

  lemma HardLinkParts(top: string, dir: string, link: string, file: string, name: string)
    requires PlainName(top) && PlainName(dir) && PlainName(link) && PlainName(file) && PlainName(name) && name != top
    ensures NamesOf([top, dir, link]) == [top, dir, link] && DirName([top, dir, link]) == [top, dir]
    ensures Norm([top, dir] + ["..", name], []) == [top, name] && Norm([top, dir, link], []) == [top, dir, link]
    ensures NamesOf([top, file]) == [top, file] && Ups(["..", name]) == 1 && AfterUps(["..", name]) == [name]
    ensures FirstName([name]) == Some(name)
  {
    ReboundParts(name, link);
    ReboundParts(top, file);
    ReboundParts(dir, link);
    assert [top, dir, link][1..] == [dir, link];
    var up := ["..", name];
    DirFirst([top, dir], up, []);
    assert [] + [top, dir] == [top, dir];
    NormClimbs(up, [top, dir]);
    assert [top, dir][..1] == [top];
    NormOfFlat([top, dir, link], []);
    assert [] + [top, dir, link] == [top, dir, link];
  }
}
