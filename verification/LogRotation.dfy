/** The operational log that many processes append to and rotate
    (src/boxmunge/log_rotation.py). Every write happens under one lock, so writes
    are taken one at a time, by writers whose open file may since have been
    renamed away, merged or pruned. */
module LogRotation {
  import opened Options

  /** One line; None for a first line that is not a boxmunge log entry. */
  datatype Line = Line(id: nat, at: Option<int>)

  const SECONDS_A_DAY := 86400

  function DayOf(at: int): int {
    at / SECONDS_A_DAY
  }

  /** No entry is stamped after this day. */
  ghost predicate UpTo(lines: seq<Line>, day: int) {
    forall l :: l in lines && l.at.Some? ==> DayOf(l.at.value) <= day
  }

  ghost predicate NoRepeats(lines: seq<Line>) {
    forall i, j :: 0 <= i < j < |lines| ==> lines[i].id != lines[j].id
  }

  /** log_rotation.log_files, on the days of the archives. */
  function DaysSince(days: set<int>, since: Option<int>): set<int> {
    set d | d in days && (since.None? || d >= DayOf(since.value) - 1)
  }

  /** The logs directory. `home`, where each line not yet pruned is, and `torn`,
      that a merge was cut between its copy and its unlink, are bookkeeping of
      the argument. */
  datatype Logs = Logs(
    files: map<nat, seq<Line>>,  // by inode
    active: Option<nat>,         // the inode boxmunge.log names
    archives: map<int, nat>,     // day -> the inode its archive names
    home: map<nat, nat>, torn: bool)
  {
    predicate Archived(inode: nat) {
      exists d :: d in archives && archives[d] == inode
    }

    predicate Named(inode: nat) {
      active == Some(inode) || Archived(inode)
    }

    function ActiveLines(): seq<Line>
      requires active.Some? && active.value in files
    {
      files[active.value]
    }
  }

  /** One file, one name; the active file's entries are of its first entry's day
      or earlier, an archive's of the day in its name or earlier. */
  ghost predicate WellNamed(s: Logs) {
    && (s.active.Some? ==> s.active.value in s.files && !s.Archived(s.active.value))
    && (forall d :: d in s.archives ==> s.archives[d] in s.files && UpTo(s.files[s.archives[d]], d))
    && (forall d, e :: d in s.archives && e in s.archives && d != e ==> s.archives[d] != s.archives[e])
    && (s.active.Some? && s.ActiveLines() != [] && s.ActiveLines()[0].at.Some?
        ==> UpTo(s.ActiveLines(), DayOf(s.ActiveLines()[0].at.value)))
  }

  ghost predicate HasLine(s: Logs, inode: nat, id: nat) {
    inode in s.files && exists l :: l in s.files[inode] && l.id == id
  }

  /** Every line not pruned is where `home` says, under a name. */
  ghost predicate AllFound(s: Logs) {
    forall id :: id in s.home ==> s.Named(s.home[id]) && HasLine(s, s.home[id], id)
  }

  /** And, unless a merge was cut, nowhere else and only once. */
  ghost predicate NoneTwice(s: Logs) {
    forall f :: f in s.files && s.Named(f) ==>
      NoRepeats(s.files[f]) && forall l :: l in s.files[f] ==> l.id in s.home && s.home[l.id] == f
  }

  /** No file with a name has a line that is not there by the bookkeeping, but for
      copies a cut merge left in the archive the active file is still to join. */
  ghost predicate Homed(s: Logs) {
    forall f, l :: f in s.files && s.Named(f) && l in s.files[f] ==>
      l.id in s.home && (s.home[l.id] == f || (s.active == Some(s.home[l.id]) && IsArchiveToBe(s, f)))
  }

  predicate IsArchiveToBe(s: Logs, f: nat) {
    FirstDay(s).Some? && FirstDay(s).value in s.archives && s.archives[FirstDay(s).value] == f
  }

  ghost predicate Inv(s: Logs) {
    WellNamed(s) && AllFound(s) && Homed(s) && (!s.torn ==> NoneTwice(s))
  }

  // ---------------------------------------------------------------------
  // What one write does
  // ---------------------------------------------------------------------

  function Renamed(s: Logs, day: int): Logs
    requires s.active.Some?
  {
    s.(archives := s.archives[day := s.active.value], active := None)
  }

  /** The archive of that day gets the first `copied` active lines appended. */
  function PartMerged(s: Logs, day: int, copied: nat): Logs
    requires WellNamed(s) && s.active.Some? && day in s.archives && copied <= |s.ActiveLines()|
  {
    s.(files := s.files[s.archives[day] := s.files[s.archives[day]] + s.ActiveLines()[..copied]], torn := true)
  }

  function Merged(s: Logs, day: int): Logs
    requires WellNamed(s) && s.active.Some? && day in s.archives
  {
    var target := s.archives[day];
    s.(files := s.files[target := s.files[target] + s.ActiveLines()], active := None,
       home := map id | id in s.home :: if s.home[id] == s.active.value then target else s.home[id])
  }

  function FilesOf(s: Logs, days: set<int>): set<nat> {
    set d | d in days && d in s.archives :: s.archives[d]
  }

  function WithoutArchives(s: Logs, gone: set<int>): Logs {
    s.(archives := s.archives - gone,
       home := map id | id in s.home && s.home[id] !in FilesOf(s, gone) :: s.home[id])
  }

  function Reopened(s: Logs, inode: nat): Logs {
    if s.active.Some? then s else s.(active := Some(inode), files := s.files[inode := []])
  }

  function Written(s: Logs, line: Line): Logs
    requires s.active.Some? && s.active.value in s.files
  {
    s.(files := s.files[s.active.value := s.ActiveLines() + [line]], home := s.home[line.id := s.active.value])
  }

  /** The day of the active file's first entry, when it has a readable one. */
  function FirstDay(s: Logs): Option<int> {
    if s.active.None? || s.active.value !in s.files || s.ActiveLines() == [] || s.ActiveLines()[0].at.None? then None
    else Some(DayOf(s.ActiveLines()[0].at.value))
  }

  /** The first line has no day, so nothing can be written. */
  predicate FirstUnreadable(s: Logs) {
    s.active.Some? && s.active.value in s.files && s.ActiveLines() != [] && s.ActiveLines()[0].at.None?
  }

  predicate Due(s: Logs, recordDay: int) {
    FirstDay(s).Some? && FirstDay(s).value < recordDay
  }

  function Moved(s: Logs, day: int): Logs
    requires WellNamed(s) && s.active.Some?
  {
    if day in s.archives then Merged(s, day) else Renamed(s, day)
  }

  ghost predicate Oldest(gone: set<int>, days: set<int>) {
    gone <= days && forall d, e :: d in gone && e in days && e !in gone ==> d < e
  }

  /** The oldest archives are gone, and only while more than `keep` were left
      (`keep` of 0 keeps them all). */
  ghost predicate Pruned(s: Logs, n: Logs, keep: nat) {
    exists gone :: Oldest(gone, s.archives.Keys) && n == WithoutArchives(s, gone)
                   && (gone != {} ==> keep > 0 && |n.archives| >= keep)
  }

  ghost predicate Rotated(s: Logs, n: Logs, recordDay: int, keep: nat)
    requires WellNamed(s)
  {
    if Due(s, recordDay) then Pruned(Moved(s, FirstDay(s).value), n, keep) && (keep > 0 ==> |n.archives| <= keep)
    else n == s
  }

  /** A merge cut after its first `copied` lines. */
  ghost predicate MergeCut(s: Logs, n: Logs, day: int)
    requires WellNamed(s) && s.active.Some?
  {
    day in s.archives && exists copied: nat :: copied <= |s.ActiveLines()| && n == PartMerged(s, day, copied)
  }

  ghost predicate RotationCut(s: Logs, n: Logs, recordDay: int, keep: nat)
    requires WellNamed(s)
  {
    n == s || (Due(s, recordDay) && (Pruned(Moved(s, FirstDay(s).value), n, keep) || MergeCut(s, n, FirstDay(s).value)))
  }

  lemma RenameKeepsHomed(s: Logs, day: int)
    requires Inv(s) && s.active.Some? && day !in s.archives && FirstDay(s) == Some(day)
    ensures Homed(Renamed(s, day))
  {
    var n := Renamed(s, day);
    forall f, l | f in n.files && n.Named(f) && l in n.files[f]
      ensures l.id in n.home && n.home[l.id] == f
    {
      assert s.Named(f);
    }
  }

  lemma PartMergeKeepsHomed(s: Logs, day: int, copied: nat)
    requires Inv(s) && s.active.Some? && day in s.archives && copied <= |s.ActiveLines()| && FirstDay(s) == Some(day)
    ensures Homed(PartMerged(s, day, copied))
  {
    var n, target := PartMerged(s, day, copied), s.archives[day];
    forall f, l | f in n.files && n.Named(f) && l in n.files[f]
      ensures l.id in n.home && (n.home[l.id] == f || (n.active == Some(n.home[l.id]) && IsArchiveToBe(n, f)))
    {
      assert s.Named(f) && s.Named(s.active.value);
      assert n.files[f] == s.files[f] || (f == target && (l in s.files[f] || l in s.ActiveLines()));
    }
  }

  lemma MergeKeepsHomed(s: Logs, day: int)
    requires Inv(s) && s.active.Some? && day in s.archives && FirstDay(s) == Some(day)
    ensures Homed(Merged(s, day))
  {
    var n, target, source := Merged(s, day), s.archives[day], s.active.value;
    forall f, l | f in n.files && n.Named(f) && l in n.files[f]
      ensures l.id in n.home && n.home[l.id] == f
    {
      assert s.Named(f) && s.Named(source);
      assert f == target ==> l in s.files[f] || l in s.files[source];
    }
  }

  lemma StillNamed(s: Logs, gone: set<int>, f: nat)
    requires WellNamed(s) && WithoutArchives(s, gone).Named(f)
    ensures s.Named(f) && f !in FilesOf(s, gone)
  {
    if s.active != Some(f) {
      var d :| d in WithoutArchives(s, gone).archives && WithoutArchives(s, gone).archives[d] == f;
      assert d in s.archives && s.archives[d] == f;
    }
  }

  lemma StaysHomed(s: Logs, gone: set<int>, f: nat, l: Line)
    requires Inv(s) && f in s.files && WithoutArchives(s, gone).Named(f) && l in s.files[f]
    ensures var n := WithoutArchives(s, gone);
            l.id in n.home && (n.home[l.id] == f || (n.active == Some(n.home[l.id]) && IsArchiveToBe(n, f)))
  {
    StillNamed(s, gone, f);
    var day := FirstDay(s);
    if s.home[l.id] != f {
      assert day.value !in gone;
      assert s.active.value !in FilesOf(s, gone);
      assert FirstDay(WithoutArchives(s, gone)) == day;
    }
  }

  lemma PruneKeepsHomed(s: Logs, gone: set<int>)
    requires Inv(s)
    ensures Homed(WithoutArchives(s, gone))
  {
    var n := WithoutArchives(s, gone);
    forall f, l | f in n.files && n.Named(f) && l in n.files[f]
      ensures l.id in n.home && (n.home[l.id] == f || (n.active == Some(n.home[l.id]) && IsArchiveToBe(n, f)))
    {
      StaysHomed(s, gone, f, l);
    }
  }

  lemma WriteKeepsHomed(s: Logs, line: Line)
    requires Inv(s) && s.active.Some? && line.at.Some? && line.id !in s.home
    requires !FirstUnreadable(s)
    ensures Homed(Written(s, line))
  {
    var n, active := Written(s, line), s.active.value;
    forall f, l | f in n.files && n.Named(f) && l in n.files[f]
      ensures l.id in n.home && (n.home[l.id] == f || (n.active == Some(n.home[l.id]) && IsArchiveToBe(n, f)))
    {
      assert s.Named(f);
      assert l == line || l in s.files[f];
      if l != line && s.home[l.id] != f {
        assert HasLine(s, s.home[l.id], l.id);
        assert s.ActiveLines() != [] && FirstDay(n) == FirstDay(s);
      }
    }
  }

  lemma RenameKeepsInv(s: Logs, day: int)
    requires Inv(s) && s.active.Some? && day !in s.archives && FirstDay(s) == Some(day)
    ensures Inv(Renamed(s, day))
  {
    RenameKeepsHomed(s, day);
    var n := Renamed(s, day);
    assert n.archives[day] == s.active.value;
    assert forall f :: n.Named(f) <==> s.Named(f) by {
      forall f | s.Named(f)
        ensures n.Named(f)
      {
        if s.Archived(f) {
          var d :| d in s.archives && s.archives[d] == f;
          assert n.archives[d] == f;
        }
      }
    }
  }

  lemma PartMergeKeepsInv(s: Logs, day: int, copied: nat)
    requires Inv(s) && s.active.Some? && day in s.archives && copied <= |s.ActiveLines()| && FirstDay(s) == Some(day)
    ensures Inv(PartMerged(s, day, copied))
  {
    PartMergeKeepsHomed(s, day, copied);
    var n := PartMerged(s, day, copied);
    forall id | id in n.home
      ensures HasLine(n, n.home[id], id)
    {
      assert HasLine(s, s.home[id], id);
    }
  }

  lemma MergeKeepsInv(s: Logs, day: int)
    requires Inv(s) && s.active.Some? && day in s.archives && FirstDay(s) == Some(day)
    ensures Inv(Merged(s, day)) && Merged(s, day).home.Keys == s.home.Keys
  {
    MergeKeepsHomed(s, day);
    var n, target, source := Merged(s, day), s.archives[day], s.active.value;
    forall id | id in n.home
      ensures n.Named(n.home[id]) && HasLine(n, n.home[id], id)
    {
      assert s.Named(s.home[id]) && HasLine(s, s.home[id], id);
      var l :| l in s.files[s.home[id]] && l.id == id;
      assert l in n.files[n.home[id]];
    }
    if !s.torn {
      forall f | f in n.files && n.Named(f)
        ensures NoRepeats(n.files[f]) && forall l :: l in n.files[f] ==> l.id in n.home && n.home[l.id] == f
      {
        assert s.Named(f) && s.Named(source);
        if f == target {
          MergeRepeats(s, target, source);
        }
      }
    }
  }

  lemma MergeRepeats(s: Logs, target: nat, source: nat)
    requires NoneTwice(s) && target != source && target in s.files && source in s.files
    requires s.Named(target) && s.Named(source)
    ensures NoRepeats(s.files[target] + s.files[source])
  {
    var a, b := s.files[target], s.files[source];
    var all: seq<Line> := a + b;
    forall i, j | 0 <= i < j < |all|
      ensures all[i].id != all[j].id
    {
      if i < |a| <= j {
        assert a[i] in a && b[j - |a|] in b;
      }
    }
  }

  lemma PruneKeepsInv(s: Logs, gone: set<int>)
    requires Inv(s)
    ensures Inv(WithoutArchives(s, gone))
    ensures forall id :: id in s.home && id !in WithoutArchives(s, gone).home ==>
              exists d :: d in gone && d in s.archives && s.archives[d] == s.home[id]
  {
    PruneKeepsHomed(s, gone);
    var n := WithoutArchives(s, gone);
    forall id | id in n.home
      ensures n.Named(n.home[id])
    {
      assert s.Named(s.home[id]);
      if s.Archived(s.home[id]) {
        var d :| d in s.archives && s.archives[d] == s.home[id];
        assert d !in gone && n.archives[d] == n.home[id];
      }
    }
    if !s.torn {
      forall f, l | f in n.files && n.Named(f) && l in n.files[f]
        ensures l.id in n.home
      {
        assert s.Named(f);
        assert forall d :: d in gone && d in s.archives ==> s.archives[d] != f;
      }
    }
  }

  lemma ReopenKeepsHomed(s: Logs, inode: nat)
    requires Inv(s) && inode !in s.files
    ensures Homed(Reopened(s, inode))
  {
    var n := Reopened(s, inode);
    forall f, l | f in n.files && n.Named(f) && l in n.files[f]
      ensures l.id in n.home && (n.home[l.id] == f || (n.active == Some(n.home[l.id]) && IsArchiveToBe(n, f)))
    {
      assert f != inode ==> f in s.files && s.Named(f);
    }
  }

  lemma ReopenKeepsInv(s: Logs, inode: nat)
    requires Inv(s) && inode !in s.files
    ensures Inv(Reopened(s, inode))
  {
    ReopenKeepsHomed(s, inode);
    var n := Reopened(s, inode);
    forall id | id in n.home
      ensures n.Named(n.home[id]) && HasLine(n, n.home[id], id)
    {
      assert s.Named(s.home[id]) && HasLine(s, s.home[id], id);
    }
  }

  lemma WriteKeepsInv(s: Logs, line: Line)
    requires Inv(s) && s.active.Some? && line.at.Some? && line.id !in s.home
    requires s.ActiveLines() != [] ==> s.ActiveLines()[0].at.Some?
                                       && DayOf(line.at.value) <= DayOf(s.ActiveLines()[0].at.value)
    ensures Inv(Written(s, line))
  {
    WriteKeepsHomed(s, line);
    var n, f := Written(s, line), s.active.value;
    assert n.files[f][|n.files[f]| - 1] == line;
    forall id | id in n.home
      ensures HasLine(n, n.home[id], id)
    {
      if id != line.id {
        assert HasLine(s, s.home[id], id);
      } else {
        assert line in n.files[f];
      }
    }
    if !s.torn {
      forall g | g in n.files && n.Named(g)
        ensures NoRepeats(n.files[g]) && forall l :: l in n.files[g] ==> l.id in n.home && n.home[l.id] == g
      {
        assert s.Named(g);
        forall i, j | 0 <= i < j < |n.files[g]|
          ensures n.files[g][i].id != n.files[g][j].id
        {
          if g == f && j == |s.files[f]| {
            assert s.files[f][i] in s.files[f];
          }
        }
      }
    }
  }

  // ---------------------------------------------------------------------
  // Any run of writes, each done or cut anywhere
  // ---------------------------------------------------------------------

  /** One write: cut while rotating, cut after the file was opened, or done. */
  ghost predicate Emits(s: Logs, n: Logs, line: Line, inode: nat, keep: nat)
    requires WellNamed(s) && line.at.Some?
  {
    || RotationCut(s, n, DayOf(line.at.value), keep)
    || (!FirstUnreadable(s)
        && exists mid :: Finishes(s, mid, n, line, inode, keep))
  }

  ghost predicate Finishes(s: Logs, mid: Logs, n: Logs, line: Line, inode: nat, keep: nat)
    requires WellNamed(s) && line.at.Some?
  {
    Rotated(s, mid, DayOf(line.at.value), keep) && WellNamed(mid)
    && (n == Reopened(mid, inode) || n == Written(Reopened(mid, inode), line))
  }

  lemma MovedKeepsInv(s: Logs, day: int)
    requires Inv(s) && s.active.Some? && FirstDay(s) == Some(day)
    ensures Inv(Moved(s, day)) && Moved(s, day).home.Keys == s.home.Keys && Moved(s, day).files.Keys == s.files.Keys
  {
    if day in s.archives {
      MergeKeepsInv(s, day);
    } else {
      RenameKeepsInv(s, day);
    }
  }

  lemma PrunedKeepsInv(s: Logs, n: Logs, keep: nat)
    requires Inv(s) && Pruned(s, n, keep)
    ensures Inv(n) && n.files == s.files && n.home.Keys <= s.home.Keys
  {
    var gone :| Oldest(gone, s.archives.Keys) && n == WithoutArchives(s, gone);
    PruneKeepsInv(s, gone);
  }

  lemma MergeCutKeepsInv(s: Logs, n: Logs, day: int)
    requires Inv(s) && s.active.Some? && FirstDay(s) == Some(day) && MergeCut(s, n, day)
    ensures Inv(n) && n.files.Keys == s.files.Keys && n.home == s.home
  {
    var copied: nat :| copied <= |s.ActiveLines()| && n == PartMerged(s, day, copied);
    PartMergeKeepsInv(s, day, copied);
  }

  lemma RotationCutKeepsInv(s: Logs, n: Logs, recordDay: int, keep: nat)
    requires Inv(s) && RotationCut(s, n, recordDay, keep)
    ensures Inv(n) && n.files.Keys == s.files.Keys && n.home.Keys <= s.home.Keys
  {
    if n != s {
      var day := FirstDay(s).value;
      if MergeCut(s, n, day) {
        MergeCutKeepsInv(s, n, day);
      } else {
        MovedKeepsInv(s, day);
        PrunedKeepsInv(Moved(s, day), n, keep);
      }
    }
  }

  lemma RotatedKeepsInv(s: Logs, n: Logs, recordDay: int, keep: nat)
    requires Inv(s) && Rotated(s, n, recordDay, keep)
    ensures Inv(n) && n.files.Keys == s.files.Keys && n.home.Keys <= s.home.Keys
    ensures if Due(s, recordDay) then n.active.None? else n == s
  {
    RotationCutKeepsInv(s, n, recordDay, keep);
    if Due(s, recordDay) {
      MovedIsClosed(s, FirstDay(s).value);
      var gone :| n == WithoutArchives(Moved(s, FirstDay(s).value), gone);
    }
  }

  lemma MovedIsClosed(s: Logs, day: int)
    requires WellNamed(s) && s.active.Some?
    ensures Moved(s, day).active.None?
  {
  }

  lemma OpenedAndWritten(s: Logs, line: Line, inode: nat)
    requires Inv(s) && inode !in s.files && line.at.Some? && line.id !in s.home && !FirstUnreadable(s)
    requires !Due(s, DayOf(line.at.value))
    ensures Inv(Reopened(s, inode)) && Inv(Written(Reopened(s, inode), line))
  {
    ReopenKeepsInv(s, inode);
    WriteKeepsInv(Reopened(s, inode), line);
  }

  lemma FinishesKeepsInv(s: Logs, mid: Logs, n: Logs, line: Line, inode: nat, keep: nat)
    requires Inv(s) && line.at.Some? && line.id !in s.home && inode !in s.files && !FirstUnreadable(s)
    requires Finishes(s, mid, n, line, inode, keep)
    ensures Inv(n)
  {
    RotatedKeepsInv(s, mid, DayOf(line.at.value), keep);
    OpenedAndWritten(mid, line, inode);
  }

  lemma EmitsKeepsInv(s: Logs, n: Logs, line: Line, inode: nat, keep: nat)
    requires Inv(s) && line.at.Some? && line.id !in s.home && inode !in s.files
    requires Emits(s, n, line, inode, keep)
    ensures Inv(n)
  {
    if RotationCut(s, n, DayOf(line.at.value), keep) {
      RotationCutKeepsInv(s, n, DayOf(line.at.value), keep);
    } else {
      var mid :| Finishes(s, mid, n, line, inode, keep);
      FinishesKeepsInv(s, mid, n, line, inode, keep);
    }
  }

  /** No file with a name has the line. */
  ghost predicate Nowhere(s: Logs, id: nat) {
    forall f :: f in s.files && s.Named(f) ==> !HasLine(s, f, id)
  }

  /** A line is gone, and with an archive older than every archive left, `keep` or
      more of which are left. */
  ghost predicate GoneWithTheOldest(s: Logs, n: Logs, id: nat, keep: nat) {
    && id in s.home && HasLine(s, s.home[id], id) && Nowhere(n, id) && 0 < keep <= |n.archives|
    && forall l, e :: l in s.files[s.home[id]] && l.id == id && l.at.Some? && e in n.archives ==> DayOf(l.at.value) < e
  }

  lemma NotHomedIsNowhere(s: Logs, id: nat)
    requires Inv(s) && id !in s.home
    ensures Nowhere(s, id)
  {
  }

  lemma PrunedLines(s: Logs, n: Logs, keep: nat, id: nat)
    requires Inv(s) && Pruned(s, n, keep) && id in s.home && id !in n.home
    ensures GoneWithTheOldest(s, n, id, keep)
  {
    var gone :| Oldest(gone, s.archives.Keys) && n == WithoutArchives(s, gone)
                && (gone != {} ==> keep > 0 && |n.archives| >= keep);
    PruneKeepsInv(s, gone);
    NotHomedIsNowhere(n, id);
    var d :| d in gone && d in s.archives && s.archives[d] == s.home[id];
    assert UpTo(s.files[s.archives[d]], d);
  }

  lemma MovedLines(s: Logs, day: int, id: nat, l: Line)
    requires Inv(s) && s.active.Some? && id in s.home && l in s.files[s.home[id]]
    ensures id in Moved(s, day).home && l in Moved(s, day).files[Moved(s, day).home[id]]
  {
    assert s.Named(s.home[id]);
  }

  lemma RotationLoses(s: Logs, n: Logs, recordDay: int, keep: nat, id: nat)
    requires Inv(s) && RotationCut(s, n, recordDay, keep) && id in s.home && id !in n.home
    ensures GoneWithTheOldest(s, n, id, keep)
  {
    var day := FirstDay(s).value;
    var moved := Moved(s, day);
    MovedKeepsInv(s, day);
    PrunedLines(moved, n, keep, id);
    assert HasLine(s, s.home[id], id);
    forall l, e | l in s.files[s.home[id]] && l.id == id && l.at.Some? && e in n.archives
      ensures DayOf(l.at.value) < e
    {
      MovedLines(s, day, id, l);
    }
  }

  lemma FinishLoses(s: Logs, mid: Logs, n: Logs, line: Line, inode: nat, keep: nat, id: nat)
    requires Inv(s) && line.at.Some? && inode !in s.files && id in s.home && id !in n.home
    requires Finishes(s, mid, n, line, inode, keep)
    ensures GoneWithTheOldest(s, n, id, keep)
  {
    RotatedKeepsInv(s, mid, DayOf(line.at.value), keep);
    WritingKeepsLines(mid, n, line, inode, id);
    RotationLoses(s, mid, DayOf(line.at.value), keep, id);
    GoneAlike(s, mid, n, id, keep);
  }

  /** Nothing a write does loses a line, except pruning the oldest archives. */
  lemma OnlyPruningLoses(s: Logs, n: Logs, line: Line, inode: nat, keep: nat, id: nat)
    requires Inv(s) && line.at.Some? && inode !in s.files && Emits(s, n, line, inode, keep)
    requires id in s.home && id !in n.home
    ensures GoneWithTheOldest(s, n, id, keep)
  {
    if RotationCut(s, n, DayOf(line.at.value), keep) {
      RotationLoses(s, n, DayOf(line.at.value), keep, id);
    } else {
      var mid :| Finishes(s, mid, n, line, inode, keep);
      FinishLoses(s, mid, n, line, inode, keep, id);
    }
  }

  lemma WritingKeepsLines(s: Logs, n: Logs, line: Line, inode: nat, id: nat)
    requires WellNamed(s) && (n == Reopened(s, inode) || n == Written(Reopened(s, inode), line))
    requires inode !in s.files
    ensures s.home.Keys <= n.home.Keys && n.archives == s.archives
    ensures id !in n.home && Nowhere(s, id) ==> Nowhere(n, id)
  {
    forall f | id !in n.home && Nowhere(s, id) && f in n.files && n.Named(f)
      ensures !HasLine(n, f, id)
    {
      assert f != inode ==> f in s.files && s.Named(f) && !HasLine(s, f, id);
    }
  }

  lemma GoneAlike(s: Logs, mid: Logs, n: Logs, id: nat, keep: nat)
    requires GoneWithTheOldest(s, mid, id, keep) && n.archives == mid.archives && Nowhere(n, id)
    ensures GoneWithTheOldest(s, n, id, keep)
  {
  }

  datatype Emission = Emission(line: Line, inode: nat)

  /** Writes one after another, by any writers, each done or cut anywhere. */
  ghost predicate Run(states: seq<Logs>, es: seq<Emission>, keep: nat) {
    && |states| == |es| + 1 && Inv(states[0])
    && forall i: nat :: i < |es| ==> StepAt(states, es, i, keep)
  }

  ghost predicate StepAt(states: seq<Logs>, es: seq<Emission>, i: nat, keep: nat) {
    i < |es| && i + 1 < |states| && IsStep(states[i], states[i + 1], es[i], keep)
  }

  ghost predicate IsStep(s: Logs, n: Logs, e: Emission, keep: nat) {
    && WellNamed(s) && e.line.at.Some? && e.line.id !in s.home && e.inode !in s.files
    && Emits(s, n, e.line, e.inode, keep)
  }

  ghost predicate GoneAt(states: seq<Logs>, k: nat, id: nat, keep: nat) {
    k + 1 < |states| && GoneWithTheOldest(states[k], states[k + 1], id, keep)
  }

  lemma StepKeepsLines(s: Logs, n: Logs, e: Emission, keep: nat, id: nat)
    requires Inv(s) && IsStep(s, n, e, keep)
    ensures Inv(n)
    ensures id in s.home && id !in n.home ==> GoneWithTheOldest(s, n, id, keep)
  {
    EmitsKeepsInv(s, n, e.line, e.inode, keep);
    if id in s.home && id !in n.home {
      OnlyPruningLoses(s, n, e.line, e.inode, keep, id);
    }
  }

  lemma RunStep(states: seq<Logs>, es: seq<Emission>, keep: nat, k: nat, id: nat)
    requires Run(states, es, keep) && k < |es| && Inv(states[k])
    ensures Inv(states[k + 1])
    ensures id in states[k].home && id !in states[k + 1].home ==> GoneAt(states, k, id, keep)
  {
    assert StepAt(states, es, k, keep);
    StepKeepsLines(states[k], states[k + 1], es[k], keep, id);
  }

  lemma {:induction false} RunKeepsInv(states: seq<Logs>, es: seq<Emission>, keep: nat, j: nat)
    requires Run(states, es, keep) && j < |states|
    ensures Inv(states[j])
    decreases j
  {
    if j > 0 {
      RunKeepsInv(states, es, keep, j - 1);
      RunStep(states, es, keep, j - 1, 0);
    }
  }

  /** Every line stays, under a name (and in one place only, unless a merge was
      cut), until the archive it is in is pruned as the oldest. */
  lemma {:induction false} EveryLineStaysUntilPruned(states: seq<Logs>, es: seq<Emission>, keep: nat, i: nat,
                                                     j: nat, id: nat)
    requires Run(states, es, keep) && i <= j < |states| && id in states[i].home
    requires forall k: nat | i <= k < j :: !GoneAt(states, k, id, keep)
    ensures Inv(states[j]) && id in states[j].home
    decreases j - i
  {
    RunKeepsInv(states, es, keep, i);
    if i < j {
      RunStep(states, es, keep, i, id);
      EveryLineStaysUntilPruned(states, es, keep, i + 1, j, id);
    }
  }

  lemma PrunedArchives(s: Logs, n: Logs, keep: nat)
    requires Pruned(s, n, keep)
    ensures n.archives.Keys <= s.archives.Keys && n.active == s.active
  {
  }

  /** Only a rotation that is due changes anything, and it makes one archive at most. */
  lemma RotationArchives(s: Logs, n: Logs, recordDay: int, keep: nat)
    requires Inv(s) && RotationCut(s, n, recordDay, keep)
    ensures !Due(s, recordDay) ==> n == s
    ensures Due(s, recordDay) ==> n.archives.Keys <= s.archives.Keys + {FirstDay(s).value}
  {
    if Due(s, recordDay) && n != s && !MergeCut(s, n, FirstDay(s).value) {
      PrunedArchives(Moved(s, FirstDay(s).value), n, keep);
    }
  }

  lemma FinishedArchives(s: Logs, n: Logs, e: Emission, keep: nat) returns (mid: Logs)
    requires Inv(s) && IsStep(s, n, e, keep) && !RotationCut(s, n, DayOf(e.line.at.value), keep)
    ensures Inv(mid) && (if Due(s, DayOf(e.line.at.value)) then mid.active.None? else mid == s)
    ensures mid.files.Keys == s.files.Keys && n.archives == mid.archives && !FirstUnreadable(s)
    ensures n == Reopened(mid, e.inode) || n == Written(Reopened(mid, e.inode), e.line)
    ensures RotationCut(s, mid, DayOf(e.line.at.value), keep) && mid.home.Keys <= s.home.Keys
  {
    mid :| Finishes(s, mid, n, e.line, e.inode, keep);
    RotatedKeepsInv(s, mid, DayOf(e.line.at.value), keep);
  }

  /** A write rotates exactly when its line is of a later day than the first active
      entry: once written, the active file starts with an entry of its day or later. */
  lemma WrittenOverNothingOlder(s: Logs, n: Logs, e: Emission, keep: nat)
    requires Inv(s) && IsStep(s, n, e, keep) && e.line.id in n.home
    ensures n.active.Some? && n.active.value in n.files && n.ActiveLines() != []
    ensures n.ActiveLines()[0].at.Some? && DayOf(e.line.at.value) <= DayOf(n.ActiveLines()[0].at.value)
  {
    if RotationCut(s, n, DayOf(e.line.at.value), keep) {
      RotationCutKeepsInv(s, n, DayOf(e.line.at.value), keep);
    } else {
      var mid := FinishedArchives(s, n, e, keep);
    }
  }

  /** And while it is not, no archive changes and the active file only grows. */
  lemma SameDayStays(s: Logs, n: Logs, e: Emission, keep: nat)
    requires Inv(s) && IsStep(s, n, e, keep) && s.active.Some? && s.ActiveLines() != []
    requires s.ActiveLines()[0].at.Some? ==> DayOf(e.line.at.value) <= DayOf(s.ActiveLines()[0].at.value)
    ensures n.archives == s.archives && n.active == s.active
    ensures n.active.value in n.files && s.ActiveLines() <= n.ActiveLines()
    ensures forall f :: f in s.files && s.active != Some(f) ==> f in n.files && n.files[f] == s.files[f]
  {
    if RotationCut(s, n, DayOf(e.line.at.value), keep) {
      RotationArchives(s, n, DayOf(e.line.at.value), keep);
    } else {
      var mid := FinishedArchives(s, n, e, keep);
    }
  }

  lemma ANewArchiveIsOlder(s: Logs, n: Logs, e: Emission, keep: nat, d: int)
    requires Inv(s) && IsStep(s, n, e, keep) && d in n.archives && d !in s.archives
    ensures d < DayOf(e.line.at.value)
  {
    var mid := n;
    if !RotationCut(s, n, DayOf(e.line.at.value), keep) {
      mid := FinishedArchives(s, n, e, keep);
    }
    RotationArchives(s, mid, DayOf(e.line.at.value), keep);
  }

  /** Every archive a run makes is of an earlier day than some line it wrote. */
  lemma {:induction false} ArchivesAreOfEarlierDays(states: seq<Logs>, es: seq<Emission>, keep: nat, j: nat, d: int)
    requires Run(states, es, keep) && j < |states| && d in states[j].archives && d !in states[0].archives
    ensures exists i :: 0 <= i < j && es[i].line.at.Some? && d < DayOf(es[i].line.at.value)
    decreases j
  {
    RunKeepsInv(states, es, keep, j - 1);
    assert StepAt(states, es, j - 1, keep);
    if d in states[j - 1].archives {
      ArchivesAreOfEarlierDays(states, es, keep, j - 1, d);
    } else {
      ANewArchiveIsOlder(states[j - 1], states[j], es[j - 1], keep, d);
    }
  }

  // ---------------------------------------------------------------------
  // What a reader finds
  // ---------------------------------------------------------------------

  /** Every line not pruned is in exactly one place of one file that has a name,
      and nowhere else; but after a cut merge also in the archive its file is still
      to join. */
  lemma EachLineIsInOnePlace(s: Logs, id: nat, f: nat, i: nat, g: nat, j: nat)
    requires Inv(s)
    requires f in s.files && g in s.files && s.Named(f) && s.Named(g)
    requires i < |s.files[f]| && j < |s.files[g]| && s.files[f][i].id == id == s.files[g][j].id
    ensures id in s.home
    ensures f != g ==> s.torn && s.active.Some? && {f, g} == {s.active.value, s.archives[FirstDay(s).value]}
    ensures !s.torn ==> f == g == s.home[id] && i == j
  {
    assert s.files[f][i] in s.files[f] && s.files[g][j] in s.files[g];
  }

  /** log_files(since) reads the file of every line stamped at or after `since`:
      the active file, which it always reads, or an archive it does not skip. */
  lemma LogFilesFindsEveryLine(s: Logs, since: Option<int>, id: nat)
    requires Inv(s) && id in s.home
    ensures HasLine(s, s.home[id], id)
    ensures forall l ::
              l in s.files[s.home[id]] && l.id == id && (since.None? || (l.at.Some? && l.at.value >= since.value)) ==>
              s.active == Some(s.home[id])
              || exists d :: d in DaysSince(s.archives.Keys, since) && d in s.archives && s.archives[d] == s.home[id]
  {
    assert s.Named(s.home[id]) && HasLine(s, s.home[id], id);
    if s.active != Some(s.home[id]) {
      var d :| d in s.archives && s.archives[d] == s.home[id];
      forall l | l in s.files[s.home[id]] && l.id == id && (since.None? || (l.at.Some? && l.at.value >= since.value))
        ensures d in DaysSince(s.archives.Keys, since)
      {
        assert UpTo(s.files[s.archives[d]], d);
      }
    }
  }

  // ---------------------------------------------------------------------
  // The handlers
  // ---------------------------------------------------------------------

  lemma SomeDay(days: set<int>)
    requires days != {}
    ensures exists d :: d in days
  {
    assert (forall d :: d !in days) ==> days == {};
  }

  method OldestDay(days: set<int>) returns (oldest: int)
    requires days != {}
    ensures oldest in days && forall d :: d in days ==> oldest <= d
  {
    SomeDay(days);
    oldest :| oldest in days;
    var left := days - {oldest};
    while left != {}
      invariant left <= days && oldest in days && forall d :: d in days ==> d in left || oldest <= d
      decreases left
    {
      SomeDay(left);
      var d :| d in left;
      if d < oldest {
        oldest := d;
      }
      left := left - {d};
    }
  }

  lemma WithoutNone(s: Logs)
    ensures WithoutArchives(s, {}) == s
  {
  }

  lemma WithoutMore(s: Logs, gone: set<int>, day: int)
    requires Oldest(gone, s.archives.Keys) && day in s.archives && day !in gone
    requires Oldest({day}, WithoutArchives(s, gone).archives.Keys)
    ensures WithoutArchives(WithoutArchives(s, gone), {day}) == WithoutArchives(s, gone + {day})
    ensures Oldest(gone + {day}, s.archives.Keys)
  {
    var n := WithoutArchives(s, gone);
    var first, second, both := FilesOf(s, gone), FilesOf(n, {day}), FilesOf(s, gone + {day});
    assert n.archives[day] == s.archives[day];
    assert both == first + second by {
      assert s.archives[day] in both && s.archives[day] in second;
    }
    assert n.archives - {day} == s.archives - (gone + {day});
  }

  class LogDir {
    var files: map<nat, seq<Line>>
    var active: Option<nat>
    var archives: map<int, nat>
    var streams: map<nat, nat>       // writer -> the inode its stream has open
    const keep: nat
    ghost var home: map<nat, nat>
    ghost var torn: bool

    /** A directory with no log yet. */
    constructor (keep: nat)
      ensures Inv(Now()) && this.keep == keep
      ensures files == map[] && active == None && archives == map[] && streams == map[] && home == map[] && !torn
    {
      this.keep := keep;
      files, active, archives, streams, home, torn := map[], None, map[], map[], map[], false;
    }

    ghost function Now(): Logs
      reads this
    {
      Logs(files, active, archives, home, torn)
    }

    /** The active file becomes its day's archive, or is merged into the one that
        is already there. */
    method MoveAside(day: int) returns (o: Outcome)
      requires Inv(Now()) && active.Some? && FirstDay(Now()) == Some(day)
      modifies this`files, this`active, this`archives, this`home, this`torn
      ensures Inv(Now()) && !o.Refused?
      ensures o.Done? ==> Now() == Moved(old(Now()), day)
      ensures o.Stopped? ==> Now() == old(Now()) || MergeCut(old(Now()), Now(), day)
    {
      ghost var was := Now();
      :- Survives();
      if day !in archives {
        RenameKeepsInv(was, day);
        archives, active := archives[day := active.value], None;
        return Done;
      }
      var target, lines := archives[day], files[active.value];
      if * {
        var copied: nat :| copied <= |lines|;
        PartMergeKeepsInv(was, day, copied);
        files, torn := files[target := files[target] + lines[..copied]], true;
        assert Now() == PartMerged(was, day, copied);
        return Stopped;
      }
      MergeKeepsInv(was, day);
      files, active := files[target := files[target] + lines], None;
      home := Merged(was, day).home;
      assert Now() == Merged(was, day);
      o := Done;
    }

    method PruneOldest() returns (o: Outcome, ghost oldest: int)
      requires Inv(Now()) && archives != map[]
      modifies this`archives, this`home
      ensures Inv(Now()) && !o.Refused?
      ensures o.Done? ==> oldest in old(archives) && Oldest({oldest}, old(archives).Keys)
                          && Now() == WithoutArchives(old(Now()), {oldest}) && |archives| == |old(archives)| - 1
      ensures o.Stopped? ==> Now() == old(Now())
    {
      oldest := 0;
      o := Survives();
      if !o.Done? {
        return;
      }
      assert archives.Keys != {};
      var first := OldestDay(archives.Keys);
      PruneKeepsInv(Now(), {first});
      ghost var next := WithoutArchives(Now(), {first});
      assert (archives - {first}).Keys == archives.Keys - {first};
      archives, home, oldest := archives - {first}, next.home, first;
    }

    /** log_rotation._archive: move aside, then prune all but the newest `keep`
        archives (none when `keep` is 0). */
    method Archive(day: int) returns (o: Outcome)
      requires Inv(Now()) && active.Some? && FirstDay(Now()) == Some(day)
      modifies this`files, this`active, this`archives, this`home, this`torn
      ensures Inv(Now()) && !o.Refused?
      ensures o.Done? ==> Pruned(Moved(old(Now()), day), Now(), keep) && (keep > 0 ==> |archives| <= keep)
      ensures o.Stopped? ==> Now() == old(Now()) || MergeCut(old(Now()), Now(), day)
                             || Pruned(Moved(old(Now()), day), Now(), keep)
    {
      ghost var moved := Moved(Now(), day);
      o := MoveAside(day);
      if !o.Done? {
        return;
      }
      ghost var gone: set<int> := {};
      WithoutNone(moved);
      while keep > 0 && |archives| > keep
        invariant Inv(Now()) && Now() == WithoutArchives(moved, gone) && Oldest(gone, moved.archives.Keys)
        invariant gone != {} ==> |archives| >= keep > 0
        decreases |archives|
      {
        ghost var oldest: int;
        o, oldest := PruneOldest();
        if !o.Done? {
          return;
        }
        WithoutMore(moved, gone, oldest);
        gone := gone + {oldest};
      }
      o := Done;
    }

    /** SharedLogFileHandler._rotate_if_due; Refused when the active file's first
        line has no day. */
    method RotateIfDue(recordDay: int) returns (o: Outcome)
      requires Inv(Now())
      modifies this`files, this`active, this`archives, this`home, this`torn
      ensures Inv(Now())
      ensures o.Refused? <==> FirstUnreadable(old(Now()))
      ensures o.Refused? ==> Now() == old(Now())
      ensures o.Done? ==> Rotated(old(Now()), Now(), recordDay, keep)
      ensures o.Stopped? ==> RotationCut(old(Now()), Now(), recordDay, keep)
    {
      if active.None? || files[active.value] == [] {
        return Done;
      }
      var first := files[active.value][0];
      if first.at.None? {
        return Refused;
      }
      if DayOf(first.at.value) < recordDay {
        o := Archive(DayOf(first.at.value));
      } else {
        o := Done;
      }
    }

    /** SharedLogFileHandler.emit, under the rotation lock: rotate if due, reopen
        the active file if the writer's stream has another one open, append. */
    method Emit(writer: nat, line: Line, inode: nat) returns (o: Outcome)
      requires Inv(Now()) && inode !in files
      requires line.at.Some? && line.id !in home
      modifies this
      ensures Inv(Now()) && Emits(old(Now()), Now(), line, inode, keep)
      ensures o.Refused? <==> FirstUnreadable(old(Now()))
      ensures o.Refused? ==> Now() == old(Now())
      ensures o.Done? ==> Lookup(streams, writer) == active
                          && exists mid :: Finishes(old(Now()), mid, Now(), line, inode, keep)
                                           && Now() == Written(Reopened(mid, inode), line)
    {
      ghost var was := Now();
      var day := DayOf(line.at.value);
      o := RotateIfDue(day);
      if !o.Done? {
        return;
      }
      ghost var mid := Now();
      RotatedKeepsInv(was, mid, day, keep);
      Open(writer, inode);
      assert Finishes(was, mid, Now(), line, inode, keep);
      o := Survives();
      if o.Done? {
        Append(writer, line);
        assert Finishes(was, mid, Now(), line, inode, keep);
      }
    }

    /** WatchedFileHandler: a stream whose file is no longer the active one is
        reopened, creating the active file when there is none. */
    method Open(writer: nat, inode: nat)
      requires Inv(Now()) && inode !in files
      modifies this`streams, this`files, this`active
      ensures Inv(Now()) && Now() == Reopened(old(Now()), inode)
      ensures active.Some? && Lookup(streams, writer) == active
    {
      ReopenKeepsInv(Now(), inode);
      if Lookup(streams, writer) != active || active.None? {
        if active.None? {
          active, files := Some(inode), files[inode := []];
        }
        streams := streams[writer := active.value];
      }
    }

    method Append(writer: nat, line: Line)
      requires Inv(Now()) && active.Some? && Lookup(streams, writer) == active
      requires line.at.Some? && line.id !in home
      requires files[active.value] != [] ==> files[active.value][0].at.Some?
                                             && DayOf(line.at.value) <= DayOf(files[active.value][0].at.value)
      modifies this`files, this`home
      ensures Inv(Now()) && Now() == Written(old(Now()), line)
    {
      WriteKeepsInv(Now(), line);
      ghost var next := Written(Now(), line);
      var stream := streams[writer];
      files := files[stream := files[stream] + [line]];
      home := next.home;
    }

    /** log_rotation.log_files, as inodes: the archives it does not skip, oldest
        first, then the active file. It finds every line stamped at or after
        `since` that was not pruned. */
    method LogFiles(since: Option<int>) returns (found: seq<nat>, days: seq<int>)
      requires Inv(Now())
      ensures forall d :: d in days <==> d in DaysSince(archives.Keys, since)
      ensures forall d :: d in days <==>
                d in archives && (since.None? || since.value < (d + 2) * SECONDS_A_DAY)
      ensures forall i, j :: 0 <= i < j < |days| ==> days[i] < days[j]
      ensures FilesInOrder(found, days, archives, active)
      ensures forall id, l :: Sought(Now(), since, id, l) ==> home[id] in found
    {
      days := SortDays(set d | d in archives && (since.None? || d >= DayOf(since.value) - 1));
      found := [];
      for i := 0 to |days|
        invariant |found| == i && forall k :: 0 <= k < i ==> days[k] in archives && found[k] == archives[days[k]]
      {
        assert days[i] in days;
        found := found + [archives[days[i]]];
      }
      if active.Some? {
        found := found + [active.value];
      }
      FoundInOrder(Now(), since, found, days);
    }
  }

  /** The line of this id that a reader asks for. */
  ghost predicate Sought(s: Logs, since: Option<int>, id: nat, l: Line) {
    && id in s.home && s.home[id] in s.files && l in s.files[s.home[id]] && l.id == id
    && (since.None? || (l.at.Some? && l.at.value >= since.value))
  }

  lemma FoundInOrder(s: Logs, since: Option<int>, found: seq<nat>, days: seq<int>)
    requires Inv(s) && FilesInOrder(found, days, s.archives, s.active)
    requires forall d :: d in days <==> d in DaysSince(s.archives.Keys, since)
    ensures forall id, l :: Sought(s, since, id, l) ==> s.home[id] in found
  {
    forall id, l | Sought(s, since, id, l)
      ensures s.home[id] in found
    {
      LogFilesFindsEveryLine(s, since, id);
      if s.active != Some(s.home[id]) {
        var d :| d in DaysSince(s.archives.Keys, since) && d in s.archives && s.archives[d] == s.home[id];
        var i :| 0 <= i < |days| && days[i] == d;
        assert found[i] == s.home[id];
      } else {
        assert found[|days|] == s.home[id];
      }
    }
  }

  method SortDays(days: set<int>) returns (sorted: seq<int>)
    ensures forall d :: d in sorted <==> d in days
    ensures forall i, j :: 0 <= i < j < |sorted| ==> sorted[i] < sorted[j]
  {
    sorted := [];
    var left := days;
    while left != {}
      invariant left <= days && forall d :: d in sorted <==> d in days - left
      invariant forall d, e :: d in sorted && e in left ==> d < e
      invariant forall i, j :: 0 <= i < j < |sorted| ==> sorted[i] < sorted[j]
      decreases left
    {
      var oldest := OldestDay(left);
      assert forall i :: 0 <= i < |sorted| ==> sorted[i] in sorted;
      sorted, left := sorted + [oldest], left - {oldest};
    }
  }

  predicate FilesInOrder(found: seq<nat>, days: seq<int>, archives: map<int, nat>, active: Option<nat>) {
    && |found| == |days| + (if active.Some? then 1 else 0)
    && (forall i :: 0 <= i < |days| ==> days[i] in archives && found[i] == archives[days[i]])
    && (active.Some? ==> found[|days|] == active.value)
  }
}
