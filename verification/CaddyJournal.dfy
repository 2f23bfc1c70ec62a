/** Undoing site files that Caddy never loaded: what each held when it was first
    rewritten is journaled until a reload succeeds (src/boxmunge/caddy_journal.py). */
module CaddyJournal {
  import opened Options

  /** What write_site records, or an entry it did not write. */
  datatype Entry = Entry(previous: Option<string>, written: string) | NotOurs

  datatype Caddy = Caddy(sites: map<string, string>, journal: map<string, Entry>)

  const MAX_SITE_BYTES := 1024 * 1024

  /** The length in UTF-8. */
  function Utf8Length(s: string): nat {
    if s == "" then 0
    else
      var n := s[0] as int;
      Utf8Length(s[1..]) + if n < 0x80 then 1 else if n < 0x800 then 2 else if n < 0x1_0000 then 3 else 4
  }

  predicate LowerOrDigit(c: char) {
    'a' <= c <= 'z' || '0' <= c <= '9'
  }

  predicate SiteName(name: string) {
    |name| > 5 && name[|name| - 5..] == ".conf" && LowerOrDigit(name[0])
    && forall i :: 0 <= i < |name| - 5 ==> LowerOrDigit(name[i]) || name[i] == '-'
  }

  lemma SiteNameExactlyWhen(stem: string)
    ensures SiteName(stem + ".conf")
            <==> && stem != "" && stem[0] != '-'
                 && forall c :: c in stem ==> 'a' <= c <= 'z' || '0' <= c <= '9' || c == '-'
  {
    var name := stem + ".conf";
    assert |name| - 5 == |stem| && name[|stem|..] == ".conf";
    assert forall i :: 0 <= i < |stem| ==> name[i] == stem[i] && name[i] in stem;
  }

  // ---------------------------------------------------------------------
  // The operations, on values
  // ---------------------------------------------------------------------

  function Put(sites: map<string, string>, site: string, content: Option<string>): map<string, string> {
    if content.Some? then sites[site := content.value] else sites - {site}
  }

  /** The entry write_site writes before the site file. */
  function Journaled(c: Caddy, site: string, content: string): Caddy {
    var previous :=
      if site in c.journal && c.journal[site].Entry? then c.journal[site].previous else Lookup(c.sites, site);
    c.(journal := c.journal[site := Entry(previous, content)])
  }

  function WrittenSite(c: Caddy, site: string, content: string): Caddy {
    Journaled(c, site, content).(sites := c.sites[site := content])
  }

  function RemovedSite(c: Caddy, site: string): Caddy {
    Caddy(c.sites - {site}, c.journal - {site})
  }

  /** What a restore leaves at a site. */
  function Target(c: Caddy, site: string): Option<string> {
    var now := Lookup(c.sites, site);
    if site in c.journal && c.journal[site].Entry? && now == Some(c.journal[site].written)
    then c.journal[site].previous else now
  }

  /** One entry of a restore: the site file first, then, unless it was cut in
      between, the entry. */
  function RestoredOne(c: Caddy, site: string, cut: bool): Caddy {
    if site !in c.journal || c.journal[site].NotOurs? then c
    else Caddy(Put(c.sites, site, Target(c, site)), if cut then c.journal else c.journal - {site})
  }

  // ---------------------------------------------------------------------
  // What a history says the accepted config is
  // ---------------------------------------------------------------------

  datatype Event =
    | Write(site: string, content: string)
    | Remove(site: string)
    | Outside(site: string, now: Option<string>)  // another operation's rewrite
    | Commit
    | CutCommit(dropped: set<string>)  // a commit cut after it dropped these entries

  function After(c: Caddy, e: Event): Caddy {
    match e
    case Write(site, content) => WrittenSite(c, site, content)
    case Remove(site) => RemovedSite(c, site)
    case Outside(site, now) => c.(sites := Put(c.sites, site, now))
    case Commit => c.(journal := map[])
    case CutCommit(dropped) => c.(journal := c.journal - dropped)
  }

  function AfterAll(c: Caddy, h: seq<Event>): Caddy {
    if h == [] then c else After(AfterAll(c, h[..|h| - 1]), h[|h| - 1])
  }

  /** The site's content after the history, read off its last write. */
  function Content(start: Option<string>, h: seq<Event>, site: string): Option<string> {
    if h == [] then start
    else match h[|h| - 1]
      case Write(s, content) => if s == site then Some(content) else Content(start, h[..|h| - 1], site)
      case Remove(s) => if s == site then None else Content(start, h[..|h| - 1], site)
      case Outside(s, now) => if s == site then now else Content(start, h[..|h| - 1], site)
      case _ => Content(start, h[..|h| - 1], site)
  }

  /** Its content when the first write came since its entry was last dropped, by a
      commit or a removal. */
  function Accepted(start: Option<string>, h: seq<Event>, site: string): Option<Option<string>> {
    if h == [] then None
    else
      var before := h[..|h| - 1];
      match h[|h| - 1]
      case Write(s, _) =>
        if s == site && Accepted(start, before, site).None? then Some(Content(start, before, site))
        else Accepted(start, before, site)
      case Remove(s) => if s == site then None else Accepted(start, before, site)
      case Outside(_, _) => Accepted(start, before, site)
      case Commit => None
      case CutCommit(dropped) => if site in dropped then None else Accepted(start, before, site)
  }

  /** The last content boxmunge wrote there. */
  function LastWritten(h: seq<Event>, site: string): Option<string> {
    if h == [] then None
    else if h[|h| - 1].Write? && h[|h| - 1].site == site then Some(h[|h| - 1].content)
    else LastWritten(h[..|h| - 1], site)
  }

  /** Another operation rewrote the site after boxmunge last wrote it. */
  predicate OutsideLast(h: seq<Event>, site: string) {
    h != [] && match h[|h| - 1]
      case Write(s, _) => s != site && OutsideLast(h[..|h| - 1], site)
      case Outside(s, _) => s == site || OutsideLast(h[..|h| - 1], site)
      case _ => OutsideLast(h[..|h| - 1], site)
  }

  /** No other operation happens to write exactly what boxmunge had just written. */
  predicate OutsideDiffers(h: seq<Event>, site: string) {
    h == [] || (OutsideDiffers(h[..|h| - 1], site)
                && (h[|h| - 1].Outside? && h[|h| - 1].site == site ==>
                    h[|h| - 1].now != LastWritten(h[..|h| - 1], site)))
  }

  lemma {:induction false} JournalFollowsHistory(c: Caddy, h: seq<Event>, site: string)
    requires c.journal == map[]
    ensures var n, start := AfterAll(c, h), Lookup(c.sites, site);
            && Lookup(n.sites, site) == Content(start, h, site)
            && (site in n.journal <==> Accepted(start, h, site).Some?)
            && (site in n.journal ==> LastWritten(h, site).Some?)
            && (site in n.journal ==>
                  n.journal[site] == Entry(Accepted(start, h, site).value, LastWritten(h, site).value))
            && (OutsideDiffers(h, site) && site in n.journal ==>
                  (OutsideLast(h, site) <==> Content(start, h, site) != LastWritten(h, site)))
    decreases |h|
  {
    if h != [] {
      JournalFollowsHistory(c, h[..|h| - 1], site);
    }
  }

  /** Over any history from an accepted config, what a restore leaves at a site is
      its content when the first write came since its entry was last dropped, by a
      commit, however cut, or a removal; or what it holds now, when nothing was
      written since, or when another operation wrote it last (a removed site stays
      removed). */
  lemma RestoreGivesBackTheAcceptedConfig(c: Caddy, h: seq<Event>, site: string)
    requires c.journal == map[] && OutsideDiffers(h, site)
    ensures var start := Lookup(c.sites, site);
            Target(AfterAll(c, h), site)
            == if Accepted(start, h, site).Some? && !OutsideLast(h, site)
               then Accepted(start, h, site).value else Content(start, h, site)
  {
    JournalFollowsHistory(c, h, site);
  }

  /** A rewrite that repeats what boxmunge wrote cannot be told apart from it: the
      restore undoes it. */
  lemma ARepeatedRewriteIsUndone(c: Caddy, h: seq<Event>, site: string)
    requires c.journal == map[] && Accepted(Lookup(c.sites, site), h, site).Some?
    ensures Target(AfterAll(c, h), site) != Content(Lookup(c.sites, site), h, site) ==>
              Content(Lookup(c.sites, site), h, site) == LastWritten(h, site)
    ensures Content(Lookup(c.sites, site), h, site) == LastWritten(h, site) ==>
              Target(AfterAll(c, h), site) == Accepted(Lookup(c.sites, site), h, site).value
  {
    JournalFollowsHistory(c, h, site);
  }

  // ---------------------------------------------------------------------
  // Interruptions
  // ---------------------------------------------------------------------

  /** A commit cut part-way keeps entries of sites Caddy has accepted. A later
      restore leaves such a site as it was accepted if and only if its entry was
      dropped, is not boxmunge's, records that very content as the one to put back,
      or another operation has rewritten the site. */
  lemma ACutCommitIsHarmlessExactlyWhen(c: Caddy, dropped: set<string>, site: string)
    ensures var now := Lookup(c.sites, site);
            Target(After(c, CutCommit(dropped)), site) == now
            <==> || site !in c.journal || site in dropped || c.journal[site].NotOurs?
                 || c.journal[site].previous == now || now != Some(c.journal[site].written)
  {
    assert After(c, CutCommit(dropped)).journal.Keys == c.journal.Keys - dropped;
  }

  /** Otherwise the restore takes the site back to before a config Caddy accepted. */
  lemma ACutCommitCanUndoAnAcceptedSite(start: Caddy, site: string, content: string)
    requires start.journal == map[] && Lookup(start.sites, site) != Some(content)
    ensures var accepted := WrittenSite(start, site, content);
            && Target(After(accepted, CutCommit({})), site) == Lookup(start.sites, site)
            && Target(After(accepted, Commit), site) == Some(content)
  {
    ACutCommitIsHarmlessExactlyWhen(WrittenSite(start, site, content), {}, site);
  }

  /** Any number of restores cut anywhere is some of their steps, in some order. */
  function AfterSteps(c: Caddy, steps: seq<(string, bool)>): Caddy {
    if steps == [] then c
    else RestoredOne(AfterSteps(c, steps[..|steps| - 1]), steps[|steps| - 1].0, steps[|steps| - 1].1)
  }

  /** However often a restore is cut and run again, it leaves at every site what
      one undisturbed restore would have left. */
  lemma {:induction false} InterruptedRestoreAgrees(c: Caddy, steps: seq<(string, bool)>, site: string)
    ensures Target(AfterSteps(c, steps), site) == Target(c, site)
    ensures site !in AfterSteps(c, steps).journal ==> Lookup(AfterSteps(c, steps).sites, site) == Target(c, site)
    decreases |steps|
  {
    if steps != [] {
      InterruptedRestoreAgrees(c, steps[..|steps| - 1], site);
    }
  }

  /** A write_site cut between its entry and its site file is undone by the next
      restore if and only if the site had no entry yet, or still holds its
      accepted content, or holds what both writes wrote, or what neither did. */
  lemma CutWriteIsHarmlessExactlyWhen(c: Caddy, site: string, content: string)
    requires site in c.journal ==> c.journal[site].Entry?
    ensures Target(Journaled(c, site, content), site) == Target(c, site)
            <==> var now := Lookup(c.sites, site);
                 || site !in c.journal
                 || c.journal[site].previous == now
                 || (now == Some(content) <==> now == Some(c.journal[site].written))
  {
  }

  /** Otherwise the restore keeps the first write, which Caddy never accepted. */
  lemma ACutSecondWriteKeepsTheFirst(start: Caddy, site: string, first: string, second: string)
    requires start.journal == map[] && Lookup(start.sites, site) != Some(first) && first != second
    ensures var c := WrittenSite(start, site, first);
            && Target(c, site) == Lookup(start.sites, site)
            && Target(Journaled(c, site, second), site) == Some(first)
  {
  }

  // ---------------------------------------------------------------------
  // The files
  // ---------------------------------------------------------------------

  /** A restore would leave the same at every site. */
  ghost predicate SameTargets(was: Caddy, now: Caddy) {
    forall s :: Target(now, s) == Target(was, s)
  }

  lemma RestoredOneTargets(c: Caddy, site: string, cut: bool)
    ensures SameTargets(c, RestoredOne(c, site, cut))
  {
  }

  function NotOursOf(journal: map<string, Entry>): map<string, Entry> {
    map s | s in journal && journal[s].NotOurs? :: journal[s]
  }

  class CaddyDir {
    var sites: map<string, string>
    var journal: map<string, Entry>

    function Now(): Caddy
      reads this
    {
      Caddy(sites, journal)
    }

    method WriteSite(site: string, content: string) returns (o: Outcome)
      modifies this
      ensures o.Refused? <==> !SiteName(site) || Utf8Length(content) > MAX_SITE_BYTES
                              || (site in old(journal) && old(journal)[site].NotOurs?)
      ensures o.Refused? ==> Now() == old(Now())
      ensures Now() in {old(Now()), Journaled(old(Now()), site, content), WrittenSite(old(Now()), site, content)}
      ensures o.Done? ==> Now() == WrittenSite(old(Now()), site, content)
    {
      if !SiteName(site) || Utf8Length(content) > MAX_SITE_BYTES {
        return Refused;
      }
      var previous: Option<string>;
      if site in journal {
        if journal[site].NotOurs? {
          return Refused;
        }
        previous := journal[site].previous;
      } else {
        previous := Lookup(sites, site);
      }
      :- Survives();
      journal := journal[site := Entry(previous, content)];
      :- Survives();
      sites := sites[site := content];
      o := Survives();
    }

    method RemoveSite(site: string) returns (o: Outcome)
      modifies this
      ensures o.Refused? <==> !SiteName(site)
      ensures Now() in {old(Now()), old(Now()).(sites := old(sites) - {site}), RemovedSite(old(Now()), site)}
      ensures o.Done? ==> Now() == RemovedSite(old(Now()), site)
    {
      if !SiteName(site) {
        return Refused;
      }
      :- Survives();
      sites := sites - {site};
      :- Survives();
      journal := journal - {site};
      o := Survives();
    }

    /** One entry: the site file is put back only if it still is what boxmunge
        wrote; then the entry goes. */
    method RestoreEntry(site: string) returns (o: Outcome, put: bool)
      requires site in journal && journal[site].Entry?
      modifies this
      ensures !o.Refused?
      ensures Now() in {old(Now()), RestoredOne(old(Now()), site, true), RestoredOne(old(Now()), site, false)}
      ensures o.Done? ==> Now() == RestoredOne(old(Now()), site, false)
      ensures o.Done? ==> (put <==> Lookup(old(sites), site) == Some(old(journal)[site].written))
    {
      put := Lookup(sites, site) == Some(journal[site].written);
      if put {
        o := Survives();
        if !o.Done? {
          return;
        }
        sites := Put(sites, site, journal[site].previous);
      } else {
        assert Put(sites, site, Lookup(sites, site)) == sites;
      }
      o := Survives();
      if o.Done? {
        journal := journal - {site};
      }
    }

    /** Refused entries are left in place, and reported once all others are done. */
    method RestoreSites() returns (o: Outcome, restored: set<string>)
      modifies this
      ensures SameTargets(old(Now()), Now())
      ensures !o.Stopped? ==> journal == NotOursOf(old(journal)) && (o.Refused? <==> NotOursOf(old(journal)) != map[])
      ensures !o.Stopped? ==> forall s :: Lookup(sites, s) == Target(old(Now()), s)
      ensures !o.Stopped? ==> restored == set s | s in old(journal) && old(journal)[s].Entry?
                                                  && Lookup(old(sites), s) == Some(old(journal)[s].written)
    {
      restored := {};
      var left := journal.Keys;
      while left != {}
        invariant left <= old(journal).Keys && SameTargets(old(Now()), Now())
        invariant forall s :: s in journal <==> s in old(journal) && (s in left || old(journal)[s].NotOurs?)
        invariant forall s :: s in journal ==> journal[s] == old(journal)[s]
        invariant forall s :: s in left ==> Lookup(sites, s) == Lookup(old(sites), s)
        invariant restored == set s | s in old(journal).Keys - left && old(journal)[s].Entry?
                                      && Lookup(old(sites), s) == Some(old(journal)[s].written)
        decreases left
      {
        var site :| site in left;
        if journal[site].Entry? {
          ghost var was := Now();
          var put;
          o, put := RestoreEntry(site);
          RestoredOneTargets(was, site, true);
          RestoredOneTargets(was, site, false);
          if !o.Done? {
            return;
          }
          restored := restored + if put then {site} else {};
        }
        left := left - {site};
      }
      assert journal == NotOursOf(old(journal));
      forall s
        ensures Lookup(sites, s) == Target(old(Now()), s)
      {
        assert Target(Now(), s) == Target(old(Now()), s);
      }
      o := if journal != map[] then Refused else Done;
    }

    method CommitSites() returns (o: Outcome)
      modifies this`journal
      ensures o.Done? ==> Now() == After(old(Now()), Commit)
      ensures !o.Refused? && exists dropped :: Now() == After(old(Now()), CutCommit(dropped))
    {
      ghost var dropped: set<string> := {};
      assert journal == old(journal) - {};
      while journal.Keys != {}
        invariant journal == old(journal) - dropped
        decreases journal.Keys
      {
        o := Survives();
        if !o.Done? {
          assert Now() == After(old(Now()), CutCommit(dropped));
          return;
        }
        var site :| site in journal.Keys;
        journal := journal - {site};
        dropped := dropped + {site};
        assert old(journal) - dropped == journal;
      }
      assert Now() == After(old(Now()), CutCommit(dropped)) && journal == map[];
      o := Survives();
    }
  }
}
