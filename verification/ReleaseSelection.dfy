/** The box's own selection rule, for when the service cannot be asked
    (src/boxmunge/release_selection.py), and its agreement with the service's. */
module ReleaseSelection {
  import opened Options
  import opened ReleaseCatalog

  /** A discovery mode, and the classes it accepts. */
  datatype Mode = Security | Breakfix | Latest

  predicate Accepts(mode: Mode, kind: Class) {
    match mode
    case Security => kind.Security?
    case Breakfix => AutoApplied(kind)
    case Latest => true
  }

  function Kept(releases: seq<Release>, current: Version, mode: Mode): Release -> bool
    requires |current| > 0
  {
    (r: Release) =>
      Accepts(mode, r.kind) && Gt(r.version, current)
      && (mode.Latest? || (|r.version| > 0 && BlockReason(releases, current, r.version).None?))
  }

  /** release_selection.select; `newer` is false for a box whose version does not
      parse, so it is offered nothing. */
  method Select(releases: seq<Release>, current: Option<Version>, mode: Mode) returns (best: Option<Release>)
    requires Catalog(releases) && (current.Some? ==> |current.value| > 0)
    ensures best == ServiceOffer(releases, current, mode)
  {
    best := None;
    if current.None? {
      return;
    }
    best := NewestOf(releases, Kept(releases, current.value, mode));
    TwinsAgree(releases, current.value, mode);
  }

  /** What the service offers in that mode. */
  function ServiceOffer(releases: seq<Release>, current: Option<Version>, mode: Mode): Option<Release>
    requires Catalog(releases) && (current.Some? ==> |current.value| > 0)
  {
    var offers := SelectOffers(releases, current);
    match mode
    case Security => offers.security
    case Breakfix => offers.breakfix
    case Latest => offers.latest
  }

  lemma SameKeepSameNewest(releases: seq<Release>, f: Release -> bool, g: Release -> bool)
    requires forall r :: r in releases ==> f(r) == g(r)
    ensures Newest(releases, f) == Newest(releases, g)
  {
    assert IsNewest(releases, g, NewestAt(releases, f));
    NewestIsUnique(releases, g, NewestAt(releases, f), NewestAt(releases, g));
  }

  /** The two implementations choose the same release, for every catalogue, every
      version and every mode. For `latest` one filters and then takes the newest,
      the other takes the newest and then compares. */
  lemma TwinsAgree(releases: seq<Release>, current: Version, mode: Mode)
    requires Catalog(releases) && |current| > 0
    ensures Newest(releases, Kept(releases, current, mode)) == ServiceOffer(releases, Some(current), mode)
  {
    var keep := Kept(releases, current, mode);
    if mode.Security? {
      SameKeepSameNewest(releases, keep, ReachableSecurity(releases, current));
    } else if mode.Breakfix? {
      SameKeepSameNewest(releases, keep, ReachableAuto(releases, current));
    } else {
      var a, b := NewestAt(releases, keep), NewestAt(releases, Any());
      if b.Some? && Gt(releases[b.value].version, current) {
        assert keep(releases[b.value]);
        NewestIsUnique(releases, keep, a, b);
      } else {
        forall r | r in releases
          ensures !keep(r)
        {
          if b.Some? {
            assert Any()(r);
            Order(r.version, current, releases[b.value].version);
          }
        }
      }
    }
  }

  /** release_selection.find_blocked. */
  method FindBlockedOnBox(releases: seq<Release>, current: Option<Version>) returns (blocked: Option<Blocked>)
    requires Catalog(releases) && (current.Some? ==> |current.value| > 0)
    ensures blocked == FindBlocked(releases, current)
  {
    if current.None? {
      return None;
    }
    var newest := NewestOf(releases, NewerAuto(current.value));
    if newest.None? {
      return None;
    }
    var reason := BlockReason(releases, current.value, newest.value.version);
    blocked := if reason.None? then None else Some(Blocked(newest.value, reason.value));
  }
}
