/** Which releases a box is offered, and which auto-update may reach
    (services/version-check/release_catalog.py). A version is the tuple its
    dotted text parses to; a caller whose text does not parse is None. */
module ReleaseCatalog {
  import opened Options

  type Version = seq<int>

  datatype Class = Feature | Breakfix | Security

  datatype Release = Release(name: string, version: Version, kind: Class, breaking: bool, url: string)

  /** What validate_releases guarantees of every entry's version. */
  predicate Catalog(releases: seq<Release>) {
    forall r :: r in releases ==> |r.version| == 3
  }

  predicate AutoApplied(kind: Class) {
    kind.Breakfix? || kind.Security?
  }

  // ---------------------------------------------------------------------
  // Versions, padded with zeros
  // ---------------------------------------------------------------------

  function Max(a: nat, b: nat): nat {
    if a < b then b else a
  }

  function At(v: Version, i: nat): int {
    if i < |v| then v[i] else 0
  }

  function GtFrom(a: Version, b: Version, i: nat, n: nat): bool
    requires i <= n
    decreases n - i
  {
    i < n && (At(a, i) > At(b, i) || (At(a, i) == At(b, i) && GtFrom(a, b, i + 1, n)))
  }

  predicate Gt(a: Version, b: Version) {
    GtFrom(a, b, 0, Max(|a|, |b|))
  }

  lemma {:induction false} PaddingIsNeutral(a: Version, b: Version, i: nat, n: nat, m: nat)
    requires i <= n <= m && |a| <= n && |b| <= n
    ensures GtFrom(a, b, i, n) == GtFrom(a, b, i, m)
    decreases m - i
  {
    if i < n {
      PaddingIsNeutral(a, b, i + 1, n, m);
    } else if i < m {
      PaddingIsNeutral(a, b, i + 1, i + 1, m);
    }
  }

  lemma {:induction false} OrderFrom(a: Version, b: Version, c: Version, i: nat, n: nat)
    requires i <= n
    ensures !GtFrom(a, a, i, n) && !(GtFrom(a, b, i, n) && GtFrom(b, a, i, n))
    ensures GtFrom(a, b, i, n) && !GtFrom(c, b, i, n) ==> GtFrom(a, c, i, n)
    ensures !GtFrom(b, a, i, n) && GtFrom(b, c, i, n) ==> GtFrom(a, c, i, n)
    decreases n - i
  {
    if i < n {
      OrderFrom(a, b, c, i + 1, n);
    }
  }

  /** version_gt is a strict weak order on parsed versions. */
  lemma Order(a: Version, b: Version, c: Version)
    ensures !Gt(a, a) && !(Gt(a, b) && Gt(b, a))
    ensures Gt(a, b) && !Gt(c, b) ==> Gt(a, c)
    ensures !Gt(b, a) && Gt(b, c) ==> Gt(a, c)
  {
    var n := Max(|a|, Max(|b|, |c|));
    OrderFrom(a, b, c, 0, n);
    PaddingIsNeutral(a, a, 0, |a|, n);
    PaddingIsNeutral(a, b, 0, Max(|a|, |b|), n);
    PaddingIsNeutral(b, a, 0, Max(|a|, |b|), n);
    PaddingIsNeutral(c, b, 0, Max(|c|, |b|), n);
    PaddingIsNeutral(a, c, 0, Max(|a|, |c|), n);
    PaddingIsNeutral(b, c, 0, Max(|b|, |c|), n);
  }

  /** The version with zeros up to `n` numbers. */
  function Padded(v: Version, n: nat): (p: Version)
    ensures |p| == (if |v| < n then n else |v|)
    ensures forall i :: 0 <= i < |p| ==> p[i] == if i < |v| then v[i] else 0
  {
    v + seq(if |v| < n then n - |v| else 0, _ => 0)
  }

  lemma {:induction false} GreaterFrom(a: Version, b: Version, i: nat, n: nat)
    requires i <= n && |a| <= n && |b| <= n && Padded(a, n)[..i] == Padded(b, n)[..i]
    ensures GtFrom(a, b, i, n)
            <==> exists k :: i <= k < n && Padded(a, n)[..k] == Padded(b, n)[..k] && Padded(a, n)[k] > Padded(b, n)[k]
    decreases n - i
  {
    var x, y := Padded(a, n), Padded(b, n);
    if i < n {
      if x[i] == y[i] {
        assert x[..i + 1] == x[..i] + [x[i]] && y[..i + 1] == y[..i] + [y[i]];
        GreaterFrom(a, b, i + 1, n);
      } else {
        forall k | i < k < n
          ensures x[..k] != y[..k]
        {
          assert x[..k][i] == x[i] && y[..k][i] == y[i];
        }
      }
    }
  }

  /** version_gt compares number by number, missing ones counting as zero: at the
      first that differ, the newer version has the greater. */
  lemma TheFirstDifferenceDecides(a: Version, b: Version)
    ensures var n := if |a| < |b| then |b| else |a|;
            Gt(a, b) <==> exists k :: 0 <= k < n && Padded(a, n)[..k] == Padded(b, n)[..k]
                                      && Padded(a, n)[k] > Padded(b, n)[k]
  {
    GreaterFrom(a, b, 0, Max(|a|, |b|));
  }

  /** A version between two of one major version is of that major version. */
  lemma Between(low: Version, mid: Version, high: Version)
    requires |low| > 0 && |mid| > 0 && |high| > 0 && low[0] == high[0]
    requires Gt(mid, low) && !Gt(mid, high)
    ensures mid[0] == low[0]
  {
  }

  // ---------------------------------------------------------------------
  // Selection
  // ---------------------------------------------------------------------

  /** The first of the newest of the releases kept. */
  ghost predicate IsNewest(releases: seq<Release>, keep: Release -> bool, best: Option<nat>) {
    match best
    case None => forall i :: 0 <= i < |releases| ==> !keep(releases[i])
    case Some(b) =>
      b < |releases| && keep(releases[b])
      && forall i :: 0 <= i < |releases| && keep(releases[i]) ==>
           !Gt(releases[i].version, releases[b].version) && (i < b ==> Gt(releases[b].version, releases[i].version))
  }

  lemma NewestIsUnique(releases: seq<Release>, keep: Release -> bool, a: Option<nat>, b: Option<nat>)
    requires IsNewest(releases, keep, a) && IsNewest(releases, keep, b)
    ensures a == b
  {
    assert a.Some? ==> keep(releases[a.value]);
    assert b.Some? ==> keep(releases[b.value]);
  }

  /** release_catalog._newest, by index. */
  function NewestAt(releases: seq<Release>, keep: Release -> bool): (best: Option<nat>)
    ensures IsNewest(releases, keep, best)
    decreases |releases|
  {
    if releases == [] then None
    else
      var n := |releases| - 1;
      var best := NewestAt(releases[..n], keep);
      assert forall i :: 0 <= i < n ==> releases[..n][i] == releases[i];
      if keep(releases[n]) && (best.None? || Gt(releases[n].version, releases[best.value].version)) then
        (NewerIsNewest(releases, keep, best); Some(n))
      else best
  }

  lemma NewerIsNewest(releases: seq<Release>, keep: Release -> bool, best: Option<nat>)
    requires releases != [] && keep(releases[|releases| - 1])
    requires IsNewest(releases[..|releases| - 1], keep, best)
    requires best.Some? ==> Gt(releases[|releases| - 1].version, releases[best.value].version)
    ensures IsNewest(releases, keep, Some(|releases| - 1))
  {
    var n, r := |releases| - 1, releases[|releases| - 1];
    Order(r.version, r.version, r.version);
    forall j | 0 <= j < n && keep(releases[j])
      ensures !Gt(releases[j].version, r.version) && Gt(r.version, releases[j].version)
    {
      assert releases[..n][j] == releases[j];
      Order(r.version, releases[best.value].version, releases[j].version);
      Order(releases[j].version, r.version, r.version);
    }
  }

  function Newest(releases: seq<Release>, keep: Release -> bool): (r: Option<Release>)
    ensures r.None? <==> forall x :: x in releases ==> !keep(x)
    ensures r.Some? ==> r.value in releases && keep(r.value)
                        && forall x :: x in releases && keep(x) ==> !Gt(x.version, r.value.version)
  {
    var best := NewestAt(releases, keep);
    if best.None? then None else Some(releases[best.value])
  }

  method NewestOf(releases: seq<Release>, keep: Release -> bool) returns (best: Option<Release>)
    ensures best == Newest(releases, keep)
  {
    best := None;
    for i := 0 to |releases|
      invariant best == Newest(releases[..i], keep)
    {
      assert releases[..i + 1][..i] == releases[..i];
      var r := releases[i];
      if keep(r) && (best.None? || Gt(r.version, best.value.version)) {
        best := Some(r);
      }
    }
    assert releases[..|releases|] == releases;
  }

  /** Why auto-update must not go there. */
  datatype Reason = MajorVersion(major: int) | BreakingRelease(release: Release)

  predicate OnPath(caller: Version, target: Version, r: Release) {
    r.breaking && Gt(r.version, caller) && !Gt(r.version, target)
  }

  /** release_catalog.block_reason; the breaking release is the oldest on the path. */
  function BlockReason(releases: seq<Release>, caller: Version, target: Version): (reason: Option<Reason>)
    requires |caller| > 0 && |target| > 0
    ensures reason.None? <==> target[0] == caller[0] && forall r :: r in releases ==> !OnPath(caller, target, r)
    ensures reason.Some? && reason.value.MajorVersion? <==> target[0] != caller[0]
    ensures reason.Some? && reason.value.MajorVersion? ==> reason.value.major == target[0]
    ensures reason.Some? && reason.value.BreakingRelease? ==>
              reason.value.release in releases && OnPath(caller, target, reason.value.release)
              && forall r :: r in releases && OnPath(caller, target, r) ==> !Gt(reason.value.release.version, r.version)
  {
    if target[0] != caller[0] then Some(MajorVersion(target[0]))
    else
      var first := OldestOnPath(releases, caller, target);
      if first.None? then None else Some(BreakingRelease(first.value))
  }

  function OldestOnPath(releases: seq<Release>, caller: Version, target: Version): (first: Option<Release>)
    ensures first.None? <==> forall r :: r in releases ==> !OnPath(caller, target, r)
    ensures first.Some? ==> first.value in releases && OnPath(caller, target, first.value)
                            && forall r :: r in releases && OnPath(caller, target, r) ==>
                                !Gt(first.value.version, r.version)
  {
    if releases == [] then None
    else
      var rest := OldestOnPath(releases[1..], caller, target);
      var r := releases[0];
      Order(r.version, r.version, r.version);
      if !OnPath(caller, target, r) then rest
      else if rest.None? then Some(r)
      else if Gt(r.version, rest.value.version) then (Order(r.version, rest.value.version, r.version); rest)
      else
        assert forall x :: x in releases[1..] && OnPath(caller, target, x) ==> !Gt(r.version, x.version) by {
          forall x | x in releases[1..] && OnPath(caller, target, x)
            ensures !Gt(r.version, x.version)
          {
            Order(r.version, x.version, rest.value.version);
          }
        }
        Some(r)
  }

  predicate Reachable(releases: seq<Release>, caller: Version, r: Release)
    requires |caller| > 0
  {
    Gt(r.version, caller) && |r.version| > 0 && BlockReason(releases, caller, r.version).None?
  }

  function Any(): Release -> bool {
    (r: Release) => true
  }

  function NewerAuto(caller: Version): Release -> bool {
    (r: Release) => AutoApplied(r.kind) && Gt(r.version, caller)
  }

  function ReachableAuto(releases: seq<Release>, caller: Version): Release -> bool
    requires |caller| > 0
  {
    (r: Release) => AutoApplied(r.kind) && Reachable(releases, caller, r)
  }

  function ReachableSecurity(releases: seq<Release>, caller: Version): Release -> bool
    requires |caller| > 0
  {
    (r: Release) => r.kind.Security? && Reachable(releases, caller, r)
  }

  datatype Offers = Offers(security: Option<Release>, breakfix: Option<Release>, latest: Option<Release>)

  /** release_catalog.select_offers; a caller that does not parse is offered nothing. */
  function SelectOffers(releases: seq<Release>, caller: Option<Version>): Offers
    requires Catalog(releases) && (caller.Some? ==> |caller.value| > 0)
  {
    if caller.None? then Offers(None, None, None)
    else
      var latest := Newest(releases, Any());
      Offers(
        Newest(releases, ReachableSecurity(releases, caller.value)),
        Newest(releases, ReachableAuto(releases, caller.value)),
        if latest.Some? && Gt(latest.value.version, caller.value) then latest else None)
  }

  lemma Agree(x: Version, y: Version, k: nat)
    requires k <= |x| && k <= |y| && x[..k] == y[..k]
    ensures forall j :: 0 <= j < k ==> x[j] == y[j]
  {
    assert forall j :: 0 <= j < k ==> x[j] == x[..k][j] && y[j] == y[..k][j];
  }

  /** In numbers: where an offer and its caller first differ, the offer has the
      greater number, and they differ somewhere. */
  lemma OffersAreNewer(releases: seq<Release>, caller: Version, offer: Option<Release>)
    requires Catalog(releases) && |caller| > 0
    requires var o := SelectOffers(releases, Some(caller)); offer in {o.security, o.breakfix, o.latest}
    ensures offer.Some? ==>
              var n := if |caller| < 3 then 3 else |caller|;
              var x, y := Padded(offer.value.version, n), Padded(caller, n);
              && x != y
              && forall k :: 0 <= k < n && x[..k] == y[..k] && x[k] != y[k] ==> x[k] > y[k]
  {
    if offer.Some? {
      var v := offer.value.version;
      TheFirstDifferenceDecides(v, caller);
      var n := if |caller| < 3 then 3 else |caller|;
      var x, y := Padded(v, n), Padded(caller, n);
      var d :| 0 <= d < n && x[..d] == y[..d] && x[d] > y[d];
      forall k | 0 <= k < n && x[..k] == y[..k] && x[k] != y[k]
        ensures k == d
      {
        Agree(x, y, k);
        Agree(x, y, d);
      }
    }
  }

  datatype Blocked = Blocked(release: Release, reason: Reason)

  function FindBlocked(releases: seq<Release>, caller: Option<Version>): Option<Blocked>
    requires Catalog(releases) && (caller.Some? ==> |caller.value| > 0)
  {
    if caller.None? then None
    else
      var newest := Newest(releases, NewerAuto(caller.value));
      if newest.None? then None
      else
        var reason := BlockReason(releases, caller.value, newest.value.version);
        if reason.None? then None else Some(Blocked(newest.value, reason.value))
  }

  // ---------------------------------------------------------------------
  // What the rule promises
  // ---------------------------------------------------------------------

  /** Reachability only shrinks as versions rise. */
  lemma OlderIsReachable(releases: seq<Release>, caller: Version, older: Release, newer: Release)
    requires |caller| > 0 && |older.version| > 0
    requires Reachable(releases, caller, newer)
    requires Gt(older.version, caller) && !Gt(older.version, newer.version)
    ensures Reachable(releases, caller, older)
  {
    Between(caller, older.version, newer.version);
    forall r | r in releases
      ensures !OnPath(caller, older.version, r)
    {
      assert !OnPath(caller, newer.version, r);
      Order(r.version, newer.version, older.version);
    }
  }

  /** find_blocked is None exactly when every newer security or break-fix release
      is reachable; otherwise it names the newest of them, which is not. */
  lemma NoneBlockedExactlyWhenAllReachable(releases: seq<Release>, caller: Version)
    requires Catalog(releases) && |caller| > 0
    ensures FindBlocked(releases, Some(caller)).None?
            <==> forall r :: r in releases && AutoApplied(r.kind) && Gt(r.version, caller) ==>
                Reachable(releases, caller, r)
    ensures FindBlocked(releases, Some(caller)).Some? ==>
              var b := FindBlocked(releases, Some(caller)).value.release;
              && b in releases && AutoApplied(b.kind) && Gt(b.version, caller) && !Reachable(releases, caller, b)
              && Some(FindBlocked(releases, Some(caller)).value.reason) == BlockReason(releases, caller, b.version)
              && forall r :: r in releases && AutoApplied(r.kind) && Gt(r.version, caller) ==> !Gt(r.version, b.version)
  {
    var newest := Newest(releases, NewerAuto(caller));
    if newest.Some? && BlockReason(releases, caller, newest.value.version).None? {
      forall r | r in releases && AutoApplied(r.kind) && Gt(r.version, caller)
        ensures Reachable(releases, caller, r)
      {
        OlderIsReachable(releases, caller, r, newest.value);
      }
    }
  }

  datatype Mode = SecurityOnly | SecurityAndBreakfix

  function Hop(releases: seq<Release>, mode: Mode, at: Version): Version
    requires Catalog(releases) && |at| > 0
  {
    var offers := SelectOffers(releases, Some(at));
    var offer := if mode.SecurityOnly? then offers.security else offers.breakfix;
    if offer.Some? then offer.value.version else at
  }

  function Hops(releases: seq<Release>, mode: Mode, at: Version, n: nat): (v: Version)
    requires Catalog(releases) && |at| > 0
    ensures |v| > 0
    decreases n
  {
    if n == 0 then at else Hops(releases, mode, Hop(releases, mode, at), n - 1)
  }

  lemma HopIsReachable(releases: seq<Release>, mode: Mode, at: Version)
    requires Catalog(releases) && |at| > 0
    ensures var v := Hop(releases, mode, at);
            |v| > 0 && v[0] == at[0] && (v != at ==> Gt(v, at)) && forall r :: r in releases ==> !OnPath(at, v, r)
  {
    Order(at, at, at);
    forall r | r in releases
      ensures !OnPath(at, at, r)
    {
    }
  }

  /** After one hop the same mode has no further offer. */
  lemma OneHopIsEnough(releases: seq<Release>, mode: Mode, at: Version)
    requires Catalog(releases) && |at| > 0
    ensures Hop(releases, mode, Hop(releases, mode, at)) == Hop(releases, mode, at)
  {
    HopIsReachable(releases, mode, at);
    var v := Hop(releases, mode, at);
    var offers := SelectOffers(releases, Some(v));
    var further := if mode.SecurityOnly? then offers.security else offers.breakfix;
    if v != at && further.Some? {
      var f := further.value;
      Order(f.version, v, at);
      Order(v, at, v);
      forall r | r in releases
        ensures !OnPath(at, f.version, r)
      {
        assert !OnPath(at, v, r) && !OnPath(v, f.version, r);
      }
      assert Reachable(releases, at, f);
    }
  }

  /** Following a mode's offers any number of times never leaves the major version
      and never crosses a breaking release, and ends after the first hop. */
  lemma {:induction false} AutoUpdateStaysOnItsPath(releases: seq<Release>, mode: Mode, at: Version, n: nat)
    requires Catalog(releases) && |at| > 0
    ensures var v := Hops(releases, mode, at, n);
            && v[0] == at[0]
            && (forall r :: r in releases ==> !OnPath(at, v, r))
            && (n > 0 ==> v == Hop(releases, mode, at))
    decreases n
  {
    HopIsReachable(releases, mode, at);
    if n == 0 {
      Order(at, at, at);
    } else {
      AutoUpdateStaysOnItsPath(releases, mode, Hop(releases, mode, at), n - 1);
      OneHopIsEnough(releases, mode, at);
    }
  }

  // ---------------------------------------------------------------------
  // Holds
  // ---------------------------------------------------------------------

  /** What apply_holds leaves of two candidates. */
  function Unheld(offers: Offers, isHeld: string -> bool): Offers {
    var security := if offers.security.Some? && isHeld(offers.security.value.name) then None else offers.security;
    offers.(security := security,
            breakfix :=
              if offers.breakfix.Some? && isHeld(offers.breakfix.value.name) then security else offers.breakfix)
  }

  /** release_catalog.apply_holds: offers with circuit-broken candidates withdrawn,
      and the withheld names, each once. */
  method ApplyHolds(offers: Offers, isHeld: string -> bool) returns (kept: Offers, held: seq<string>)
    ensures kept == Unheld(offers, isHeld)
    ensures forall name :: name in held <==>
              isHeld(name) && ((offers.security.Some? && offers.security.value.name == name)
                               || (offers.breakfix.Some? && offers.breakfix.value.name == name))
    ensures forall i, j :: 0 <= i < j < |held| ==> held[i] != held[j]
  {
    var security, breakfix := offers.security, offers.breakfix;
    held := [];
    if security.Some? && isHeld(security.value.name) {
      held := held + [security.value.name];
      security := None;
    }
    if breakfix.Some? && (breakfix.value.name in held || isHeld(breakfix.value.name)) {
      if breakfix.value.name !in held {
        held := held + [breakfix.value.name];
      }
      breakfix := security;
    }
    kept := offers.(security := security, breakfix := breakfix);
  }

  /** Whatever is held: no held version is offered for auto-update, an offer that is
      not held stays, and a box that takes break-fixes is never offered less than a
      security-only box. */
  lemma BreakfixBoxIsNeverBehind(releases: seq<Release>, caller: Option<Version>, isHeld: string -> bool)
    requires Catalog(releases) && (caller.Some? ==> |caller.value| > 0)
    ensures var offers := SelectOffers(releases, caller);
            var kept := Unheld(offers, isHeld);
            && kept.latest == offers.latest
            && (offers.security.Some? && !isHeld(offers.security.value.name) ==> kept.security == offers.security)
            && (offers.breakfix.Some? && !isHeld(offers.breakfix.value.name) ==> kept.breakfix == offers.breakfix)
            && (kept.security.Some? ==> !isHeld(kept.security.value.name))
            && (kept.breakfix.Some? ==> !isHeld(kept.breakfix.value.name))
            && (kept.security.Some? ==> kept.breakfix.Some?)
            && (kept.security.Some? ==> !Gt(kept.security.value.version, kept.breakfix.value.version))
            && (kept.breakfix.Some? ==> Reachable(releases, caller.value, kept.breakfix.value))
  {
    var offers := SelectOffers(releases, caller);
    if offers.security.Some? {
      var s := offers.security.value;
      Order(s.version, s.version, s.version);
    }
  }
}
