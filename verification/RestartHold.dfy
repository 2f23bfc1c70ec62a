/** Two records that hold a project's containers stopped, and giving back the
    restart policies they had before either did (src/boxmunge/restart_hold.py,
    src/boxmunge/pause.py). */
module RestartHold {
  import opened Options

  type Policies = map<string, string>

  const NO := "no"

  /** A record is None when the project is not paused, or not quarantined. */
  datatype State = State(containers: Policies, paused: Option<Policies>, quarantined: Option<Policies>)

  datatype Holder = Pause | Quarantine

  function Saved(record: Option<Policies>): Policies {
    if record.Some? then record.value else map[]
  }

  function RecordOf(s: State, who: Holder): Option<Policies> {
    if who.Pause? then s.paused else s.quarantined
  }

  function WithRecord(s: State, who: Holder, saved: Policies): State {
    if who.Pause? then s.(paused := Some(saved)) else s.(quarantined := Some(saved))
  }

  /** dict.setdefault for every container: what is already saved stays. */
  function Merge(saved: Policies, current: Policies): Policies {
    current + saved
  }

  function SetTo(containers: Policies, names: set<string>, policies: Policies): Policies
    requires names <= policies.Keys
  {
    map c | c in containers :: if c in names then policies[c] else containers[c]
  }

  function Halted(containers: Policies, names: set<string>): Policies {
    map c | c in containers :: if c in names then NO else containers[c]
  }

  /** restart_hold.originals of two records. */
  function Originals(first: Policies, second: Policies): Policies {
    map c | c in first.Keys + second.Keys ::
      if c in first && (first[c] != NO || c !in second) then first[c] else second[c]
  }

  // ---------------------------------------------------------------------
  // Any number of holds, in any order, cut anywhere
  // ---------------------------------------------------------------------

  datatype Event =
    | Hold(who: Holder, stopped: set<string>)  // the record, then the containers it got to
    | HoldCutEarly                            // before the record was written
    | Vanish(container: string)
    | HandOver                                // the quarantine's originals into the pause record
    | PartRelease(names: set<string>)         // after a hand-over, the containers it got to

  predicate Enabled(s: State, e: Event) {
    match e
    case Hold(who, _) => RecordOf(s, who).Some?
    case HandOver => s.paused.Some?
    case PartRelease(names) => HandedOver(s) && names <= Saved(s.paused).Keys
    case _ => true
  }

  /** Whatever the quarantine saved, the pause record has taken over. */
  predicate HandedOver(s: State) {
    s.paused.Some? && Originals(s.paused.value, Saved(s.quarantined)) == s.paused.value
  }

  function Next(s: State, e: Event): State
    requires Enabled(s, e)
  {
    match e
    case Hold(who, stopped) =>
      WithRecord(s, who, Merge(Saved(RecordOf(s, who)), s.containers)).(containers := Halted(s.containers, stopped))
    case HoldCutEarly => s
    case Vanish(c) => s.(containers := s.containers - {c})
    case HandOver => s.(paused := Some(Originals(s.paused.value, Saved(s.quarantined))))
    case PartRelease(names) => s.(containers := SetTo(s.containers, names, s.paused.value))
  }

  predicate Legal(s: State, es: seq<Event>)
    decreases |es|
  {
    es == [] || (Enabled(s, es[0]) && Legal(Next(s, es[0]), es[1..]))
  }

  function After(s: State, es: seq<Event>): State
    requires Legal(s, es)
    decreases |es|
  {
    if es == [] then s else After(Next(s, es[0]), es[1..])
  }

  predicate Says(record: Option<Policies>, c: string, policy: string) {
    record.Some? && c in record.value && record.value[c] == policy
  }

  /** Each container has its policy of before the first hold, or "no"; a record
      says one or the other; and one that is not at its old policy, or is in any
      record, has its old policy in one of them. */
  ghost predicate Inv(original: Policies, s: State) {
    && s.containers.Keys <= original.Keys
    && (forall c :: c in original && c in Saved(s.paused) ==> s.paused.value[c] in {original[c], NO})
    && (forall c :: c in original && c in Saved(s.quarantined) ==> s.quarantined.value[c] in {original[c], NO})
    && (forall c :: c in s.containers ==> s.containers[c] in {original[c], NO})
    && (forall c ::
          c in s.containers && (s.containers[c] != original[c] || c in Saved(s.paused) || c in Saved(s.quarantined))
          ==> Says(s.paused, c, original[c]) || Says(s.quarantined, c, original[c]))
  }

  lemma StepKeepsInv(original: Policies, s: State, e: Event)
    requires Inv(original, s) && Enabled(s, e)
    ensures Inv(original, Next(s, e))
  {
  }

  lemma {:induction false} RunKeepsInv(original: Policies, s: State, es: seq<Event>)
    requires Inv(original, s) && Legal(s, es)
    ensures Inv(original, After(s, es))
    decreases |es|
  {
    if es != [] {
      StepKeepsInv(original, s, es[0]);
      RunKeepsInv(original, Next(s, es[0]), es[1..]);
    }
  }

  /** restart_hold.release. */
  function Released(containers: Policies, saved: Policies): Policies {
    map c | c in containers :: if c in saved then saved[c] else containers[c]
  }

  /** Nested holds. From a project nothing holds, after a pause and a quarantine
      that held any number of times each, in any order and cut anywhere, handing
      the quarantine's policies to the pause record and then releasing gives every
      container that still exists the policy it had before the first hold. */
  lemma HandOverThenReleaseRestores(original: Policies, es: seq<Event>, c: string)
    requires Legal(State(original, Some(map[]), Some(map[])), es)
    ensures var n := After(State(original, Some(map[]), Some(map[])), es);
            && n.paused.Some? && n.containers.Keys <= original.Keys
            && (c in n.containers ==>
                  Released(n.containers, Originals(n.paused.value, Saved(n.quarantined)))[c] == original[c])
  {
    var start := State(original, Some(map[]), Some(map[]));
    RunKeepsInv(original, start, es);
    RecordsStay(start, es);
  }

  lemma {:induction false} RecordsStay(s: State, es: seq<Event>)
    requires Legal(s, es) && s.paused.Some?
    ensures After(s, es).paused.Some?
    decreases |es|
  {
    if es != [] {
      RecordsStay(Next(s, es[0]), es[1..]);
    }
  }

  /** A hand-over cut before the quarantine record went can be made again: it
      changes nothing more, so the release that may follow it may follow. */
  lemma HandOverTwiceIsOnce(first: Policies, second: Policies)
    ensures Originals(Originals(first, second), second) == Originals(first, second)
  {
  }

  /** After a hand-over the policies may be released, and after another one too. */
  lemma HandOverAllowsRelease(s: State)
    requires Enabled(s, HandOver)
    ensures HandedOver(Next(s, HandOver)) && Next(Next(s, HandOver), HandOver) == Next(s, HandOver)
  {
    HandOverTwiceIsOnce(s.paused.value, Saved(s.quarantined));
  }

  // ---------------------------------------------------------------------
  // The containers and the records
  // ---------------------------------------------------------------------

  class Project {
    var containers: Policies
    var paused: Option<Policies>
    var quarantined: Option<Policies>

    function Now(): State
      reads this
    {
      State(containers, paused, quarantined)
    }

    /** Refused for a pause of a project that is not paused. */
    method Persist(who: Holder, saved: Policies) returns (o: Outcome)
      modifies this`paused, this`quarantined
      ensures o.Refused? <==> who.Pause? && old(paused).None?
      ensures !o.Done? ==> Now() == old(Now()) || (o.Stopped? && Now() == WithRecord(old(Now()), who, saved))
      ensures o.Done? ==> Now() == WithRecord(old(Now()), who, saved)
    {
      if who.Pause? && paused.None? {
        return Refused;
      }
      :- Survives();
      if who.Pause? {
        paused := Some(saved);
      } else {
        quarantined := Some(saved);
      }
      o := Survives();
    }

    /** `docker update --restart=no`, container by container. */
    method StopAll(names: set<string>) returns (o: Outcome, ghost stopped: set<string>)
      requires names <= containers.Keys
      modifies this`containers
      ensures !o.Refused? && stopped <= names && containers == Halted(old(containers), stopped)
      ensures o.Done? ==> stopped == names
    {
      stopped := {};
      var left := names;
      assert containers == Halted(containers, {});
      while left != {}
        invariant left <= names && stopped == names - left
        invariant containers == Halted(old(containers), stopped)
        decreases left
      {
        o := Survives();
        if !o.Done? {
          return;
        }
        var name :| name in left;
        assert name in containers.Keys;
        containers := containers[name := NO];
        left := left - {name};
        stopped := names - left;
      }
      o := Done;
    }

    /** restart_hold.hold: the originals are on disk before any policy changes. */
    method Hold(who: Holder) returns (o: Outcome)
      requires who.Quarantine? ==> quarantined.Some?
      modifies this
      ensures o.Refused? <==> who.Pause? && old(paused).None?
      ensures Now() == old(Now())
              || exists names :: Enabled(old(Now()), Event.Hold(who, names))
                                 && Now() == Next(old(Now()), Event.Hold(who, names))
      ensures o.Done? ==> RecordOf(Now(), who) == Some(Merge(Saved(RecordOf(old(Now()), who)), old(containers)))
                          && forall c :: c in containers ==> containers[c] == NO
    {
      ghost var was := Now();
      var current := containers;
      var merged := MergeCurrent(Saved(RecordOf(Now(), who)), current);
      o := Persist(who, merged);
      assert Halted(was.containers, {}) == was.containers;
      if o.Refused? {
        return;
      }
      assert o.Done? ==> Now() == Next(was, Event.Hold(who, {}));
      if !o.Done? {
        assert Now() == was || Now() == Next(was, Event.Hold(who, {}));
        return;
      }
      var names := set c | c in current && current[c] != NO;
      ghost var stopped: set<string>;
      o, stopped := StopAll(names);
      assert Now() == Next(was, Event.Hold(who, stopped));
    }

    /** restart_hold.release of the policies a record saved. */
    method Release(saved: Policies) returns (o: Outcome)
      modifies this`containers
      ensures !o.Refused?
      ensures exists names :: names <= saved.Keys && containers == SetTo(old(containers), names, saved)
      ensures o.Done? ==> containers == Released(old(containers), saved)
    {
      var left := set c | c in saved && c in containers && saved[c] != containers[c];
      ghost var names: set<string> := saved.Keys - left;
      assert containers == SetTo(old(containers), names, saved);
      while left != {}
        invariant left <= saved.Keys && names == saved.Keys - left
        invariant containers == SetTo(old(containers), names, saved)
        decreases left
      {
        o := Survives();
        if !o.Done? {
          return;
        }
        var name :| name in left;
        assert name in containers.Keys;
        containers := containers[name := saved[name]];
        left := left - {name};
        names := saved.Keys - left;
      }
      o := Done;
    }

    /** pause.hand_over_restart_policies, when a quarantine is lifted while paused. */
    method HandOver(saved: Policies) returns (o: Outcome)
      modifies this`paused, this`quarantined
      ensures o.Refused? <==> old(paused).None?
      ensures o.Refused? ==> Now() == old(Now())
      ensures quarantined == old(quarantined)
      ensures o.Done? ==> paused == Some(Originals(Saved(old(paused)), saved))
      ensures !o.Done? ==> paused == old(paused) || paused == Some(Originals(Saved(old(paused)), saved))
    {
      var merged := OriginalsOf(Saved(paused), saved);
      o := Persist(Pause, merged);
    }
  }

  method MergeCurrent(saved: Policies, current: Policies) returns (merged: Policies)
    ensures merged == Merge(saved, current)
  {
    merged := saved;
    var left := current.Keys;
    while left != {}
      invariant left <= current.Keys
      invariant merged.Keys == saved.Keys + (current.Keys - left)
      invariant forall c :: c in merged ==> merged[c] == if c in saved then saved[c] else current[c]
      decreases left
    {
      var name :| name in left;
      if name !in merged {
        merged := merged[name := current[name]];
      }
      left := left - {name};
    }
  }

  /** restart_hold.originals: record by record, container by container. */
  method OriginalsOf(first: Policies, second: Policies) returns (out: Policies)
    ensures out == Originals(first, second)
  {
    out := map[];
    var records := [first, second];
    for i := 0 to 2
      invariant out == if i == 0 then map[] else if i == 1 then first else Originals(first, second)
    {
      ghost var before := out;
      var left := records[i].Keys;
      while left != {}
        invariant left <= records[i].Keys
        invariant out.Keys == before.Keys + (records[i].Keys - left)
        invariant forall c :: c in out ==>
                    out[c] == if c in records[i].Keys - left && (c !in before || before[c] == NO)
                              then records[i][c] else before[c]
        decreases left
      {
        var name :| name in left;
        if name !in out || out[name] == NO {
          out := out[name := records[i][name]];
        }
        left := left - {name};
      }
    }
  }
}
