/** The per-client request limit of the version-check service: RateLimiter of
    services/version-check/request_limits.py, with its clock as an argument. */
module RateLimiter {
  import opened Options

  datatype Window = Window(started: real, count: nat)

  /** An allowed request: when it came, and the start of the window it fell in. */
  datatype Hit = Hit(time: real, started: real)

  datatype Limits = Limits(limit: nat, window: real, maxClients: nat)

  predicate Positive(l: Limits) {
    l.limit >= 1 && l.window > 0.0 && l.maxClients >= 1
  }

  /** `log`, the allowed requests of each client, is bookkeeping of the argument. */
  datatype State = State(windows: map<string, Window>, lastSweep: real, log: map<string, seq<Hit>>)

  function LogOf(s: State, key: string): seq<Hit> {
    if key in s.log then s.log[key] else []
  }

  function Swept(l: Limits, s: State, now: real): State {
    if now - s.lastSweep >= l.window
    then s.(windows := map k | k in s.windows && now - s.windows[k].started < l.window :: s.windows[k],
            lastSweep := now)
    else s
  }

  /** The window a request at `now` falls in, as far as the table knows. */
  function Current(l: Limits, s: State, key: string, now: real): Window {
    if key in s.windows && now - s.windows[key].started < l.window then s.windows[key] else Window(now, 0)
  }

  function Allow(l: Limits, s0: State, key: string, now: real): (State, bool) {
    var s := Swept(l, s0, now);
    var w := Current(l, s, key, now);
    if (key !in s.windows && |s.windows| >= l.maxClients) || w.count >= l.limit then (s, false)
    else (State(s.windows[key := Window(w.started, w.count + 1)], s.lastSweep,
                s.log[key := LogOf(s, key) + [Hit(now, w.started)]]), true)
  }

  // ---------------------------------------------------------------------
  // What the log of one client looks like
  // ---------------------------------------------------------------------

  ghost predicate InOrder(hits: seq<Hit>) {
    forall i, j :: 0 <= i <= j < |hits| ==> hits[i].time <= hits[j].time
  }

  ghost predicate InWindows(l: Limits, hits: seq<Hit>) {
    forall i :: 0 <= i < |hits| ==> hits[i].started <= hits[i].time < hits[i].started + l.window
  }

  ghost predicate Apart(l: Limits, hits: seq<Hit>) {
    forall i, j :: 0 <= i <= j < |hits| ==>
      hits[i].started == hits[j].started || hits[i].started + l.window <= hits[j].started
  }

  ghost predicate Capped(l: Limits, hits: seq<Hit>) {
    forall i, j :: 0 <= i && i + l.limit <= j < |hits| ==> hits[i].started != hits[j].started
  }

  ghost predicate StartsWithAHit(hits: seq<Hit>) {
    && (hits != [] ==> hits[0].time == hits[0].started)
    && forall i, j :: 0 <= i < j < |hits| && j == i + 1 ==>
        hits[j].time == hits[j].started || hits[i].started == hits[j].started
  }

  /** Requests in order, in windows that do not overlap, each of which starts with
      a request and holds at most `limit`. */
  ghost predicate Good(l: Limits, hits: seq<Hit>) {
    InOrder(hits) && InWindows(l, hits) && Apart(l, hits) && Capped(l, hits) && StartsWithAHit(hits)
  }

  /** The window in the table is that of the last requests of the log. */
  ghost predicate Tracks(l: Limits, hits: seq<Hit>, w: Window) {
    && 1 <= w.count <= l.limit && w.count <= |hits|
    && (forall i :: |hits| - w.count <= i < |hits| ==> hits[i].started == w.started)
    && (forall i :: 0 <= i < |hits| - w.count ==> hits[i].started != w.started)
  }

  /** One client, tracked or not. */
  ghost predicate Client(l: Limits, hits: seq<Hit>, tracked: Option<Window>, clock: real) {
    && Good(l, hits)
    && (hits != [] ==> hits[|hits| - 1].time <= clock)
    && (tracked.Some? ==> Tracks(l, hits, tracked.value))
    && (tracked.None? && hits != [] ==> hits[|hits| - 1].started + l.window <= clock)
  }

  ghost predicate Inv(l: Limits, s: State, clock: real) {
    && |s.windows| <= l.maxClients
    && forall k :: Client(l, LogOf(s, k), Lookup(s.windows, k), clock)
  }

  /** Sweeping drops only windows that are over. */
  lemma SweepKeepsInv(l: Limits, s: State, clock: real, now: real)
    requires Positive(l) && Inv(l, s, clock) && clock <= now
    ensures Inv(l, Swept(l, s, now), now)
    ensures forall k :: k in s.windows && now - s.windows[k].started < l.window ==>
              Lookup(Swept(l, s, now).windows, k) == Some(s.windows[k])
  {
    var n := Swept(l, s, now);
    Fewer(n.windows.Keys, s.windows.Keys);
    assert |n.windows| == |n.windows.Keys| && |s.windows| == |s.windows.Keys|;
    forall k
      ensures Client(l, LogOf(n, k), Lookup(n.windows, k), now)
    {
      assert Client(l, LogOf(s, k), Lookup(s.windows, k), clock);
      assert Lookup(n.windows, k) == Lookup(s.windows, k)
             || (Lookup(n.windows, k).None? && k in s.windows && now - s.windows[k].started >= l.window);
    }
  }

  lemma Fewer<T>(a: set<T>, b: set<T>)
    requires a <= b
    ensures |a| <= |b|
  {
    assert |b| == |a| + |b - a| by {
      assert a + (b - a) == b;
    }
  }

  lemma AppendInOrder(hits: seq<Hit>, h: Hit)
    requires InOrder(hits) && (hits != [] ==> hits[|hits| - 1].time <= h.time)
    ensures InOrder(hits + [h])
  {
    var more := hits + [h];
    forall i, j | 0 <= i <= j < |more|
      ensures more[i].time <= more[j].time
    {
      assert i < |hits| ==> hits[i].time <= hits[|hits| - 1].time;
    }
  }

  lemma AppendApart(l: Limits, hits: seq<Hit>, h: Hit)
    requires Positive(l) && Apart(l, hits)
    requires hits != [] ==> hits[|hits| - 1].started == h.started || hits[|hits| - 1].started + l.window <= h.started
    ensures Apart(l, hits + [h])
  {
    var more := hits + [h];
    forall i, j | 0 <= i <= j < |more|
      ensures more[i].started == more[j].started || more[i].started + l.window <= more[j].started
    {
      if i < j == |hits| {
        var last := hits[|hits| - 1];
        assert hits[i].started == last.started || hits[i].started + l.window <= last.started;
      }
    }
  }

  /** One more request in the window the log ends with, or in a new one. */
  lemma AppendKeepsGood(l: Limits, hits: seq<Hit>, h: Hit, count: nat)
    requires Positive(l) && Good(l, hits) && count < l.limit && h.started <= h.time < h.started + l.window
    requires hits != [] ==> hits[|hits| - 1].time <= h.time
    requires count > 0 ==> Tracks(l, hits, Window(h.started, count))
    requires count == 0 ==> h.time == h.started && (hits != [] ==> hits[|hits| - 1].started + l.window <= h.started)
    ensures Good(l, hits + [h]) && Tracks(l, hits + [h], Window(h.started, count + 1))
  {
    var n, more := |hits|, hits + [h];
    assert count > 0 ==> hits[n - 1].started == h.started;
    AppendInOrder(hits, h);
    AppendApart(l, hits, h);
    AppendTracked(l, hits, h, count);
    assert Tracks(l, more, Window(h.started, count + 1));
    assert Capped(l, more);
    assert StartsWithAHit(more);
  }

  lemma AppendTracked(l: Limits, hits: seq<Hit>, h: Hit, count: nat)
    requires Positive(l) && Good(l, hits) && count < l.limit
    requires count > 0 ==> Tracks(l, hits, Window(h.started, count))
    requires count == 0 ==> hits != [] ==> hits[|hits| - 1].started + l.window <= h.started
    ensures Tracks(l, hits + [h], Window(h.started, count + 1))
  {
    var n, more := |hits|, hits + [h];
    assert forall i :: 0 <= i < n ==> more[i] == hits[i];
    forall i | 0 <= i < n - count
      ensures hits[i].started != h.started
    {
      assert count == 0 ==> hits[i].started == hits[n - 1].started || hits[i].started + l.window <= hits[n - 1].started;
    }
  }

  lemma AllowKeepsInv(l: Limits, s: State, clock: real, key: string, now: real)
    requires Positive(l) && Inv(l, s, clock) && clock <= now
    ensures Inv(l, Allow(l, s, key, now).0, now)
  {
    SweepKeepsInv(l, s, clock, now);
    if Allow(l, s, key, now).1 {
      var m := Swept(l, s, now);
      var w := Current(l, m, key, now);
      AllowedClient(l, LogOf(m, key), Lookup(m.windows, key), w, now);
      AllowedState(l, m, key, now, w);
    }
  }

  lemma AllowedClient(l: Limits, hits: seq<Hit>, tracked: Option<Window>, w: Window, now: real)
    requires Positive(l) && Client(l, hits, tracked, now) && w.count < l.limit
    requires w == if tracked.Some? && now - tracked.value.started < l.window then tracked.value else Window(now, 0)
    ensures Client(l, hits + [Hit(now, w.started)], Some(Window(w.started, w.count + 1)), now)
  {
    if tracked.Some? {
      assert hits[|hits| - 1].started == tracked.value.started;
      assert hits[|hits| - 1].started <= hits[|hits| - 1].time;
    }
    AppendKeepsGood(l, hits, Hit(now, w.started), w.count);
  }

  lemma AllowedState(l: Limits, m: State, key: string, now: real, w: Window)
    requires Inv(l, m, now) && (key in m.windows || |m.windows| < l.maxClients)
    requires Client(l, LogOf(m, key) + [Hit(now, w.started)], Some(Window(w.started, w.count + 1)), now)
    ensures Inv(l, State(m.windows[key := Window(w.started, w.count + 1)], m.lastSweep,
                         m.log[key := LogOf(m, key) + [Hit(now, w.started)]]), now)
  {
    var n := State(m.windows[key := Window(w.started, w.count + 1)], m.lastSweep,
                   m.log[key := LogOf(m, key) + [Hit(now, w.started)]]);
    assert n.windows.Keys == m.windows.Keys + {key};
    assert |n.windows| == |n.windows.Keys| && |m.windows| == |m.windows.Keys|;
    forall k
      ensures Client(l, LogOf(n, k), Lookup(n.windows, k), now)
    {
      if k != key {
        assert Client(l, LogOf(m, k), Lookup(m.windows, k), now);
        assert LogOf(n, k) == LogOf(m, k) && Lookup(n.windows, k) == Lookup(m.windows, k);
      }
    }
  }

  // ---------------------------------------------------------------------
  // The bounds
  // ---------------------------------------------------------------------

  /** Any 2*limit consecutive allowed requests span at least a window. */
  lemma TwiceTheLimitSpansAWindow(l: Limits, hits: seq<Hit>, i: nat, last: nat)
    requires Positive(l) && Good(l, hits) && i + 2 * l.limit - 1 <= last < |hits|
    ensures hits[i].time + l.window <= hits[last].time
  {
    if hits[i].time == hits[i].started {
      var j := i + l.limit;
      assert hits[i].started != hits[j].started;
      assert hits[j].time <= hits[last].time;
    } else {
      var first := i - 1;
      var j := first + l.limit;
      assert i > 0 && hits[first].started == hits[i].started;
      assert hits[first].started != hits[j].started && hits[j].started != hits[last].started;
    }
  }

  ghost function Among(hits: seq<Hit>, from: real, to: real): set<int> {
    set i | 0 <= i < |hits| && from <= hits[i].time < to
  }

  lemma {:induction false} SizeWithin(s: set<int>, lo: int, hi: int)
    requires lo <= hi && forall i :: i in s ==> lo <= i < hi
    ensures |s| <= hi - lo
    decreases hi - lo
  {
    if lo < hi {
      SizeWithin(s - {hi - 1}, lo, hi - 1);
    } else {
      assert s == {};
    }
  }

  lemma {:induction false} LeastOf(s: set<int>) returns (lo: int)
    requires s != {}
    ensures lo in s && forall i :: i in s ==> lo <= i
    decreases s
  {
    assert (forall i :: i !in s) ==> s == {};
    lo :| lo in s;
    if s != {lo} {
      var rest := s - {lo};
      assert forall i :: i in s <==> i == lo || i in rest;
      if rest != {} {
        var other := LeastOf(rest);
        lo := if other < lo then other else lo;
      }
    }
  }

  /** Rate bound: no half-open interval of the length of a window contains more
      than 2*limit - 1 allowed requests of one client. */
  lemma AtMostTwiceTheLimitLessOne(l: Limits, hits: seq<Hit>, from: real)
    requires Positive(l) && Good(l, hits)
    ensures |Among(hits, from, from + l.window)| <= 2 * l.limit - 1
  {
    var s := Among(hits, from, from + l.window);
    if s != {} {
      var lo := LeastOf(s);
      var hi := lo + 2 * l.limit - 1;
      forall i | i in s
        ensures lo <= i < hi
      {
        if i >= hi {
          TwiceTheLimitSpansAWindow(l, hits, lo, i);
        }
      }
      SizeWithin(s, lo, hi);
    }
  }

  /** The requests of the window that started then. */
  ghost function Within(hits: seq<Hit>, started: real): set<int> {
    set i | 0 <= i < |hits| && hits[i].started == started
  }

  /** One window admits at most `limit`. */
  lemma AWindowAdmitsTheLimit(l: Limits, hits: seq<Hit>, started: real)
    requires Positive(l) && Good(l, hits)
    ensures |Within(hits, started)| <= l.limit
  {
    var s := Within(hits, started);
    if s != {} {
      var lo := LeastOf(s);
      assert forall i :: i in s ==> lo <= i < lo + l.limit;
      SizeWithin(s, lo, lo + l.limit);
    }
  }

  // ---------------------------------------------------------------------
  // Whole runs
  // ---------------------------------------------------------------------

  datatype Request = Request(key: string, now: real)

  ghost predicate Monotone(start: real, rs: seq<Request>) {
    (forall i :: 0 <= i < |rs| ==> start <= rs[i].now) && forall i, j :: 0 <= i < j < |rs| ==> rs[i].now <= rs[j].now
  }

  function AfterAll(l: Limits, s: State, rs: seq<Request>): State {
    if rs == [] then s
    else Allow(l, AfterAll(l, s, rs[..|rs| - 1]), rs[|rs| - 1].key, rs[|rs| - 1].now).0
  }

  lemma {:induction false} RunKeepsInv(l: Limits, start: real, rs: seq<Request>)
    requires Positive(l) && Monotone(start, rs)
    ensures Inv(l, AfterAll(l, State(map[], start, map[]), rs), if rs == [] then start else rs[|rs| - 1].now)
    decreases |rs|
  {
    if rs != [] {
      var before := rs[..|rs| - 1];
      RunKeepsInv(l, start, before);
      AllowKeepsInv(l, AfterAll(l, State(map[], start, map[]), before),
                    if before == [] then start else before[|before| - 1].now, rs[|rs| - 1].key, rs[|rs| - 1].now);
    }
  }

  /** Over every run on a clock that does not go back: the bound holds for every
      client and every interval, no window admits more than `limit`, and no more
      than `max_clients` clients are tracked. */
  lemma EveryRunIsBounded(l: Limits, start: real, rs: seq<Request>, key: string, from: real, started: real)
    requires Positive(l) && Monotone(start, rs)
    ensures var n := AfterAll(l, State(map[], start, map[]), rs);
            && |Among(LogOf(n, key), from, from + l.window)| <= 2 * l.limit - 1
            && |Within(LogOf(n, key), started)| <= l.limit
            && |n.windows| <= l.maxClients
  {
    RunKeepsInv(l, start, rs);
    var hits := LogOf(AfterAll(l, State(map[], start, map[]), rs), key);
    AtMostTwiceTheLimitLessOne(l, hits, from);
    AWindowAdmitsTheLimit(l, hits, started);
  }

  // ---------------------------------------------------------------------
  // Exactly which requests are refused
  // ---------------------------------------------------------------------

  /** The last `limit` requests all fell in one window, which is not over. */
  ghost predicate UsedUp(l: Limits, hits: seq<Hit>, now: real) {
    && |hits| >= l.limit > 0 && now - hits[|hits| - 1].started < l.window
    && forall i :: |hits| - l.limit <= i < |hits| ==> hits[i].started == hits[|hits| - 1].started
  }

  /** The clients tracked now: those of the last two windows' lengths, or of one. */
  function TrackedAt(l: Limits, s: State, now: real): set<string> {
    if now - s.lastSweep < l.window then s.windows.Keys
    else set k | k in s.windows && now - s.windows[k].started < l.window
  }

  /** A tracked client had a request admitted within a window of the last sweep. */
  ghost predicate Fresh(l: Limits, s: State) {
    forall k :: k in s.windows ==>
      && s.lastSweep - l.window < s.windows[k].started && LogOf(s, k) != []
      && LogOf(s, k)[|LogOf(s, k)| - 1].started == s.windows[k].started
  }

  lemma SweepKeepsFresh(l: Limits, s: State, now: real)
    requires Positive(l) && Fresh(l, s)
    ensures Fresh(l, Swept(l, s, now)) && now - Swept(l, s, now).lastSweep < l.window
  {
    var n := Swept(l, s, now);
    assert forall k :: k in n.windows ==> k in s.windows && n.windows[k] == s.windows[k] && LogOf(n, k) == LogOf(s, k);
  }

  lemma AllowKeepsFresh(l: Limits, s: State, key: string, now: real)
    requires Positive(l) && Fresh(l, s) && s.lastSweep <= now
    ensures Fresh(l, Allow(l, s, key, now).0) && Allow(l, s, key, now).0.lastSweep <= now
  {
    SweepKeepsFresh(l, s, now);
    var m, n := Swept(l, s, now), Allow(l, s, key, now).0;
    forall k | k in n.windows
      ensures n.lastSweep - l.window < n.windows[k].started && LogOf(n, k) != []
      ensures LogOf(n, k)[|LogOf(n, k)| - 1].started == n.windows[k].started
    {
      if k != key {
        assert k in m.windows && LogOf(n, k) == LogOf(m, k) && n.windows[k] == m.windows[k];
      }
    }
  }

  lemma {:induction false} RunKeepsFresh(l: Limits, start: real, rs: seq<Request>)
    requires Positive(l) && Monotone(start, rs)
    ensures var n := AfterAll(l, State(map[], start, map[]), rs);
            Fresh(l, n) && n.lastSweep <= if rs == [] then start else rs[|rs| - 1].now
    decreases |rs|
  {
    if rs != [] {
      var before := rs[..|rs| - 1];
      RunKeepsFresh(l, start, before);
      AllowKeepsFresh(l, AfterAll(l, State(map[], start, map[]), before), rs[|rs| - 1].key, rs[|rs| - 1].now);
    }
  }

  lemma SweptTracks(l: Limits, s: State, now: real)
    ensures Swept(l, s, now).windows.Keys == TrackedAt(l, s, now)
    ensures |Swept(l, s, now).windows| == |TrackedAt(l, s, now)|
  {
    assert |Swept(l, s, now).windows| == |Swept(l, s, now).windows.Keys|;
  }

  /** A client's window, as the table has it, is used up exactly when its log says so. */
  lemma UsedUpIsCounted(l: Limits, hits: seq<Hit>, tracked: Option<Window>, clock: real, now: real)
    requires Positive(l) && Client(l, hits, tracked, clock) && clock <= now
    ensures UsedUp(l, hits, now)
            <==> tracked.Some? && now - tracked.value.started < l.window && tracked.value.count >= l.limit
  {
    if UsedUp(l, hits, now) && tracked.Some? {
      var n, w := |hits|, tracked.value;
      assert hits[n - 1].started == w.started;
      assert hits[n - l.limit].started == w.started;
    }
  }

  lemma RefusedIn(l: Limits, s: State, clock: real, key: string, now: real)
    requires Positive(l) && Inv(l, s, clock) && clock <= now
    ensures !Allow(l, s, key, now).1
            <==> || UsedUp(l, LogOf(s, key), now)
                 || (key !in TrackedAt(l, s, now) && |TrackedAt(l, s, now)| >= l.maxClients)
  {
    SweptTracks(l, s, now);
    assert Client(l, LogOf(s, key), Lookup(s.windows, key), clock);
    UsedUpIsCounted(l, LogOf(s, key), Lookup(s.windows, key), clock, now);
  }

  /** In any run, a client is refused if and only if its window, not over, holds
      `limit` requests, or `max_clients` others are tracked and it is not; and each of
      those had a request admitted in a window that started less than two ago. */
  lemma RefusedExactlyWhen(l: Limits, start: real, rs: seq<Request>, key: string, now: real)
    requires Positive(l) && Monotone(start, rs) && (if rs == [] then start else rs[|rs| - 1].now) <= now
    ensures var s := AfterAll(l, State(map[], start, map[]), rs);
            var tracked := TrackedAt(l, s, now);
            && (!Allow(l, s, key, now).1
                <==> UsedUp(l, LogOf(s, key), now) || (key !in tracked && |tracked| >= l.maxClients))
            && (forall k :: k in tracked ==>
                  LogOf(s, k) != [] && now - 2.0 * l.window < LogOf(s, k)[|LogOf(s, k)| - 1].started)
  {
    var s := AfterAll(l, State(map[], start, map[]), rs);
    RunKeepsInv(l, start, rs);
    RunKeepsFresh(l, start, rs);
    RefusedIn(l, s, if rs == [] then start else rs[|rs| - 1].now, key, now);
  }

  function Burst(key: string, n: nat, now: real): seq<Request> {
    seq(n, (_: int) => Request(key, now))
  }

  function Logged(n: nat, now: real, started: real): seq<Hit> {
    seq(n, (_: int) => Hit(now, started))
  }

  /** Only this client is tracked, in this window, with these requests so far. */
  ghost predicate Alone(s: State, key: string, w: Window, sweep: real, hits: seq<Hit>) {
    s.windows == map[key := w] && s.lastSweep == sweep && LogOf(s, key) == hits
  }

  /** A request with room in its window. */
  lemma AllowedAgain(l: Limits, s: State, key: string, w: Window, sweep: real, hits: seq<Hit>, now: real)
    requires Positive(l) && Alone(s, key, w, sweep, hits)
    requires now - sweep < l.window && now - w.started < l.window && w.count < l.limit
    ensures Alone(Allow(l, s, key, now).0, key, Window(w.started, w.count + 1), sweep, hits + [Hit(now, w.started)])
  {
    assert key in s.windows;
    assert map[key := w][key := Window(w.started, w.count + 1)] == map[key := Window(w.started, w.count + 1)];
  }

  /** A request whose window is over, when the sweep is due. */
  lemma AllowedAnew(l: Limits, s: State, key: string, w: Window, sweep: real, hits: seq<Hit>, now: real)
    requires Positive(l) && Alone(s, key, w, sweep, hits)
    requires now - sweep >= l.window && now - w.started >= l.window
    ensures Alone(Allow(l, s, key, now).0, key, Window(now, 1), now, hits + [Hit(now, now)])
  {
    assert Swept(l, s, now).windows == map[] && |Swept(l, s, now).windows| == 0;
    assert Current(l, Swept(l, s, now), key, now) == Window(now, 0);
  }

  function FromEmpty(l: Limits, rs: seq<Request>): State {
    AfterAll(l, State(map[], 0.0, map[]), rs)
  }

  lemma OneMore(l: Limits, rs: seq<Request>, key: string, now: real)
    ensures FromEmpty(l, rs + [Request(key, now)]) == Allow(l, FromEmpty(l, rs), key, now).0
  {
    assert (rs + [Request(key, now)])[..|rs|] == rs;
  }

  lemma OneMoreOfABurst(rs: seq<Request>, key: string, n: nat, now: real, hits: seq<Hit>, started: real)
    requires n > 0
    ensures rs + Burst(key, n, now) == rs + Burst(key, n - 1, now) + [Request(key, now)]
    ensures hits + Logged(n, now, started) == hits + Logged(n - 1, now, started) + [Hit(now, started)]
  {
  }

  /** Requests that all come at once, into a window with room for them. */
  lemma {:induction false} BurstIsAllowed(l: Limits, rs: seq<Request>, key: string, n: nat, now: real,
                                          w: Window, sweep: real, hits: seq<Hit>)
    requires Positive(l) && Alone(FromEmpty(l, rs), key, w, sweep, hits)
    requires now - sweep < l.window && now - w.started < l.window && w.count + n <= l.limit
    ensures Alone(FromEmpty(l, rs + Burst(key, n, now)), key, Window(w.started, w.count + n), sweep,
                  hits + Logged(n, now, w.started))
    decreases n
  {
    if n == 0 {
      assert rs + Burst(key, n, now) == rs && hits + Logged(n, now, w.started) == hits;
    } else {
      var before, logged := rs + Burst(key, n - 1, now), hits + Logged(n - 1, now, w.started);
      OneMoreOfABurst(rs, key, n, now, hits, w.started);
      BurstIsAllowed(l, rs, key, n - 1, now, w, sweep, hits);
      OneMoreAgain(l, before, key, Window(w.started, w.count + n - 1), sweep, logged, now);
    }
  }

  lemma OneMoreAgain(l: Limits, rs: seq<Request>, key: string, w: Window, sweep: real, hits: seq<Hit>, now: real)
    requires Positive(l) && Alone(FromEmpty(l, rs), key, w, sweep, hits)
    requires now - sweep < l.window && now - w.started < l.window && w.count < l.limit
    ensures Alone(FromEmpty(l, rs + [Request(key, now)]), key, Window(w.started, w.count + 1), sweep,
                  hits + [Hit(now, w.started)])
  {
    OneMore(l, rs, key, now);
    AllowedAgain(l, FromEmpty(l, rs), key, w, sweep, hits, now);
  }

  lemma FirstRequest(l: Limits, key: string)
    requires Positive(l)
    ensures Alone(FromEmpty(l, [Request(key, 0.0)]), key, Window(0.0, 1), 0.0, [Hit(0.0, 0.0)])
  {
    assert [] + [Request(key, 0.0)] == [Request(key, 0.0)] && [] + [Hit(0.0, 0.0)] == [Hit(0.0, 0.0)];
    OneMore(l, [], key, 0.0);
    assert |FromEmpty(l, []).windows| == 0;
  }

  /** One request at 0, the rest of its window's at `half`, a window's worth when
      it is over. */
  function Crowd(l: Limits, key: string, half: real): seq<Request>
    requires Positive(l)
  {
    [Request(key, 0.0)] + Burst(key, l.limit - 1, half) + [Request(key, l.window)] + Burst(key, l.limit - 1, l.window)
  }

  lemma CrowdIsAllowed(l: Limits, key: string, half: real)
    requires Positive(l) && 0.0 < half < l.window
    ensures LogOf(FromEmpty(l, Crowd(l, key, half)), key)
            == [Hit(0.0, 0.0)] + Logged(l.limit - 1, half, 0.0)
               + [Hit(l.window, l.window)] + Logged(l.limit - 1, l.window, l.window)
  {
    FirstRequest(l, key);
    var first := [Request(key, 0.0)];
    BurstIsAllowed(l, first, key, l.limit - 1, half, Window(0.0, 1), 0.0, [Hit(0.0, 0.0)]);
    var second, hits := first + Burst(key, l.limit - 1, half), [Hit(0.0, 0.0)] + Logged(l.limit - 1, half, 0.0);
    OneMore(l, second, key, l.window);
    AllowedAnew(l, FromEmpty(l, second), key, Window(0.0, l.limit), 0.0, hits, l.window);
    BurstIsAllowed(l, second + [Request(key, l.window)], key, l.limit - 1, l.window, Window(l.window, 1), l.window,
                   hits + [Hit(l.window, l.window)]);
  }

  lemma CrowdIsMonotone(l: Limits, key: string, half: real)
    requires Positive(l) && 0.0 < half < l.window
    ensures Monotone(0.0, Crowd(l, key, half))
  {
    var rs, n := Crowd(l, key, half), l.limit;
    assert |rs| == 2 * n && rs[0].now == 0.0;
    assert forall i :: 1 <= i < n ==> rs[i].now == half;
    assert forall i :: n <= i < 2 * n ==> rs[i].now == l.window;
  }

  lemma {:induction false} SizeAtLeast(s: set<int>, lo: int, hi: int)
    requires lo <= hi && forall i :: lo <= i < hi ==> i in s
    ensures |s| >= hi - lo
    decreases hi - lo
  {
    if lo < hi {
      SizeAtLeast(s - {hi - 1}, lo, hi - 1);
    }
  }

  lemma CrowdIsWithin(l: Limits, hits: seq<Hit>, half: real)
    requires Positive(l) && 0.0 < half < l.window
    requires hits == [Hit(0.0, 0.0)] + Logged(l.limit - 1, half, 0.0)
                     + [Hit(l.window, l.window)] + Logged(l.limit - 1, l.window, l.window)
    ensures |Among(hits, half, half + l.window)| >= 2 * l.limit - 1
  {
    assert |hits| == 2 * l.limit;
    assert forall i :: 1 <= i < |hits| ==> hits[i].time == half || hits[i].time == l.window;
    SizeAtLeast(Among(hits, half, half + l.window), 1, |hits|);
  }

  /** The bound is the best there is: for every limit and window, some run admits
      2*limit - 1 requests of one client within a window's length. */
  lemma TheBoundIsReached(l: Limits, key: string) returns (rs: seq<Request>, from: real)
    requires Positive(l)
    ensures Monotone(0.0, rs)
    ensures |Among(LogOf(AfterAll(l, State(map[], 0.0, map[]), rs), key), from, from + l.window)| == 2 * l.limit - 1
  {
    from := l.window / 2.0;
    rs := Crowd(l, key, from);
    CrowdIsMonotone(l, key, from);
    CrowdIsAllowed(l, key, from);
    CrowdIsWithin(l, LogOf(FromEmpty(l, rs), key), from);
    EveryRunIsBounded(l, 0.0, rs, key, from, 0.0);
  }

  // ---------------------------------------------------------------------
  // The limiter
  // ---------------------------------------------------------------------

  class Limiter {
    const limits: Limits
    var windows: map<string, Window>
    var lastSweep: real
    ghost var log: map<string, seq<Hit>>

    constructor (limits: Limits, now: real)
      requires Positive(limits)
      ensures this.limits == limits && Now() == State(map[], now, map[])
    {
      this.limits := limits;
      windows, lastSweep, log := map[], now, map[];
    }

    ghost function Now(): State
      reads this
    {
      State(windows, lastSweep, log)
    }

    /** RateLimiter.allow, under the lock. */
    method AllowRequest(key: string, now: real) returns (allowed: bool)
      modifies this
      ensures Now() == Allow(limits, old(Now()), key, now).0
      ensures allowed == Allow(limits, old(Now()), key, now).1
    {
      if now - lastSweep >= limits.window {
        windows := map k | k in windows && now - windows[k].started < limits.window :: windows[k];
        lastSweep := now;
      }
      var started, count := now, 0;
      if key in windows {
        started, count := windows[key].started, windows[key].count;
      }
      if now - started >= limits.window {
        started, count := now, 0;
      }
      if key !in windows && |windows| >= limits.maxClients {
        return false;
      }
      if count >= limits.limit {
        return false;
      }
      windows := windows[key := Window(started, count + 1)];
      log := log[key := (if key in log then log[key] else []) + [Hit(now, started)]];
      return true;
    }
  }
}
