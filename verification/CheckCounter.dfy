/** Daily per-version check counts, buffered by each worker and flushed into one
    table (CheckCounter of services/version-check/request_limits.py). */
module CheckCounter {
  /** (day, version) */
  type Key = (int, string)

  type Counts = map<Key, nat>

  const OVERFLOW_VERSION := "unlisted"

  datatype Caps = Caps(maxVersionsPerDay: nat, alwaysCount: set<string>)

  function Count(m: Counts, k: Key): nat {
    if k in m then m[k] else 0
  }

  function Add(m: Counts, k: Key, n: nat): Counts {
    m[k := Count(m, k) + n]
  }

  ghost function Total(m: Counts): nat
    decreases |m|
  {
    if m == map[] then 0
    else
      var k :| k in m;
      Smaller(m, k);
      m[k] + Total(m - {k})
  }

  lemma Smaller(m: Counts, k: Key)
    requires k in m
    ensures |m - {k}| < |m|
  {
    assert (m - {k}).Keys == m.Keys - {k};
    assert |m.Keys - {k}| < |m.Keys|;
  }

  lemma {:induction false} TotalWithout(m: Counts, k: Key)
    requires k in m
    ensures Total(m) == m[k] + Total(m - {k})
    decreases |m|
  {
    assert m != map[];
    var picked :| picked in m && Total(m) == m[picked] + Total(m - {picked});
    if picked != k {
      Smaller(m, picked);
      TotalWithout(m - {picked}, k);
      Smaller(m, k);
      TotalWithout(m - {k}, picked);
      assert m - {picked} - {k} == m - {k} - {picked};
    }
  }

  lemma AddTotal(m: Counts, k: Key, n: nat)
    ensures Total(Add(m, k, n)) == Total(m) + n
  {
    var more := Add(m, k, n);
    TotalWithout(more, k);
    assert more - {k} == m - {k};
    if k in m {
      TotalWithout(m, k);
    } else {
      assert m - {k} == m;
    }
  }

  // ---------------------------------------------------------------------
  // A flush
  // ---------------------------------------------------------------------

  function VersionsOn(table: Counts, day: int): set<string> {
    set k | k in table && k.0 == day :: k.1
  }

  /** Where a day's count of a version goes: under its own name, or, when the day
      is full and the version neither there nor listed, under the overflow name. */
  function Landing(c: Caps, table: Counts, k: Key): Key {
    if k.1 !in VersionsOn(table, k.0) && k.1 !in c.alwaysCount && |VersionsOn(table, k.0)| >= c.maxVersionsPerDay
    then (k.0, OVERFLOW_VERSION) else k
  }

  /** The pending counts, taken in this order, added to the table. */
  function Flushed(c: Caps, table: Counts, pending: Counts, order: seq<Key>): Counts
    requires forall k :: k in order ==> k in pending
  {
    if order == [] then table
    else
      var before, k := Flushed(c, table, pending, order[..|order| - 1]), order[|order| - 1];
      Add(before, Landing(c, before, k), pending[k])
  }

  ghost predicate OrderOf(order: seq<Key>, pending: Counts) {
    && (forall k: Key :: k in order <==> k in pending)
    && forall i, j :: 0 <= i < j < |order| ==> order[i] != order[j]
  }

  lemma {:induction false} FlushKeepsTotal(c: Caps, table: Counts, pending: Counts, order: seq<Key>)
    requires OrderOf(order, pending)
    ensures Total(Flushed(c, table, pending, order)) == Total(table) + Total(pending)
    decreases |order|
  {
    if order == [] {
      assert pending == map[] by {
        assert forall k :: k !in pending;
      }
    } else {
      var start, k := order[..|order| - 1], order[|order| - 1];
      var fewer := pending - {k};
      assert forall x :: x in order <==> x in start || x == k;
      FlushKeepsTotal(c, table, fewer, start);
      SameFlush(c, table, pending, fewer, start);
      var before := Flushed(c, table, pending, start);
      AddTotal(before, Landing(c, before, k), pending[k]);
      TotalWithout(pending, k);
    }
  }

  lemma {:induction false} SameFlush(c: Caps, table: Counts, a: Counts, b: Counts, order: seq<Key>)
    requires forall k :: k in order ==> k in a && k in b && a[k] == b[k]
    ensures Flushed(c, table, a, order) == Flushed(c, table, b, order)
    decreases |order|
  {
    if order != [] {
      assert order[|order| - 1] in order;
      SameFlush(c, table, a, b, order[..|order| - 1]);
    }
  }

  lemma {:induction false} FlushKeepsListed(c: Caps, table: Counts, pending: Counts, order: seq<Key>, k: Key)
    requires k.1 in c.alwaysCount && k.1 != OVERFLOW_VERSION
    requires forall x :: x in order ==> x in pending
    requires forall i, j :: 0 <= i < j < |order| ==> order[i] != order[j]
    ensures Count(Flushed(c, table, pending, order), k) == Count(table, k) + if k in order then pending[k] else 0
    decreases |order|
  {
    if order != [] {
      var start := order[..|order| - 1];
      assert forall x :: x in order <==> x in start || x == order[|order| - 1];
      FlushKeepsListed(c, table, pending, start, k);
    }
  }

  /** The versions that count against the cap. */
  ghost predicate Capped(c: Caps, table: Counts) {
    forall day :: |AgainstCap(c, VersionsOn(table, day))| <= c.maxVersionsPerDay
  }

  ghost function AgainstCap(c: Caps, versions: set<string>): set<string> {
    versions - c.alwaysCount - {OVERFLOW_VERSION}
  }

  lemma OneMoreVersion(c: Caps, was: set<string>, v: string)
    requires |AgainstCap(c, was)| <= c.maxVersionsPerDay
    requires v in was || v in c.alwaysCount || v == OVERFLOW_VERSION || |was| < c.maxVersionsPerDay
    ensures |AgainstCap(c, was + {v})| <= c.maxVersionsPerDay
  {
    var capped := AgainstCap(c, was);
    if v in was || v in c.alwaysCount || v == OVERFLOW_VERSION {
      assert AgainstCap(c, was + {v}) == capped;
    } else {
      assert AgainstCap(c, was + {v}) == capped + {v};
      Fewer(capped, was);
    }
  }

  lemma AddKeepsCapped(c: Caps, table: Counts, k: Key, n: nat)
    requires Capped(c, table)
    ensures Capped(c, Add(table, Landing(c, table, k), n))
  {
    var to := Landing(c, table, k);
    VersionsAfterAdd(table, to, n);
    OtherDays(table, to, n);
    forall day
      ensures |AgainstCap(c, VersionsOn(Add(table, to, n), day))| <= c.maxVersionsPerDay
    {
      assert |AgainstCap(c, VersionsOn(table, day))| <= c.maxVersionsPerDay;
      if day == k.0 {
        OneMoreVersion(c, VersionsOn(table, day), to.1);
      }
    }
  }

  lemma VersionsAfterAdd(table: Counts, k: Key, n: nat)
    ensures VersionsOn(Add(table, k, n), k.0) == VersionsOn(table, k.0) + {k.1}
  {
    assert k in Add(table, k, n);
    forall v | v in VersionsOn(table, k.0) + {k.1}
      ensures v in VersionsOn(Add(table, k, n), k.0)
    {
      assert (k.0, v) in Add(table, k, n);
    }
  }

  lemma Fewer<T>(a: set<T>, b: set<T>)
    requires a <= b
    ensures |a| <= |b|
  {
    assert b == a + (b - a);
  }

  lemma {:induction false} FlushKeepsCapped(c: Caps, table: Counts, pending: Counts, order: seq<Key>)
    requires Capped(c, table) && forall k :: k in order ==> k in pending
    ensures Capped(c, Flushed(c, table, pending, order))
    decreases |order|
  {
    if order != [] {
      var k := order[|order| - 1];
      assert k in order;
      FlushKeepsCapped(c, table, pending, order[..|order| - 1]);
      AddKeepsCapped(c, Flushed(c, table, pending, order[..|order| - 1]), k, pending[k]);
    }
  }

  // ---------------------------------------------------------------------
  // Several workers
  // ---------------------------------------------------------------------

  datatype System = System(table: Counts, pending: seq<Counts>)

  datatype Event = Record(worker: nat, k: Key) | Flush(worker: nat, order: seq<Key>)

  ghost predicate Enabled(s: System, e: Event) {
    e.worker < |s.pending| && (e.Flush? ==> OrderOf(e.order, s.pending[e.worker]))
  }

  function Next(c: Caps, s: System, e: Event): System
    requires Enabled(s, e)
  {
    match e
    case Record(w, k) => s.(pending := s.pending[w := Add(s.pending[w], k, 1)])
    case Flush(w, order) => System(Flushed(c, s.table, s.pending[w], order), s.pending[w := map[]])
  }

  ghost predicate Legal(c: Caps, s: System, es: seq<Event>)
    decreases |es|
  {
    es == [] || (Enabled(s, es[0]) && Legal(c, Next(c, s, es[0]), es[1..]))
  }

  function After(c: Caps, s: System, es: seq<Event>): System
    requires Legal(c, s, es)
    decreases |es|
  {
    if es == [] then s else After(c, Next(c, s, es[0]), es[1..])
  }

  ghost function Totals(pending: seq<Counts>): nat {
    if pending == [] then 0 else Total(pending[0]) + Totals(pending[1..])
  }

  function CountsOf(pending: seq<Counts>, k: Key): nat {
    if pending == [] then 0 else Count(pending[0], k) + CountsOf(pending[1..], k)
  }

  lemma {:induction false} OneWorker(pending: seq<Counts>, w: nat, m: Counts, k: Key)
    requires w < |pending|
    ensures Totals(pending[w := m]) + Total(pending[w]) == Totals(pending) + Total(m)
    ensures CountsOf(pending[w := m], k) + Count(pending[w], k) == CountsOf(pending, k) + Count(m, k)
    decreases |pending|
  {
    if w == 0 {
      assert pending[w := m][1..] == pending[1..];
    } else {
      assert pending[w := m][1..] == pending[1..][w - 1 := m];
      OneWorker(pending[1..], w - 1, m, k);
    }
  }

  function Records(es: seq<Event>): nat {
    if es == [] then 0 else (if es[0].Record? then 1 else 0) + Records(es[1..])
  }

  function RecordsOf(es: seq<Event>, k: Key): nat {
    if es == [] then 0 else (if es[0].Record? && es[0].k == k then 1 else 0) + RecordsOf(es[1..], k)
  }

  lemma StepConserves(c: Caps, s: System, e: Event, k: Key)
    requires Enabled(s, e)
    ensures var n := Next(c, s, e);
            && Total(n.table) + Totals(n.pending) == Total(s.table) + Totals(s.pending) + (if e.Record? then 1 else 0)
            && (k.1 in c.alwaysCount && k.1 != OVERFLOW_VERSION ==>
                  Count(n.table, k) + CountsOf(n.pending, k)
                  == Count(s.table, k) + CountsOf(s.pending, k) + (if e.Record? && e.k == k then 1 else 0))
            && (Capped(c, s.table) ==> Capped(c, n.table))
  {
    match e
    case Record(w, key) =>
      AddTotal(s.pending[w], key, 1);
      OneWorker(s.pending, w, Add(s.pending[w], key, 1), k);
    case Flush(w, order) =>
      FlushKeepsTotal(c, s.table, s.pending[w], order);
      if k.1 in c.alwaysCount && k.1 != OVERFLOW_VERSION {
        FlushKeepsListed(c, s.table, s.pending[w], order, k);
      }
      if Capped(c, s.table) {
        FlushKeepsCapped(c, s.table, s.pending[w], order);
      }
      OneWorker(s.pending, w, map[], k);
  }

  /** Counts are conserved and capped. Under any interleaving of records and
      flushes by any number of workers: the table and what is pending add up to the
      number of records; a listed version's count is exactly the records of it; and
      a day never holds more than the cap, the listed versions and the overflow. */
  lemma {:induction false} CountsAreConserved(c: Caps, s: System, es: seq<Event>, k: Key)
    requires Legal(c, s, es)
    ensures var n := After(c, s, es);
            && Total(n.table) + Totals(n.pending) == Total(s.table) + Totals(s.pending) + Records(es)
            && (k.1 in c.alwaysCount && k.1 != OVERFLOW_VERSION ==>
                  Count(n.table, k) + CountsOf(n.pending, k)
                  == Count(s.table, k) + CountsOf(s.pending, k) + RecordsOf(es, k))
            && (Capped(c, s.table) ==> Capped(c, n.table))
    decreases |es|
  {
    if es != [] {
      StepConserves(c, s, es[0], k);
      CountsAreConserved(c, Next(c, s, es[0]), es[1..], k);
    }
  }

  // ---------------------------------------------------------------------
  // Which counts are exact
  // ---------------------------------------------------------------------

  /** Of this day, these are all the versions counted so far, or pending. */
  ghost predicate OnlyThese(s: System, day: int, versions: set<string>) {
    && VersionsOn(s.table, day) <= versions
    && forall w: nat, k :: w < |s.pending| && k in s.pending[w] && k.0 == day ==> k.1 in versions
  }

  /** A version that has a row, is listed, or is one of few enough for its day is
      counted under its own name. */
  ghost predicate OwnName(c: Caps, table: Counts, k: Key, versions: set<string>) {
    || k in table || k.1 in c.alwaysCount
    || (|versions| <= c.maxVersionsPerDay && VersionsOn(table, k.0) <= versions && k.1 in versions)
  }

  lemma LandsUnderItsName(c: Caps, table: Counts, k: Key, versions: set<string>)
    requires OwnName(c, table, k, versions)
    ensures Landing(c, table, k) == k
  {
    if k in table {
      assert k.1 in VersionsOn(table, k.0);
    } else if k.1 !in VersionsOn(table, k.0) && k.1 !in c.alwaysCount {
      var more := VersionsOn(table, k.0) + {k.1};
      Fewer(more, versions);
    }
  }

  lemma {:induction false} FlushIsExact(c: Caps, table: Counts, pending: Counts, order: seq<Key>, k: Key,
                                        versions: set<string>)
    requires k.1 != OVERFLOW_VERSION && (k in order ==> OwnName(c, table, k, versions))
    requires forall x :: x in order ==> x in pending && (x.0 == k.0 ==> x.1 in versions)
    requires forall i, j :: 0 <= i < j < |order| ==> order[i] != order[j]
    ensures Count(Flushed(c, table, pending, order), k) == Count(table, k) + if k in order then pending[k] else 0
    ensures k in table ==> k in Flushed(c, table, pending, order)
    ensures |versions| <= c.maxVersionsPerDay && VersionsOn(table, k.0) <= versions ==>
              VersionsOn(Flushed(c, table, pending, order), k.0) <= versions
    decreases |order|
  {
    if order != [] {
      var start, x := order[..|order| - 1], order[|order| - 1];
      assert forall y :: y in order <==> y in start || y == x;
      FlushIsExact(c, table, pending, start, k, versions);
      var before := Flushed(c, table, pending, start);
      var to := Landing(c, before, x);
      VersionsAfterAdd(before, to, pending[x]);
      OtherDays(before, to, pending[x]);
      if |versions| <= c.maxVersionsPerDay && VersionsOn(table, k.0) <= versions && x.0 == k.0 {
        LandsUnderItsName(c, before, x, versions);
      }
      if x == k {
        LandsUnderItsName(c, before, k, versions);
      }
    }
  }

  /** No more than the cap of versions are recorded on that day. */
  ghost predicate RoomFor(c: Caps, s: System, day: int, versions: set<string>) {
    |versions| <= c.maxVersionsPerDay && OnlyThese(s, day, versions)
  }

  lemma StepIsExact(c: Caps, s: System, e: Event, k: Key, versions: set<string>)
    requires Enabled(s, e) && k.1 != OVERFLOW_VERSION && (k in s.table || RoomFor(c, s, k.0, versions))
    requires e.Record? && e.k.0 == k.0 ==> e.k.1 in versions
    ensures var n := Next(c, s, e);
            && Count(n.table, k) + CountsOf(n.pending, k)
               == Count(s.table, k) + CountsOf(s.pending, k) + (if e.Record? && e.k == k then 1 else 0)
            && (k in s.table ==> k in n.table) && (RoomFor(c, s, k.0, versions) ==> RoomFor(c, n, k.0, versions))
  {
    match e
    case Record(w, key) =>
      OneWorker(s.pending, w, Add(s.pending[w], key, 1), k);
    case Flush(w, order) =>
      var all := if RoomFor(c, s, k.0, versions) then versions else set x | x in order :: x.1;
      FlushIsExact(c, s.table, s.pending[w], order, k, all);
      OneWorker(s.pending, w, map[], k);
  }

  /** An unlisted version is counted exactly, under its own name: once it has a row
      for its day, and, before, as long as no more than the cap of versions are
      recorded on that day. */
  lemma {:induction false} UnlistedCountsAreExact(c: Caps, s: System, es: seq<Event>, k: Key, versions: set<string>)
    requires Legal(c, s, es) && k.1 != OVERFLOW_VERSION
    requires k in s.table || (|versions| <= c.maxVersionsPerDay && OnlyThese(s, k.0, versions))
    requires forall i :: 0 <= i < |es| && es[i].Record? && es[i].k.0 == k.0 ==> es[i].k.1 in versions
    ensures var n := After(c, s, es);
            Count(n.table, k) + CountsOf(n.pending, k) == Count(s.table, k) + CountsOf(s.pending, k) + RecordsOf(es, k)
    decreases |es|
  {
    if es != [] {
      assert forall i :: 0 <= i < |es[1..]| ==> es[1..][i] == es[i + 1];
      StepIsExact(c, s, es[0], k, versions);
      UnlistedCountsAreExact(c, Next(c, s, es[0]), es[1..], k, versions);
    }
  }

  lemma ADayIsBounded(c: Caps, table: Counts, day: int)
    requires Capped(c, table)
    ensures |VersionsOn(table, day)| <= c.maxVersionsPerDay + |c.alwaysCount| + 1
  {
    var all := VersionsOn(table, day);
    var capped := AgainstCap(c, all);
    Fewer(all, capped + c.alwaysCount + {OVERFLOW_VERSION});
    assert |capped + c.alwaysCount| <= |capped| + |c.alwaysCount|;
    assert |capped + c.alwaysCount + {OVERFLOW_VERSION}| <= |capped + c.alwaysCount| + 1;
  }

  // ---------------------------------------------------------------------
  // A worker's counter
  // ---------------------------------------------------------------------

  /** The table all workers share. */
  class Database {
    var table: Counts
  }

  class Counter {
    const caps: Caps
    const db: Database
    const flushInterval: int
    const maxPending: nat
    var pending: Counts
    var lastFlush: int

    constructor (caps: Caps, db: Database, flushInterval: int, maxPending: nat, now: int)
      ensures this.caps == caps && this.db == db && pending == map[] && lastFlush == now
      ensures this.flushInterval == flushInterval && this.maxPending == maxPending
    {
      this.caps, this.db, this.flushInterval, this.maxPending := caps, db, flushInterval, maxPending;
      pending, lastFlush := map[], now;
    }

    /** CheckCounter.record. */
    method RecordCheck(day: int, version: string, now: int)
      modifies this, db
      ensures var full := Add(old(pending), (day, version), 1);
              if |full| >= maxPending || now - old(lastFlush) >= flushInterval then
                && pending == map[] && lastFlush == now
                && exists order :: OrderOf(order, full) && db.table == Flushed(caps, old(db.table), full, order)
              else pending == full && db.table == old(db.table) && lastFlush == old(lastFlush)
    {
      pending := Add(pending, (day, version), 1);
      var due := |pending| >= maxPending || now - lastFlush >= flushInterval;
      if due {
        ghost var full := pending;
        ghost var order := FlushPending(now);
        assert OrderOf(order, full);
      }
    }

    /** CheckCounter.flush in one write transaction. The counts are gathered
        first, against the versions each day holds, and inserted at the end. */
    method FlushPending(now: int) returns (ghost order: seq<Key>)
      modifies this, db
      ensures pending == map[] && lastFlush == now
      ensures OrderOf(order, old(pending))
      ensures db.table == Flushed(caps, old(db.table), old(pending), order)
    {
      var todo := pending;
      pending, lastFlush := map[], now;
      var merged;
      merged, order := Gather(caps, db.table, todo);
      db.table := Inserted(db.table, merged);
    }
  }

  /** The versions each day holds, as far as the flush has looked them up. */
  ghost predicate KnownOk(table: Counts, merged: Counts, known: map<int, set<string>>) {
    && (forall d :: d in known ==> known[d] == VersionsOn(Inserted(table, merged), d))
    && forall k :: k in merged ==> k.0 in known
  }

  method Gather(caps: Caps, table: Counts, todo: Counts) returns (merged: Counts, ghost order: seq<Key>)
    ensures OrderOf(order, todo) && Inserted(table, merged) == Flushed(caps, table, todo, order)
  {
    order, merged := [], map[];
    var known: map<int, set<string>> := map[];
    var left := todo.Keys;
    assert Inserted(table, merged) == table;
    while left != {}
      invariant left <= todo.Keys && Takes(order, todo.Keys - left)
      invariant Inserted(table, merged) == Flushed(caps, table, todo, order)
      invariant KnownOk(table, merged, known)
      decreases left
    {
      var k :| k in left;
      known, merged := GatherOne(caps, table, known, merged, k, todo[k]);
      FlushedNext(caps, table, todo, order, k);
      TakesNext(order, todo.Keys - left, k);
      order, left := order + [k], left - {k};
      assert todo.Keys - left == (todo.Keys - left - {k}) + {k};
    }
  }

  ghost predicate Takes(order: seq<Key>, keys: set<Key>) {
    (forall k :: k in order <==> k in keys) && forall i, j :: 0 <= i < j < |order| ==> order[i] != order[j]
  }

  lemma TakesNext(order: seq<Key>, keys: set<Key>, k: Key)
    requires Takes(order, keys) && k !in keys
    ensures Takes(order + [k], keys + {k})
  {
  }

  lemma FlushedNext(c: Caps, table: Counts, pending: Counts, order: seq<Key>, k: Key)
    requires k in pending && forall x :: x in order ==> x in pending
    ensures var before := Flushed(c, table, pending, order);
            Flushed(c, table, pending, order + [k]) == Add(before, Landing(c, before, k), pending[k])
  {
    assert (order + [k])[..|order|] == order;
  }

  method GatherOne(caps: Caps, table: Counts, known0: map<int, set<string>>, merged0: Counts, k: Key, n: nat)
    returns (known: map<int, set<string>>, merged: Counts)
    requires KnownOk(table, merged0, known0)
    ensures KnownOk(table, merged, known)
    ensures Inserted(table, merged) == Add(Inserted(table, merged0), Landing(caps, Inserted(table, merged0), k), n)
  {
    known := known0;
    if k.0 !in known {
      UnseenDay(table, merged0, known0, k.0);
      known := known[k.0 := VersionsOn(table, k.0)];
    }
    var to := k;
    if k.1 !in known[k.0] && k.1 !in caps.alwaysCount && |known[k.0]| >= caps.maxVersionsPerDay {
      to := (k.0, OVERFLOW_VERSION);
    }
    KnownNext(table, merged0, known, to, n);
    known, merged := known[k.0 := known[k.0] + {to.1}], Add(merged0, to, n);
  }

  lemma KnownNext(table: Counts, merged: Counts, known: map<int, set<string>>, to: Key, n: nat)
    requires KnownOk(table, merged, known) && to.0 in known
    ensures Inserted(table, Add(merged, to, n)) == Add(Inserted(table, merged), to, n)
    ensures KnownOk(table, Add(merged, to, n), known[to.0 := known[to.0] + {to.1}])
  {
    var running := Inserted(table, merged);
    InsertedAdd(table, merged, to, n);
    VersionsAfterAdd(running, to, n);
    OtherDays(running, to, n);
  }

  lemma UnseenDay(table: Counts, merged: Counts, known: map<int, set<string>>, day: int)
    requires KnownOk(table, merged, known) && day !in known
    ensures VersionsOn(Inserted(table, merged), day) == VersionsOn(table, day)
  {
    forall v | v in VersionsOn(table, day)
      ensures v in VersionsOn(Inserted(table, merged), day)
    {
      assert (day, v) in table;
      assert (day, v) in Inserted(table, merged);
    }
  }

  /** INSERT ... ON CONFLICT DO UPDATE SET count = count + excluded.count. */
  function Inserted(table: Counts, merged: Counts): Counts {
    map k | k in table.Keys + merged.Keys :: Count(table, k) + Count(merged, k)
  }

  lemma InsertedAdd(table: Counts, merged: Counts, k: Key, n: nat)
    ensures Inserted(table, Add(merged, k, n)) == Add(Inserted(table, merged), k, n)
  {
  }

  lemma OtherDays(table: Counts, k: Key, n: nat)
    ensures forall d :: d != k.0 ==> VersionsOn(Add(table, k, n), d) == VersionsOn(table, d)
  {
  }
}
