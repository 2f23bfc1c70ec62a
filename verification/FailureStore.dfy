/** Upgrade-failure reports (services/version-check/failure_store.py). The table
    is a sequence of rows, each transaction one operation on it, times seconds. */
module FailureStore {
  import opened Options

  datatype Row = Row(version: string, at: int, reporter: Option<string>)

  const REPORT_WINDOW := 6 * 3600
  const RETENTION := 90 * 24 * 3600

  // ---------------------------------------------------------------------
  // The transactions
  // ---------------------------------------------------------------------

  predicate Duplicates(row: Row, version: string, reporter: string, now: int) {
    row.reporter == Some(reporter) && row.version == version && row.at > now - REPORT_WINDOW
  }

  function Recorded(rows: seq<Row>, version: string, reporter: string, now: int): seq<Row> {
    if exists i :: 0 <= i < |rows| && Duplicates(rows[i], version, reporter, now) then rows
    else rows + [Row(version, now, Some(reporter))]
  }

  /** Forget reporters outside the window, then drop reports past retention. */
  function Swept(rows: seq<Row>, now: int): seq<Row> {
    if rows == [] then []
    else
      var row := rows[0];
      (if row.at <= now - RETENTION then []
       else [if row.at <= now - REPORT_WINDOW then row.(reporter := None) else row]) + Swept(rows[1..], now)
  }

  predicate Counts(row: Row, version: string, now: int) {
    row.version == version && row.at > now - REPORT_WINDOW
  }

  function Recent(rows: seq<Row>, version: string, now: int): seq<Row> {
    if rows == [] then []
    else (if Counts(rows[0], version, now) then [rows[0]] else []) + Recent(rows[1..], version, now)
  }

  // ---------------------------------------------------------------------
  // One report per reporter
  // ---------------------------------------------------------------------

  predicate FarApart(a: Row, b: Row) {
    a.reporter.Some? && a.reporter == b.reporter && a.version == b.version
    ==> a.at + REPORT_WINDOW <= b.at || b.at + REPORT_WINDOW <= a.at
  }

  predicate Known(row: Row, latest: int) {
    row.at <= latest && (row.reporter.None? ==> row.at + REPORT_WINDOW <= latest)
  }

  /** Two reports a reporter still owns are a window apart; a reporter was only
      forgotten once outside the window. `latest` is the latest time used so far. */
  ghost predicate Inv(rows: seq<Row>, latest: int) {
    && (forall i :: 0 <= i < |rows| ==> Known(rows[i], latest))
    && forall i, j :: 0 <= i < j < |rows| ==> FarApart(rows[i], rows[j])
  }

  datatype Event = Record(version: string, reporter: string, now: int) | Sweep(now: int)

  function After(rows: seq<Row>, e: Event): seq<Row> {
    match e
    case Record(version, reporter, now) => Recorded(rows, version, reporter, now)
    case Sweep(now) => Swept(rows, now)
  }

  function AfterAll(rows: seq<Row>, es: seq<Event>): seq<Row> {
    if es == [] then rows else After(AfterAll(rows, es[..|es| - 1]), es[|es| - 1])
  }

  lemma {:induction false} SweptRow(rows: seq<Row>, now: int, i: nat) returns (j: nat)
    requires i < |Swept(rows, now)|
    ensures j < |rows| && i <= j
    ensures Swept(rows, now)[i] == rows[j]
            || (rows[j].at <= now - REPORT_WINDOW && Swept(rows, now)[i] == rows[j].(reporter := None))
  {
    if rows[0].at <= now - RETENTION {
      j := SweptRow(rows[1..], now, i);
      j := j + 1;
    } else if i == 0 {
      j := 0;
    } else {
      j := SweptRow(rows[1..], now, i - 1);
      j := j + 1;
    }
  }

  lemma {:induction false} SweepKeepsInv(rows: seq<Row>, latest: int, now: int)
    requires Inv(rows, latest) && now <= latest
    ensures Inv(Swept(rows, now), latest)
  {
    if rows != [] {
      var rest := Swept(rows[1..], now);
      assert forall i :: 0 <= i < |rows[1..]| ==> rows[1..][i] == rows[i + 1];
      SweepKeepsInv(rows[1..], latest, now);
      if rows[0].at > now - RETENTION {
        var first := if rows[0].at <= now - REPORT_WINDOW then rows[0].(reporter := None) else rows[0];
        assert Known(rows[0], latest);
        forall i | 0 <= i < |rest|
          ensures FarApart(first, rest[i])
        {
          var j := SweptRow(rows[1..], now, i);
          assert FarApart(rows[0], rows[j + 1]);
        }
      }
    }
  }

  lemma RecordKeepsInv(rows: seq<Row>, latest: int, version: string, reporter: string, now: int)
    requires Inv(rows, latest) && now <= latest
    ensures Inv(Recorded(rows, version, reporter, now), latest)
  {
    var row := Row(version, now, Some(reporter));
    forall i | 0 <= i < |rows| && !Duplicates(rows[i], version, reporter, now)
      ensures FarApart(rows[i], row)
    {
    }
  }

  lemma {:induction false} RunKeepsInv(es: seq<Event>, latest: int)
    requires forall i :: 0 <= i < |es| ==> es[i].now <= latest
    ensures Inv(AfterAll([], es), latest)
    decreases |es|
  {
    if es != [] {
      var before, last := es[..|es| - 1], es[|es| - 1];
      assert forall i :: 0 <= i < |before| ==> before[i] == es[i];
      RunKeepsInv(before, latest);
      match last
      case Record(version, reporter, now) => RecordKeepsInv(AfterAll([], before), latest, version, reporter, now);
      case Sweep(now) => SweepKeepsInv(AfterAll([], before), latest, now);
    }
  }

  /** What a sweep at `now` is for: no reporter is known outside the window, nothing
      past retention is left. And what it must not change: how many reports of a
      version there are since any time after that, and those still in the window. */
  lemma {:induction false} SweepForgetsAndExpires(rows: seq<Row>, now: int, version: string, later: int)
    requires now - RETENTION <= later - REPORT_WINDOW
    ensures forall r :: r in Swept(rows, now) ==>
              now - RETENTION < r.at && (r.reporter.Some? ==> now - REPORT_WINDOW < r.at)
    ensures |Recent(Swept(rows, now), version, later)| == |Recent(rows, version, later)|
    ensures now <= later ==> Recent(Swept(rows, now), version, later) == Recent(rows, version, later)
    decreases |rows|
  {
    if rows != [] {
      SweepForgetsAndExpires(rows[1..], now, version, later);
      var rest := Swept(rows[1..], now);
      if rows[0].at <= now - RETENTION {
        assert Swept(rows, now) == rest;
      } else {
        assert Swept(rows, now)[1..] == rest;
      }
    }
  }

  function Reporters(rows: seq<Row>): set<Option<string>> {
    set r | r in rows :: r.reporter
  }

  lemma {:induction false} RecentRow(rows: seq<Row>, version: string, now: int, r: Row)
    ensures r in Recent(rows, version, now) <==> r in rows && Counts(r, version, now)
  {
    if rows != [] {
      RecentRow(rows[1..], version, now, r);
    }
  }

  lemma {:induction false} RecentAreDistinct(rows: seq<Row>, version: string, now: int)
    requires Inv(rows, now)
    ensures |Recent(rows, version, now)| == |Reporters(Recent(rows, version, now))|
    ensures None !in Reporters(Recent(rows, version, now))
  {
    if rows != [] {
      var first, rest := rows[0], Recent(rows[1..], version, now);
      assert forall i :: 0 <= i < |rows[1..]| ==> rows[1..][i] == rows[i + 1];
      RecentAreDistinct(rows[1..], version, now);
      assert Known(first, now);
      if Counts(first, version, now) {
        forall r | r in rest
          ensures r.reporter != first.reporter
        {
          RecentRow(rows[1..], version, now, r);
          var j :| 0 <= j < |rows[1..]| && rows[1..][j] == r;
          assert FarApart(first, rows[j + 1]) && Known(rows[j + 1], now);
        }
        assert Reporters([first] + rest) == {first.reporter} + Reporters(rest);
        assert first.reporter !in Reporters(rest);
      } else {
        assert [] + rest == rest;
      }
    }
  }

  /** One report per reporter. From an empty table, after any reports and sweeps
      whose clocks may disagree, at any time not before any of theirs: every report
      count_recent counts has a reporter, no two the same, so the count is the
      number of distinct reporters counted. */
  lemma OneReportPerReporter(es: seq<Event>, version: string, now: int)
    requires forall i :: 0 <= i < |es| ==> es[i].now <= now
    ensures var counted := Recent(AfterAll([], es), version, now);
            && None !in Reporters(counted) && |counted| == |Reporters(counted)|
            && forall r :: r in counted ==> r.version == version && now - REPORT_WINDOW < r.at <= now
  {
    RunKeepsInv(es, now);
    var rows := AfterAll([], es);
    RecentAreDistinct(rows, version, now);
    forall r | r in Recent(rows, version, now)
      ensures r.version == version && now - REPORT_WINDOW < r.at <= now
    {
      RecentRow(rows, version, now, r);
      var i :| 0 <= i < |rows| && rows[i] == r;
      assert Known(rows[i], now);
    }
  }

  // ---------------------------------------------------------------------
  // Exactly which reporters go uncounted
  // ---------------------------------------------------------------------

  predicate Reports(e: Event, version: string, reporter: string) {
    e.Record? && e.version == version && e.reporter == reporter
  }

  /** The i-th event is a report of this reporter within the window before `now`. */
  predicate ReportedAt(es: seq<Event>, i: nat, version: string, reporter: string, now: int) {
    i < |es| && Reports(es[i], version, reporter) && now - REPORT_WINDOW < es[i].now
  }

  /** record_failure did not store it. */
  predicate RefusedAt(es: seq<Event>, i: nat)
    requires i < |es|
  {
    AfterAll([], es[..i + 1]) == AfterAll([], es[..i])
  }

  ghost predicate Owns(row: Row, version: string, reporter: string, now: int) {
    Counts(row, version, now) && row.reporter == Some(reporter)
  }

  /** Some report of this reporter is counted. */
  ghost predicate Counted(rows: seq<Row>, version: string, reporter: string, now: int) {
    exists r :: r in Recent(rows, version, now) && r.reporter == Some(reporter)
  }

  ghost predicate HasOne(rows: seq<Row>, version: string, reporter: string, now: int) {
    exists r :: r in rows && Owns(r, version, reporter, now)
  }

  lemma CountedIsHavingOne(rows: seq<Row>, version: string, reporter: string, now: int)
    ensures Counted(rows, version, reporter, now) <==> HasOne(rows, version, reporter, now)
  {
    if HasOne(rows, version, reporter, now) {
      var r :| r in rows && Owns(r, version, reporter, now);
      RecentRow(rows, version, now, r);
    }
    if Counted(rows, version, reporter, now) {
      var r :| r in Recent(rows, version, now) && r.reporter == Some(reporter);
      RecentRow(rows, version, now, r);
    }
  }

  /** A sweep drops or forgets no row within the window of a later time. */
  lemma {:induction false} SweepKeepsRecent(rows: seq<Row>, s: int, version: string, reporter: string, now: int, r: Row)
    requires s <= now && Owns(r, version, reporter, now)
    ensures r in Swept(rows, s) <==> r in rows
  {
    if rows != [] {
      SweepKeepsRecent(rows[1..], s, version, reporter, now, r);
    }
  }

  lemma OneEvent(rows: seq<Row>, e: Event, version: string, reporter: string, now: int)
    requires e.now <= now
    ensures HasOne(After(rows, e), version, reporter, now)
            <==> HasOne(rows, version, reporter, now)
                 || (Reports(e, version, reporter) && now - REPORT_WINDOW < e.now && After(rows, e) != rows)
  {
    var n := After(rows, e);
    match e {
      case Record(v, who, t) =>
        var row := Row(v, t, Some(who));
        assert n == rows || n == rows + [row];
        assert forall r :: r in rows ==> r in n;
        if n != rows {
          assert |n| == |rows| + 1 && n[|rows|] == row && row in n;
          if Reports(e, version, reporter) && now - REPORT_WINDOW < t {
            assert Owns(row, version, reporter, now);
          }
        }
      case Sweep(s) =>
        forall r | Owns(r, version, reporter, now)
          ensures r in n <==> r in rows
        {
          SweepKeepsRecent(rows, s, version, reporter, now, r);
        }
    }
  }

  ghost predicate SomeStored(es: seq<Event>, version: string, reporter: string, now: int) {
    exists i: nat :: ReportedAt(es, i, version, reporter, now) && !RefusedAt(es, i)
  }

  lemma EarlierAlike(es: seq<Event>, i: nat, version: string, reporter: string, now: int)
    requires es != [] && i < |es| - 1
    ensures var before := es[..|es| - 1];
            && RefusedAt(es, i) == RefusedAt(before, i)
            && ReportedAt(es, i, version, reporter, now) == ReportedAt(before, i, version, reporter, now)
  {
    var before := es[..|es| - 1];
    assert before[..i + 1] == es[..i + 1] && before[..i] == es[..i];
  }

  lemma StoredOneMore(es: seq<Event>, version: string, reporter: string, now: int)
    requires es != []
    ensures var n, before := |es| - 1, es[..|es| - 1];
            SomeStored(es, version, reporter, now)
            <==> SomeStored(before, version, reporter, now)
                 || (ReportedAt(es, n, version, reporter, now) && !RefusedAt(es, n))
  {
    var before := es[..|es| - 1];
    if SomeStored(before, version, reporter, now) {
      var i: nat :| ReportedAt(before, i, version, reporter, now) && !RefusedAt(before, i);
      EarlierAlike(es, i, version, reporter, now);
    }
    if SomeStored(es, version, reporter, now) {
      var i: nat :| ReportedAt(es, i, version, reporter, now) && !RefusedAt(es, i);
      if i < |es| - 1 {
        EarlierAlike(es, i, version, reporter, now);
      }
    }
  }

  lemma {:induction false} CountedExactlyWhenStored(es: seq<Event>, version: string, reporter: string, now: int)
    requires forall i :: 0 <= i < |es| ==> es[i].now <= now
    ensures HasOne(AfterAll([], es), version, reporter, now) <==> SomeStored(es, version, reporter, now)
    decreases |es|
  {
    if es != [] {
      var before := es[..|es| - 1];
      assert forall i :: 0 <= i < |before| ==> before[i] == es[i];
      CountedExactlyWhenStored(before, version, reporter, now);
      StoredOneMore(es, version, reporter, now);
      assert es[..|es| - 1 + 1] == es;
      OneEvent(AfterAll([], before), es[|es| - 1], version, reporter, now);
    }
  }

  /** Over any reports and sweeps, whose clocks may disagree: a reporter goes
      uncounted if and only if every report of theirs in the window was refused. */
  lemma UncountedExactlyWhenAllRefused(es: seq<Event>, version: string, reporter: string, now: int)
    requires forall i :: 0 <= i < |es| ==> es[i].now <= now
    ensures !Counted(AfterAll([], es), version, reporter, now)
            <==> forall i: nat :: ReportedAt(es, i, version, reporter, now) ==> RefusedAt(es, i)
  {
    CountedIsHavingOne(AfterAll([], es), version, reporter, now);
    CountedExactlyWhenStored(es, version, reporter, now);
    assert SomeStored(es, version, reporter, now)
           <==> !(forall i: nat :: ReportedAt(es, i, version, reporter, now) ==> RefusedAt(es, i));
  }

  /** The time of the last report stored, by the reporter's own times alone: each
      report starts a window, and those within it are refused. */
  function LastStored(es: seq<Event>, version: string, reporter: string): Option<int> {
    if es == [] then None
    else
      var last, a := es[|es| - 1], LastStored(es[..|es| - 1], version, reporter);
      if Reports(last, version, reporter) && (a.None? || a.value + REPORT_WINDOW <= last.now) then Some(last.now) else a
  }

  predicate InTimeOrder(es: seq<Event>) {
    forall i, j :: 0 <= i <= j < |es| ==> es[i].now <= es[j].now
  }

  /** `a` is the reporter's latest row, and it is there while within its window. */
  ghost predicate Follows(rows: seq<Row>, version: string, reporter: string, a: Option<int>, latest: int) {
    && (forall r :: r in rows && r.version == version && r.reporter == Some(reporter) ==> a.Some? && r.at <= a.value)
    && (a.Some? && a.value > latest - REPORT_WINDOW ==> Row(version, a.value, Some(reporter)) in rows)
    && (a.Some? ==> a.value <= latest)
  }

  lemma {:induction false} SweptIsOlder(rows: seq<Row>, s: int, r: Row)
    requires r in Swept(rows, s) && r.reporter.Some?
    ensures r in rows
  {
    if r !in Swept(rows[1..], s) {
      assert r == rows[0];
    } else {
      SweptIsOlder(rows[1..], s, r);
    }
  }

  lemma FollowsOn(rows: seq<Row>, e: Event, version: string, reporter: string, a: Option<int>, latest: int)
    requires Follows(rows, version, reporter, a, latest) && latest <= e.now
    ensures var starts := Reports(e, version, reporter) && (a.None? || a.value + REPORT_WINDOW <= e.now);
            var b := if starts then Some(e.now) else a;
            Follows(After(rows, e), version, reporter, b, e.now)
  {
    var mine := Row(version, if a.Some? then a.value else 0, Some(reporter));
    match e {
      case Record(v, who, t) =>
        var row := Row(v, t, Some(who));
        if Reports(e, version, reporter) {
          if a.Some? && t < a.value + REPORT_WINDOW {
            assert mine in rows && Duplicates(mine, version, reporter, t);
            assert After(rows, e) == rows;
          } else {
            assert forall i :: 0 <= i < |rows| ==> rows[i] in rows && !Duplicates(rows[i], v, who, t);
            assert After(rows, e) == rows + [row];
          }
        } else {
          assert After(rows, e) == rows || After(rows, e) == rows + [row];
        }
      case Sweep(s) =>
        forall r | r in Swept(rows, s) && r.version == version && r.reporter == Some(reporter)
          ensures a.Some? && r.at <= a.value
        {
          SweptIsOlder(rows, s, r);
        }
        if a.Some? && a.value > s - REPORT_WINDOW {
          SweepKeepsRecent(rows, s, version, reporter, s, mine);
        }
    }
  }

  lemma {:induction false} RunFollows(es: seq<Event>, version: string, reporter: string, start: int)
    requires InTimeOrder(es) && (es != [] ==> start <= es[0].now)
    ensures Follows(AfterAll([], es), version, reporter, LastStored(es, version, reporter),
                    if es == [] then start else es[|es| - 1].now)
    decreases |es|
  {
    if es != [] {
      var before, last := es[..|es| - 1], es[|es| - 1];
      RunFollows(before, version, reporter, start);
      FollowsOn(AfterAll([], before), last, version, reporter, LastStored(before, version, reporter),
                if before == [] then start else before[|before| - 1].now);
    }
  }

  /** With times in order, that depends on the reporter's own times alone: whether
      the last of their reports to start a window started it within the one asked
      about. */
  lemma CountedExactlyWhenAWindowStartedInTime(es: seq<Event>, version: string, reporter: string, now: int)
    requires InTimeOrder(es) && (es != [] ==> es[|es| - 1].now <= now)
    ensures var a := LastStored(es, version, reporter);
            Counted(AfterAll([], es), version, reporter, now) <==> a.Some? && now - REPORT_WINDOW < a.value
  {
    var rows, a := AfterAll([], es), LastStored(es, version, reporter);
    RunFollows(es, version, reporter, if es == [] then now else es[0].now);
    CountedIsHavingOne(rows, version, reporter, now);
    if a.Some? && now - REPORT_WINDOW < a.value {
      assert Owns(Row(version, a.value, Some(reporter)), version, reporter, now);
    }
  }

  /** So a reporter who reported a second before `now` can be counted as none. */
  lemma ARefusedReportCanGoUncounted(version: string, reporter: string)
    ensures var es := [Record(version, reporter, 0), Record(version, reporter, REPORT_WINDOW - 1)];
            !Counted(AfterAll([], es), version, reporter, REPORT_WINDOW)
  {
    var first := [Record(version, reporter, 0)];
    var es := first + [Record(version, reporter, REPORT_WINDOW - 1)];
    assert first[..0] == [] && es[..1] == first;
    assert LastStored(first, version, reporter) == Some(0);
    CountedExactlyWhenAWindowStartedInTime(es, version, reporter, REPORT_WINDOW);
  }

  // ---------------------------------------------------------------------
  // The store
  // ---------------------------------------------------------------------

  class Failures {
    var rows: seq<Row>

    /** failure_store.record_failure: the check and the insert in one transaction. */
    method RecordFailure(version: string, reporter: string, now: int) returns (stored: bool)
      modifies this
      ensures rows == Recorded(old(rows), version, reporter, now)
      ensures stored <==> rows != old(rows)
    {
      for i := 0 to |rows|
        invariant rows == old(rows) && forall j :: 0 <= j < i ==> !Duplicates(rows[j], version, reporter, now)
      {
        if Duplicates(rows[i], version, reporter, now) {
          return false;
        }
      }
      rows := rows + [Row(version, now, Some(reporter))];
      assert |rows| == |old(rows)| + 1;
      return true;
    }

    /** failure_store.sweep: forget, then expire, in one transaction. */
    method SweepRows(now: int)
      modifies this
      ensures rows == Swept(old(rows), now)
    {
      var kept := [];
      for i := |rows| downto 0
        invariant rows == old(rows) && kept == Swept(rows[i..], now)
      {
        assert rows[i..][0] == rows[i] && rows[i..][1..] == rows[i + 1..];
        var row := rows[i];
        if row.at <= now - REPORT_WINDOW {
          row := row.(reporter := None);
        }
        if row.at > now - RETENTION {
          kept := [row] + kept;
        } else {
          assert [] + kept == kept;
        }
      }
      assert rows[0..] == rows;
      rows := kept;
    }

    method CountRecent(version: string, now: int) returns (count: nat)
      ensures count == |Recent(rows, version, now)|
    {
      count := 0;
      for i := |rows| downto 0
        invariant count == |Recent(rows[i..], version, now)|
      {
        assert rows[i..][0] == rows[i] && rows[i..][1..] == rows[i + 1..];
        if Counts(rows[i], version, now) {
          count := count + 1;
        }
      }
      assert rows[0..] == rows;
    }
  }
}
