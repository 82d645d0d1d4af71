/**
 * `GetMatchScheduletoday`: the daily discovery job. It fetches today's
 * schedule page, extracts the match tuples and, when there are any,
 * inserts each match followed by its placeholder score row. The first
 * failure ends the run; nothing is retried and nothing is checked for
 * duplicates.
 */
module Daily {
  import opened Results
  import opened Calendar
  import opened Store
  import opened Schedule
  import opened Jobs

  const SchedulePrefix: string := "https://baseball.yahoo.co.jp/npb/schedule/?date="

  /** The schedule page of a day: the prefix, then the date as `YYYY-MM-DD`. */
  function ScheduleUrl(today: Date): (r: string)
    requires ValidDate(today)
    ensures |r| == |SchedulePrefix| + 10 && r[..|SchedulePrefix|] == SchedulePrefix
    ensures ParseDate(r[|SchedulePrefix|..], '-') == Some(today)
  {
    var r := SchedulePrefix + FormatDate(today, '-');
    assert r[|SchedulePrefix|..] == FormatDate(today, '-');
    ParseFormatDate(today, '-');
    r
  }

  /** The `matches` insert of a tuple: fields 0, 1, 2, 3, 5, 6 and 7; the
      `.bb-score__link` text in field 4 is not stored. */
  function MatchInsert(t: MatchTuple): Insert
  {
    IntoMatches(t.date, t.home, t.away, t.stadium, t.starttime, t.link, t.league)
  }

  /** The row a tuple becomes when the store assigns it `id`. */
  function RowFor(id: int, t: MatchTuple): MatchRow
  {
    MatchRow(id, t.date, t.home, t.away, t.stadium, t.starttime, t.link, t.league)
  }

  /** One round of the insert loop: the tuple's `matches` insert and, if
      that succeeded, its `scores` insert. */
  function InsertRound(st: Store, t: MatchTuple, f1: ExecFault, f2: ExecFault): Round
  {
    var e1 := InsertData(st, MatchInsert(t), f1);
    var ev1 := WriteEvents(f1, e1, InsertMatch(RowFor(st.lastMatchId + 1, t)));
    if e1.err.Some? then Round(e1.store, ev1, false)
    else
      var e2 := InsertData(e1.store, IntoScores(e1.n), f2);
      Round(e2.store, ev1 + WriteEvents(f2, e2, InsertScore(e1.n)), e2.err.None?)
  }

  /** The insert loop over `ts`, whose writes meet faults from index `k` on. */
  function InsertAll(st: Store, ts: seq<MatchTuple>, faults: Faults, k: nat): Run
    decreases |ts|
  {
    if |ts| == 0 then Run(st, [])
    else
      var r := InsertRound(st, ts[0], ExecAt(faults, k), ExecAt(faults, k + 1));
      if !r.ok then Run(r.store, r.events)
      else
        var rest := InsertAll(r.store, ts[1..], faults, k + 2);
        Run(rest.store, r.events + rest.trace)
  }

  /** The discovery job for the day `today`, with the page fetch injected
      as `net`. */
  function GetMatchScheduletoday(st: Store, today: Date, net: string -> Fetch<SchedulePage>, faults: Faults): (r: Run)
    requires ValidDate(today)
    ensures |r.trace| > 0 && r.trace[0] == FetchPage(ScheduleUrl(today))
    ensures r.store != st ==> |r.trace| > 1 && r.trace[1] == Connect
  {
    var url := ScheduleUrl(today);
    match net(url)
    case UrlError(c) => Run(st, [FetchPage(url), Fail(UrlFailed(c))])
    case BodyError(c) => Run(st, [FetchPage(url), Fail(BodyFailed(c))])
    case Page(doc) =>
      var ts := GetMatchSchedule(doc, today);
      if |ts| == 0 then Run(st, [FetchPage(url)])
      else
        match faults.connect
        case Some(c) => Run(st, [FetchPage(url), Fail(ConnectFailed(c))])
        case None =>
          var r := InsertAll(st, ts, faults, 0);
          Run(r.store, [FetchPage(url), Connect] + r.trace)
  }

  /** The writes of a fault-free insert loop: for each tuple in order, its
      `matches` row under the next id, then a placeholder score row for that
      id. */
  function Expected(base: int, ts: seq<MatchTuple>): (r: seq<Event>)
    ensures |r| == 2 * |ts|
  {
    seq(2 * |ts|, j requires 0 <= j < 2 * |ts| =>
      if j % 2 == 0 then InsertMatch(RowFor(base + j / 2 + 1, ts[j / 2])) else InsertScore(base + j / 2 + 1))
  }

  /** The rows a fault-free loop appends to `matches`. */
  function NewRows(base: int, ts: seq<MatchTuple>): (r: seq<MatchRow>)
    ensures |r| == |ts| && forall i :: 0 <= i < |ts| ==> r[i] == RowFor(base + i + 1, ts[i])
  {
    seq(|ts|, i requires 0 <= i < |ts| => RowFor(base + i + 1, ts[i]))
  }

  /** The placeholder rows a fault-free loop appends to `scores`. */
  function NewScores(st: Store, n: nat): (r: seq<ScoreRow>)
    ensures |r| == n
  {
    var d := st.columnDefault;
    seq(n, i requires 0 <= i < n => ScoreRow(st.lastScoreId + i + 1, st.lastMatchId + i + 1, d, d, d, d, d))
  }

  /** The store after a fault-free loop over `ts`. */
  function Appended(st: Store, ts: seq<MatchTuple>): Store
  {
    st.(matches := st.matches + NewRows(st.lastMatchId, ts),
        scores := st.scores + NewScores(st, |ts|),
        lastMatchId := st.lastMatchId + |ts|,
        lastScoreId := st.lastScoreId + |ts|)
  }

  lemma ExpectedCons(base: int, ts: seq<MatchTuple>)
    requires |ts| > 0
    ensures Expected(base, ts)
            == [InsertMatch(RowFor(base + 1, ts[0])), InsertScore(base + 1)] + Expected(base + 1, ts[1..])
  {
    var lhs := Expected(base, ts);
    var rhs := [InsertMatch(RowFor(base + 1, ts[0])), InsertScore(base + 1)] + Expected(base + 1, ts[1..]);
    forall j | 2 <= j < 2 * |ts|
      ensures lhs[j] == rhs[j]
    {
      assert (j - 2) / 2 == j / 2 - 1 && (j - 2) % 2 == j % 2;
      assert ts[1..][j / 2 - 1] == ts[j / 2];
    }
  }

  /** A fault-free round inserts the tuple's row under the next id and a
      placeholder score row for it. */
  lemma CleanRound(st: Store, t: MatchTuple)
    ensures InsertRound(st, t, NoFault, NoFault)
            == Round(Appended(st, [t]), [InsertMatch(RowFor(st.lastMatchId + 1, t)), InsertScore(st.lastMatchId + 1)], true)
  {
    var a := Appended(st, [t]);
    var b := InsertRound(st, t, NoFault, NoFault).store;
    assert a.matches == b.matches;
    assert a.scores == b.scores;
  }

  /** A round whose first write fails adds the match row only when just its
      id could not be read, and no score row. */
  lemma MatchWriteFails(st: Store, t: MatchTuple, f1: ExecFault, f2: ExecFault)
    requires !f1.NoFault?
    ensures var r := InsertRound(st, t, f1, f2);
      && !r.ok
      && r.events == FaultEvents(f1, InsertMatch(RowFor(st.lastMatchId + 1, t)))
      && r.store.matches == st.matches + (if f1.ResultFails? then [RowFor(st.lastMatchId + 1, t)] else [])
  {
  }

  /** A round whose score write fails keeps its match row. */
  lemma ScoreWriteFails(st: Store, t: MatchTuple, f2: ExecFault)
    requires !f2.NoFault?
    ensures var r := InsertRound(st, t, NoFault, f2);
      && !r.ok
      && r.events == [InsertMatch(RowFor(st.lastMatchId + 1, t))] + FaultEvents(f2, InsertScore(st.lastMatchId + 1))
      && r.store.matches == st.matches + [RowFor(st.lastMatchId + 1, t)]
  {
  }

  /** A loop whose first round meets no fault continues from the store that
      round leaves. */
  lemma CleanRoundThenRest(st: Store, ts: seq<MatchTuple>, faults: Faults, k: nat)
    requires |ts| > 0 && ExecAt(faults, k) == NoFault && ExecAt(faults, k + 1) == NoFault
    ensures var rest := InsertAll(Appended(st, [ts[0]]), ts[1..], faults, k + 2);
      InsertAll(st, ts, faults, k)
      == Run(rest.store, [InsertMatch(RowFor(st.lastMatchId + 1, ts[0])), InsertScore(st.lastMatchId + 1)] + rest.trace)
  {
    CleanRound(st, ts[0]);
  }

  /** One fault-free round followed by the rest is the whole loop. */
  lemma AppendedCons(st: Store, ts: seq<MatchTuple>)
    requires |ts| > 0
    ensures Appended(Appended(st, [ts[0]]), ts[1..]) == Appended(st, ts)
  {
    var st2 := Appended(st, [ts[0]]);
    var a, b := Appended(st2, ts[1..]), Appended(st, ts);
    assert a.matches == b.matches by {
      assert forall i :: 1 <= i < |ts| ==> ts[1..][i - 1] == ts[i];
    }
    assert a.scores == b.scores;
  }

  /** With no write fault, the loop appends one `matches` row per tuple, in
      order and under consecutive fresh ids, each followed by a placeholder
      score row for that id: exactly `2·n` inserts, alternating. */
  lemma {:induction false} InsertAllSucceeds(st: Store, ts: seq<MatchTuple>, faults: Faults, k: nat)
    requires WritesClean(faults, k, 2 * |ts|)
    ensures InsertAll(st, ts, faults, k) == Run(Appended(st, ts), Expected(st.lastMatchId, ts))
    decreases |ts|
  {
    if |ts| > 0 {
      var base := st.lastMatchId;
      var st2 := Appended(st, [ts[0]]);
      var rest := InsertAll(st2, ts[1..], faults, k + 2);
      assert InsertAll(st, ts, faults, k)
             == Run(rest.store, [InsertMatch(RowFor(base + 1, ts[0])), InsertScore(base + 1)] + rest.trace) by {
        assert ExecAt(faults, k) == NoFault && ExecAt(faults, k + 1) == NoFault;
        CleanRoundThenRest(st, ts, faults, k);
      }
      assert rest == Run(Appended(st2, ts[1..]), Expected(base + 1, ts[1..])) by {
        assert st2.lastMatchId == base + 1;
        InsertAllSucceeds(st2, ts[1..], faults, k + 2);
      }
      ExpectedCons(base, ts);
      AppendedCons(st, ts);
    }
  }

  /** How many `matches` rows the first `n` writes of the loop add. */
  function MatchWrites(n: nat): nat
  {
    (n + 1) / 2
  }

  lemma NewRowsPrefixCons(base: int, ts: seq<MatchTuple>, n: nat)
    requires 1 <= n <= |ts|
    ensures NewRows(base, ts)[..n] == [RowFor(base + 1, ts[0])] + NewRows(base + 1, ts[1..])[..n - 1]
  {
    assert forall i :: 1 <= i < n ==> ts[1..][i - 1] == ts[i];
  }

  /** The events and rows of a loop whose first failing write is number
      `j`: the fault-free writes before it, then that write's own events. */
  function StopTrace(base: int, ts: seq<MatchTuple>, j: nat, f: ExecFault): seq<Event>
    requires j < 2 * |ts| && !f.NoFault?
  {
    Expected(base, ts)[..j] + FaultEvents(f, Expected(base, ts)[j])
  }

  function StopRows(base: int, ts: seq<MatchTuple>, j: nat, f: ExecFault): seq<MatchRow>
    requires j < 2 * |ts|
  {
    NewRows(base, ts)[..MatchWrites(Applied(j, f))]
  }

  /** How many of the loop's writes stand when write `j` is the first to
      fail: the `j` before it, and the failing one itself when only its
      result could not be read. */
  function Applied(j: nat, f: ExecFault): nat
  {
    if f.ResultFails? then j + 1 else j
  }

  /** The store a loop leaves when write `j` is the first to fail: the
      `matches` rows and the placeholder `scores` rows of the writes that
      stand, and both id counters advanced by as many. */
  function StopStore(st: Store, ts: seq<MatchTuple>, j: nat, f: ExecFault): (r: Store)
    requires j < 2 * |ts|
    ensures r.matches == st.matches + StopRows(st.lastMatchId, ts, j, f)
  {
    var a := Applied(j, f);
    st.(matches := st.matches + StopRows(st.lastMatchId, ts, j, f),
        scores := st.scores + NewScores(st, a / 2),
        lastMatchId := st.lastMatchId + MatchWrites(a),
        lastScoreId := st.lastScoreId + a / 2)
  }

  /** One clean round in front of a stopped loop. */
  lemma StopStoreCons(st: Store, ts: seq<MatchTuple>, j: nat, f: ExecFault)
    requires 2 <= j < 2 * |ts|
    ensures StopStore(st, ts, j, f) == StopStore(Appended(st, [ts[0]]), ts[1..], j - 2, f)
  {
    StopMatchesCons(st, ts, j, f);
    StopScoresCons(st, ts, j, f);
  }

  lemma StopMatchesCons(st: Store, ts: seq<MatchTuple>, j: nat, f: ExecFault)
    requires 2 <= j < 2 * |ts|
    ensures StopStore(st, ts, j, f).matches == StopStore(Appended(st, [ts[0]]), ts[1..], j - 2, f).matches
  {
    StopRowsCons(st.lastMatchId, ts, j, f);
  }

  lemma StopScoresCons(st: Store, ts: seq<MatchTuple>, j: nat, f: ExecFault)
    requires 2 <= j < 2 * |ts|
    ensures StopStore(st, ts, j, f).scores == StopStore(Appended(st, [ts[0]]), ts[1..], j - 2, f).scores
  {
    NewScoresCons(st, ts[0], Applied(j, f) / 2);
  }

  /** The placeholder rows after one clean round continue its numbering. */
  lemma NewScoresCons(st: Store, t: MatchTuple, n: nat)
    requires n >= 1
    ensures NewScores(st, n) == NewScores(st, 1) + NewScores(Appended(st, [t]), n - 1)
  {
  }

  /** A fault in the first round. */
  lemma StopsInFirstRound(st: Store, ts: seq<MatchTuple>, faults: Faults, k: nat, j: nat)
    requires j < 2 && |ts| > 0
    requires WritesClean(faults, k, j) && !ExecAt(faults, k + j).NoFault?
    ensures InsertAll(st, ts, faults, k).trace == StopTrace(st.lastMatchId, ts, j, ExecAt(faults, k + j))
    ensures InsertAll(st, ts, faults, k).store == StopStore(st, ts, j, ExecAt(faults, k + j))
  {
    var base := st.lastMatchId;
    var f := ExecAt(faults, k + j);
    var row := RowFor(base + 1, ts[0]);
    assert Expected(base, ts)[0] == InsertMatch(row);
    assert Expected(base, ts)[1] == InsertScore(base + 1);
    assert NewRows(base, ts)[..1] == [row];
    if j == 0 {
      MatchWriteFails(st, ts[0], f, ExecAt(faults, k + 1));
    } else {
      assert ExecAt(faults, k) == NoFault;
      ScoreWriteFails(st, ts[0], f);
      assert Expected(base, ts)[..1] == [InsertMatch(row)];
    }
    FirstRoundStore(st, ts, j, ExecAt(faults, k), ExecAt(faults, k + 1));
  }

  /** The store a first round leaves when its write `j` is the first to
      fail. */
  lemma FirstRoundStore(st: Store, ts: seq<MatchTuple>, j: nat, f1: ExecFault, f2: ExecFault)
    requires j < 2 && |ts| > 0
    requires if j == 0 then !f1.NoFault? else f1 == NoFault && !f2.NoFault?
    ensures InsertRound(st, ts[0], f1, f2).store == StopStore(st, ts, j, if j == 0 then f1 else f2)
  {
    var x, y := InsertRound(st, ts[0], f1, f2).store, StopStore(st, ts, j, if j == 0 then f1 else f2);
    assert NewRows(st.lastMatchId, ts)[..1] == [RowFor(st.lastMatchId + 1, ts[0])];
    assert x.matches == y.matches;
    assert x.scores == y.scores;
  }

  lemma ExpectedPrefixCons(base: int, ts: seq<MatchTuple>, j: nat)
    requires 2 <= j < 2 * |ts|
    ensures Expected(base, ts)[..j]
            == [InsertMatch(RowFor(base + 1, ts[0])), InsertScore(base + 1)] + Expected(base + 1, ts[1..])[..j - 2]
    ensures Expected(base, ts)[j] == Expected(base + 1, ts[1..])[j - 2]
  {
    ExpectedCons(base, ts);
  }

  lemma StopTraceCons(base: int, ts: seq<MatchTuple>, j: nat, f: ExecFault)
    requires 2 <= j < 2 * |ts| && !f.NoFault?
    ensures StopTrace(base, ts, j, f)
            == [InsertMatch(RowFor(base + 1, ts[0])), InsertScore(base + 1)] + StopTrace(base + 1, ts[1..], j - 2, f)
  {
    ExpectedPrefixCons(base, ts, j);
  }

  lemma StopRowsCons(base: int, ts: seq<MatchTuple>, j: nat, f: ExecFault)
    requires 2 <= j < 2 * |ts|
    ensures StopRows(base, ts, j, f) == [RowFor(base + 1, ts[0])] + StopRows(base + 1, ts[1..], j - 2, f)
  {
    var n := MatchWrites(if f.ResultFails? then j + 1 else j);
    assert MatchWrites(if f.ResultFails? then j - 1 else j - 2) == n - 1;
    NewRowsPrefixCons(base, ts, n);
  }

  /** The first failing write ends the loop: the writes before it are all
      applied in the fault-free order, the failing one is applied only when
      just its result could not be read, and no later write is attempted. */
  lemma {:induction false} InsertAllStops(st: Store, ts: seq<MatchTuple>, faults: Faults, k: nat, j: nat)
    requires j < 2 * |ts|
    requires WritesClean(faults, k, j) && !ExecAt(faults, k + j).NoFault?
    ensures InsertAll(st, ts, faults, k).trace == StopTrace(st.lastMatchId, ts, j, ExecAt(faults, k + j))
    ensures InsertAll(st, ts, faults, k).store == StopStore(st, ts, j, ExecAt(faults, k + j))
    decreases |ts|, 1
  {
    if j < 2 {
      StopsInFirstRound(st, ts, faults, k, j);
    } else {
      StopsInLaterRound(st, ts, faults, k, j);
    }
  }

  /** A fault after the first round: that round's writes, then the rest of
      the loop. */
  lemma {:induction false} StopsInLaterRound(st: Store, ts: seq<MatchTuple>, faults: Faults, k: nat, j: nat)
    requires 2 <= j < 2 * |ts|
    requires WritesClean(faults, k, j) && !ExecAt(faults, k + j).NoFault?
    ensures InsertAll(st, ts, faults, k).trace == StopTrace(st.lastMatchId, ts, j, ExecAt(faults, k + j))
    ensures InsertAll(st, ts, faults, k).store == StopStore(st, ts, j, ExecAt(faults, k + j))
    decreases |ts|, 0
  {
    var f := ExecAt(faults, k + j);
    var st2 := Appended(st, [ts[0]]);
    assert ExecAt(faults, k) == NoFault && ExecAt(faults, k + 1) == NoFault;
    CleanRoundThenRest(st, ts, faults, k);
    assert WritesClean(faults, k + 2, j - 2);
    assert ExecAt(faults, (k + 2) + (j - 2)) == f;
    InsertAllStops(st2, ts[1..], faults, k + 2, j - 2);
    StopsCombine(st, ts, j, f, InsertAll(st, ts, faults, k), InsertAll(st2, ts[1..], faults, k + 2));
  }

  /** Prefixing the rest of a stopped loop with one clean round. */
  lemma StopsCombine(st: Store, ts: seq<MatchTuple>, j: nat, f: ExecFault, whole: Run, rest: Run)
    requires 2 <= j < 2 * |ts| && !f.NoFault?
    requires whole == Run(rest.store, [InsertMatch(RowFor(st.lastMatchId + 1, ts[0])), InsertScore(st.lastMatchId + 1)] + rest.trace)
    requires rest.trace == StopTrace(Appended(st, [ts[0]]).lastMatchId, ts[1..], j - 2, f)
    requires rest.store == StopStore(Appended(st, [ts[0]]), ts[1..], j - 2, f)
    ensures whole.trace == StopTrace(st.lastMatchId, ts, j, f)
    ensures whole.store == StopStore(st, ts, j, f)
  {
    var st2 := Appended(st, [ts[0]]);
    assert st2.lastMatchId == st.lastMatchId + 1;
    StopTraceCons(st.lastMatchId, ts, j, f);
    StopStoreCons(st, ts, j, f);
  }

  /** Where the first of `n` writes from index `k` on meets a fault,
      counted from `k`; none when all `n` succeed. */
  function FirstFault(f: Faults, k: nat, n: nat): (r: Option<nat>)
    ensures r.Some? ==> r.value < n && WritesClean(f, k, r.value) && !ExecAt(f, k + r.value).NoFault?
    decreases n
  {
    if n == 0 then None
    else if !ExecAt(f, k).NoFault? then Some(0)
    else
      match FirstFault(f, k + 1, n - 1)
      case None => None
      case Some(j) => Some(j + 1)
  }

  lemma {:induction false} NoFirstFault(f: Faults, k: nat, n: nat)
    requires FirstFault(f, k, n).None?
    ensures WritesClean(f, k, n)
    decreases n
  {
    if n > 0 {
      NoFirstFault(f, k + 1, n - 1);
    }
  }

  lemma ExpectedHasNoFailure(base: int, ts: seq<MatchTuple>)
    ensures forall i :: 0 <= i < |Expected(base, ts)| ==> !Expected(base, ts)[i].Fail?
  {
  }

  /** A stopped loop fails exactly once, at its last event. */
  lemma StopTraceFailsLast(base: int, ts: seq<MatchTuple>, j: nat, f: ExecFault)
    requires j < 2 * |ts| && !f.NoFault?
    ensures var tr := StopTrace(base, ts, j, f);
      && |tr| > 0 && tr[|tr| - 1] == Fail(WriteError(f))
      && forall i :: 0 <= i < |tr| - 1 ==> !tr[i].Fail?
  {
    ExpectedHasNoFailure(base, ts);
  }

  /** A failed page fetch ends the job before the store is touched. */
  lemma DiscoveryFetchFailure(st: Store, today: Date, net: string -> Fetch<SchedulePage>, faults: Faults)
    requires ValidDate(today) && !net(ScheduleUrl(today)).Page?
    ensures var r := GetMatchScheduletoday(st, today, net, faults);
      && r == Run(st, [FetchPage(ScheduleUrl(today)), Fail(FetchError(net(ScheduleUrl(today))))])
      && r.Err() == Some(FetchError(net(ScheduleUrl(today))))
  {
  }

  /** A day without matches succeeds without connecting to the store. */
  lemma DiscoveryNoGames(st: Store, today: Date, net: string -> Fetch<SchedulePage>, faults: Faults)
    requires ValidDate(today) && net(ScheduleUrl(today)).Page?
    requires ExpectedCount(net(ScheduleUrl(today)).doc.leagues) == 0
    ensures var r := GetMatchScheduletoday(st, today, net, faults);
      r == Run(st, [FetchPage(ScheduleUrl(today))]) && r.Err().None?
  {
  }

  /** A failed connection, met only when there is something to insert,
      ends the job with the store untouched. */
  lemma DiscoveryConnectFailure(st: Store, today: Date, net: string -> Fetch<SchedulePage>, faults: Faults)
    requires ValidDate(today) && net(ScheduleUrl(today)).Page?
    requires ExpectedCount(net(ScheduleUrl(today)).doc.leagues) > 0 && faults.connect.Some?
    ensures var r := GetMatchScheduletoday(st, today, net, faults);
      && r == Run(st, [FetchPage(ScheduleUrl(today)), Fail(ConnectFailed(faults.connect.value))])
      && r.Err() == Some(ConnectFailed(faults.connect.value))
  {
  }

  /** A run that reaches the insert loop is the fetch, the connection and
      then the loop over the page's tuples. */
  lemma LoopRun(st: Store, today: Date, net: string -> Fetch<SchedulePage>, faults: Faults)
    requires ValidDate(today) && net(ScheduleUrl(today)).Page? && faults.connect.None?
    requires |GetMatchSchedule(net(ScheduleUrl(today)).doc, today)| > 0
    ensures var r := InsertAll(st, GetMatchSchedule(net(ScheduleUrl(today)).doc, today), faults, 0);
      GetMatchScheduletoday(st, today, net, faults) == Run(r.store, [FetchPage(ScheduleUrl(today)), Connect] + r.trace)
  {
  }

  /** A fault-free run on a day with matches: after the fetch and the
      connection, each tuple of the page becomes a `matches` row under the
      next id, dated today, followed by its placeholder score row. */
  lemma DiscoverySucceeds(st: Store, today: Date, net: string -> Fetch<SchedulePage>, faults: Faults)
    requires ValidDate(today) && net(ScheduleUrl(today)).Page?
    requires var ts := GetMatchSchedule(net(ScheduleUrl(today)).doc, today);
      |ts| > 0 && faults.connect.None? && WritesClean(faults, 0, 2 * |ts|)
    ensures var ts := GetMatchSchedule(net(ScheduleUrl(today)).doc, today);
      var r := GetMatchScheduletoday(st, today, net, faults);
      && r == Run(Appended(st, ts), [FetchPage(ScheduleUrl(today)), Connect] + Expected(st.lastMatchId, ts))
      && r.Err().None?
      && |r.store.matches| == |st.matches| + |ts|
      && forall i :: |st.matches| <= i < |r.store.matches| ==> r.store.matches[i].date == FormatDate(today, '/')
  {
    var ts := GetMatchSchedule(net(ScheduleUrl(today)).doc, today);
    LoopRun(st, today, net, faults);
    InsertAllSucceeds(st, ts, faults, 0);
    ExpectedHasNoFailure(st.lastMatchId, ts);
    AppendedDated(st, ts, FormatDate(today, '/'));
  }

  /** Rows appended from tuples of one date carry that date. */
  lemma AppendedDated(st: Store, ts: seq<MatchTuple>, d: string)
    requires forall t :: t in ts ==> t.date == d
    ensures var after := Appended(st, ts).matches;
      forall i :: |st.matches| <= i < |after| ==> after[i].date == d
  {
    var after := Appended(st, ts).matches;
    forall i | |st.matches| <= i < |after|
      ensures after[i].date == d
    {
      assert after[i] == RowFor(st.lastMatchId + (i - |st.matches|) + 1, ts[i - |st.matches|]);
      assert ts[i - |st.matches|] in ts;
    }
  }

  /** A run whose `j`-th write is the first to fail: the earlier writes as
      in a fault-free run, that write's own events, and nothing after; the
      job returns that write's error. */
  lemma DiscoveryStops(st: Store, today: Date, net: string -> Fetch<SchedulePage>, faults: Faults, j: nat)
    requires ValidDate(today) && net(ScheduleUrl(today)).Page?
    requires var ts := GetMatchSchedule(net(ScheduleUrl(today)).doc, today);
      && faults.connect.None? && j < 2 * |ts|
      && WritesClean(faults, 0, j) && !ExecAt(faults, j).NoFault?
    ensures var ts := GetMatchSchedule(net(ScheduleUrl(today)).doc, today);
      var r := GetMatchScheduletoday(st, today, net, faults);
      && r.trace == [FetchPage(ScheduleUrl(today)), Connect] + StopTrace(st.lastMatchId, ts, j, ExecAt(faults, j))
      && r.store.matches == st.matches + StopRows(st.lastMatchId, ts, j, ExecAt(faults, j))
      && r.store == StopStore(st, ts, j, ExecAt(faults, j))
      && r.Err() == Some(WriteError(ExecAt(faults, j)))
  {
    var ts := GetMatchSchedule(net(ScheduleUrl(today)).doc, today);
    var f := ExecAt(faults, j);
    var loop := InsertAll(st, ts, faults, 0);
    LoopRun(st, today, net, faults);
    InsertAllStops(st, ts, faults, 0, j);
    StopTraceFailsLast(st.lastMatchId, ts, j, f);
    FailedTail(loop.store, [FetchPage(ScheduleUrl(today)), Connect], loop.trace, WriteError(f));
  }

  /** A run whose trace ends in a failure returns that failure, whatever
      came before. */
  lemma FailedTail(s: Store, head: seq<Event>, tail: seq<Event>, e: Error)
    requires |tail| > 0 && tail[|tail| - 1] == Fail(e)
    ensures Run(s, head + tail).Err() == Some(e)
  {
    assert (head + tail)[|head + tail| - 1] == tail[|tail| - 1];
  }

  /** Whatever the page and the faults, a discovery run fails at most once,
      at its last step, and returns exactly that failure. */
  lemma DiscoveryFailsOnlyLast(st: Store, today: Date, net: string -> Fetch<SchedulePage>, faults: Faults)
    requires ValidDate(today)
    ensures var r := GetMatchScheduletoday(st, today, net, faults);
      && FailOnlyLast(r.trace)
      && (r.Err().None? <==> forall i :: 0 <= i < |r.trace| ==> !r.trace[i].Fail?)
  {
    var url := ScheduleUrl(today);
    if net(url).Page? && faults.connect.None? && |GetMatchSchedule(net(url).doc, today)| > 0 {
      InsertingFailsOnlyLast(st, today, net, faults);
    }
    ErrOfFailOnlyLast(GetMatchScheduletoday(st, today, net, faults));
  }

  /** The same for a run that reaches the insert loop. */
  lemma InsertingFailsOnlyLast(st: Store, today: Date, net: string -> Fetch<SchedulePage>, faults: Faults)
    requires ValidDate(today) && net(ScheduleUrl(today)).Page? && faults.connect.None?
    requires |GetMatchSchedule(net(ScheduleUrl(today)).doc, today)| > 0
    ensures FailOnlyLast(GetMatchScheduletoday(st, today, net, faults).trace)
  {
    var url := ScheduleUrl(today);
    var ts := GetMatchSchedule(net(url).doc, today);
    match FirstFault(faults, 0, 2 * |ts|)
    case None =>
      NoFirstFault(faults, 0, 2 * |ts|);
      DiscoverySucceeds(st, today, net, faults);
      ExpectedHasNoFailure(st.lastMatchId, ts);
    case Some(j) =>
      DiscoveryStops(st, today, net, faults, j);
      StopTraceFailsLast(st.lastMatchId, ts, j, ExecAt(faults, j));
  }


  /** Every round keeps the match ids valid, whatever befalls it. */
  lemma RoundKeepsValid(st: Store, t: MatchTuple, f1: ExecFault, f2: ExecFault)
    requires Valid(st)
    ensures Valid(InsertRound(st, t, f1, f2).store)
    ensures st.matches <= InsertRound(st, t, f1, f2).store.matches
  {
    var e1 := InsertData(st, MatchInsert(t), f1);
    InsertKeepsValid(st, MatchInsert(t), f1);
    if e1.err.None? {
      InsertKeepsValid(e1.store, IntoScores(e1.n), f2);
    }
  }

  /** The insert loop keeps the match ids valid and only appends rows,
      whatever faults it meets. */
  lemma {:induction false} InsertAllKeepsValid(st: Store, ts: seq<MatchTuple>, faults: Faults, k: nat)
    requires Valid(st)
    ensures Valid(InsertAll(st, ts, faults, k).store)
    ensures st.matches <= InsertAll(st, ts, faults, k).store.matches
    decreases |ts|
  {
    if |ts| > 0 {
      var r := InsertRound(st, ts[0], ExecAt(faults, k), ExecAt(faults, k + 1));
      RoundKeepsValid(st, ts[0], ExecAt(faults, k), ExecAt(faults, k + 1));
      if r.ok {
        InsertAllKeepsValid(r.store, ts[1..], faults, k + 2);
      }
    }
  }

  /** The whole job keeps the match ids valid and only appends matches,
      whatever the page and the faults. */
  lemma DiscoveryKeepsValid(st: Store, today: Date, net: string -> Fetch<SchedulePage>, faults: Faults)
    requires ValidDate(today) && Valid(st)
    ensures var after := GetMatchScheduletoday(st, today, net, faults).store;
      Valid(after) && st.matches <= after.matches
  {
    var url := ScheduleUrl(today);
    if net(url).Page? && faults.connect.None? && |GetMatchSchedule(net(url).doc, today)| > 0 {
      LoopRun(st, today, net, faults);
      InsertAllKeepsValid(st, GetMatchSchedule(net(url).doc, today), faults, 0);
    }
  }

  /** No check for duplicates: running the job a second time on the same
      page inserts every match again, under new ids. */
  lemma RerunDuplicates(st: Store, today: Date, net: string -> Fetch<SchedulePage>, faults: Faults)
    requires ValidDate(today) && net(ScheduleUrl(today)).Page?
    requires var ts := GetMatchSchedule(net(ScheduleUrl(today)).doc, today);
      |ts| > 0 && faults.connect.None? && WritesClean(faults, 0, 2 * |ts|)
    ensures var n := |GetMatchSchedule(net(ScheduleUrl(today)).doc, today)|;
      var once := GetMatchScheduletoday(st, today, net, faults).store;
      var twice := GetMatchScheduletoday(once, today, net, faults).store;
      && |twice.matches| == |st.matches| + 2 * n
      && forall i :: |st.matches| <= i < |st.matches| + n ==>
           && twice.matches[i].id != twice.matches[i + n].id
           && twice.matches[i].(id := 0) == twice.matches[i + n].(id := 0)
  {
    var ts := GetMatchSchedule(net(ScheduleUrl(today)).doc, today);
    var n := |ts|;
    DiscoverySucceeds(st, today, net, faults);
    var once := GetMatchScheduletoday(st, today, net, faults).store;
    DiscoverySucceeds(once, today, net, faults);
    var twice := GetMatchScheduletoday(once, today, net, faults).store;
    forall i | |st.matches| <= i < |st.matches| + n
      ensures twice.matches[i].id != twice.matches[i + n].id
      ensures twice.matches[i].(id := 0) == twice.matches[i + n].(id := 0)
    {
      var p := i - |st.matches|;
      assert twice.matches[i] == once.matches[i] == RowFor(st.lastMatchId + p + 1, ts[p]);
      assert twice.matches[i + n] == RowFor(once.lastMatchId + p + 1, ts[p]);
    }
  }

  /** `a` and `b` differ at most in the `status` field. */
  predicate SameButStatus(a: MatchTuple, b: MatchTuple)
  {
    a.(status := b.status) == b
  }

  /** The `.bb-score__link` text (field 4) never reaches the store: tuples
      that differ only there produce the same run. */
  lemma {:induction false} InsertAllIgnoresStatus(st: Store, ts: seq<MatchTuple>, us: seq<MatchTuple>, faults: Faults, k: nat)
    requires |ts| == |us| && forall i :: 0 <= i < |ts| ==> SameButStatus(ts[i], us[i])
    ensures InsertAll(st, ts, faults, k) == InsertAll(st, us, faults, k)
    decreases |ts|
  {
    if |ts| > 0 {
      assert MatchInsert(ts[0]) == MatchInsert(us[0]) && RowFor(st.lastMatchId + 1, ts[0]) == RowFor(st.lastMatchId + 1, us[0]) by {
        assert SameButStatus(ts[0], us[0]);
      }
      var r := InsertRound(st, ts[0], ExecAt(faults, k), ExecAt(faults, k + 1));
      assert r == InsertRound(st, us[0], ExecAt(faults, k), ExecAt(faults, k + 1));
      if r.ok {
        assert forall i :: 0 <= i < |ts| - 1 ==> ts[1..][i] == ts[i + 1] && us[1..][i] == us[i + 1];
        InsertAllIgnoresStatus(r.store, ts[1..], us[1..], faults, k + 2);
      }
    }
  }
}
