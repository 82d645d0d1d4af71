/**
 * The repository's readers: `GetMatch` over any result set, and the three
 * queries the pipeline and its API run against the store: the matches of
 * a day (`GetMatchAPI`), the score rows of a match (`GetScore`) and the
 * live matches (`GetMatchScoreLive`). Each record is the Go map the
 * reader builds, with the keys it writes.
 */
module Repository {
  import opened Results
  import opened Text
  import opened Decimal
  import opened Rows
  import opened Scan
  import opened Store
  import Json

  /** The inning texts that mark a finished (`試合終了`) or called-off
      (`試合中止`) match. */
  const Ended: string := "\U{8A66}\U{5408}\U{7D42}\U{4E86}"
  const Cancelled: string := "\U{8A66}\U{5408}\U{4E2D}\U{6B62}"

  predicate IsTerminal(inning: string)
  {
    inning == Ended || inning == Cancelled
  }

  /** A query that either fails with `fault` or returns `rows`. */
  function Query(fault: Option<string>, rows: seq<seq<Cell>>): QueryResult
  {
    match fault
    case Some(c) => QueryError(c)
    case None => ResultSet(rows)
  }

  function OptCell(o: Option<string>): Cell
  {
    match o
    case None => Null
    case Some(s) => TextCell(s)
  }

  // ---------------------------------------------------------------- GetMatch

  /** `id` into an `int`, the seven other columns into `string`s. */
  function MatchKinds(): seq<Kind>
  {
    [IntKind] + TextKinds(7)
  }

  function MatchRecord(v: seq<Value>): Row
    requires |v| == 8
  {
    map["id" := v[0], "date" := v[1], "home" := v[2], "away" := v[3], "league" := v[4],
        "stadium" := v[5], "starttime" := v[6], "link" := v[7]]
  }

  /** `GetMatch`: one record per row of the result set, in order, each with
      the eight keys `id` (an integer) to `link` (texts); a query error or a
      row that does not scan gives no records and the wrapped error. */
  function GetMatch(q: QueryResult): (r: Result<seq<Row>>)
    ensures q.QueryError? ==> r == Failure(QueryFailed(q.cause))
    ensures q.ResultSet? ==> (r.Success? <==> forall k :: 0 <= k < |q.rows| ==> Scans(q.rows[k], MatchKinds()))
    ensures q.ResultSet? && r.Failure? ==> r.error.ScanFailed?
    ensures r.Success? ==>
      && |r.value| == |q.rows|
      && forall k :: 0 <= k < |r.value| ==>
           && r.value[k].Keys == {"id", "date", "home", "away", "league", "stadium", "starttime", "link"}
           && r.value[k]["id"].Int? && r.value[k]["league"].Str? && r.value[k]["link"].Str?
    ensures r.Success? ==> forall k :: 0 <= k < |r.value| ==>
      && ScanValues(q.rows[k], MatchKinds()).Some?
      && r.value[k] == MatchRecord(ScanValues(q.rows[k], MatchKinds()).value)
  {
    match Read(q, MatchKinds())
    case Failure(e) => Failure(e)
    case Success(vs) => Success(seq(|vs|, k requires 0 <= k < |vs| => MatchRecord(vs[k])))
  }

  // ------------------------------------------------------------- GetMatchAPI

  /** The matches stored for `todate`, in table order. */
  function MatchesOn(ms: seq<MatchRow>, todate: string): (r: seq<MatchRow>)
    ensures |r| <= |ms|
    decreases |ms|
  {
    if |ms| == 0 then []
    else
      var m := ms[|ms| - 1];
      MatchesOn(ms[..|ms| - 1], todate) + (if m.date == todate then [m] else [])
  }

  lemma {:induction false} MatchesOnMembers(ms: seq<MatchRow>, todate: string)
    ensures forall m :: m in MatchesOn(ms, todate) <==> m in ms && m.date == todate
    decreases |ms|
  {
    if |ms| > 0 {
      var pre := ms[..|ms| - 1];
      MatchesOnMembers(pre, todate);
      assert ms == pre + [ms[|ms| - 1]];
    }
  }

  function ApiKinds(): seq<Kind>
  {
    [IntKind] + TextKinds(6)
  }

  function ApiCells(m: MatchRow): seq<Cell>
  {
    [IntCell(m.id)] + TextCells([m.date, m.home, m.away, m.league, m.stadium, m.starttime])
  }

  function ApiRecord(v: seq<Value>): Row
    requires |v| == 7
  {
    map["id" := v[0], "date" := v[1], "home" := v[2], "away" := v[3], "league" := v[4],
        "stadium" := v[5], "starttime" := v[6]]
  }

  /** The record the API reader reports for a match: everything but the
      link. */
  function ApiRow(m: MatchRow): Row
  {
    map["id" := Int(m.id), "date" := Str(m.date), "home" := Str(m.home), "away" := Str(m.away),
        "league" := Str(m.league), "stadium" := Str(m.stadium), "starttime" := Str(m.starttime)]
  }

  lemma ApiCellsScan(m: MatchRow)
    ensures ScanValues(ApiCells(m), ApiKinds()).Some?
    ensures ApiRecord(ScanValues(ApiCells(m), ApiKinds()).value) == ApiRow(m)
  {
    var cells, kinds := ApiCells(m), ApiKinds();
    ScanFitting(cells, kinds);
    var v := ScanValues(cells, kinds).value;
    assert v[0] == Int(m.id);
    assert v[1] == Str(m.date) && v[2] == Str(m.home) && v[3] == Str(m.away);
    assert v[4] == Str(m.league) && v[5] == Str(m.stadium) && v[6] == Str(m.starttime);
  }

  /** `GetMatchAPI`: the day's matches, one record each, in table order;
      a failing query gives the wrapped error. Store rows always scan. */
  function GetMatchAPI(st: Store, todate: string, fault: Option<string>): (r: Result<seq<Row>>)
    ensures fault.Some? ==> r == Failure(QueryFailed(fault.value))
    ensures fault.None? ==>
      && r.Success?
      && |r.value| == |MatchesOn(st.matches, todate)|
      && forall k :: 0 <= k < |r.value| ==> r.value[k] == ApiRow(MatchesOn(st.matches, todate)[k])
  {
    var ms := MatchesOn(st.matches, todate);
    ApiResultSetScans(ms);
    match Read(Query(fault, ApiResultSet(ms)), ApiKinds())
    case Failure(e) => Failure(e)
    case Success(vs) => Success(seq(|vs|, k requires 0 <= k < |vs| => ApiRecord(vs[k])))
  }

  function ApiResultSet(ms: seq<MatchRow>): (r: seq<seq<Cell>>)
    ensures |r| == |ms| && forall k :: 0 <= k < |ms| ==> r[k] == ApiCells(ms[k])
  {
    seq(|ms|, k requires 0 <= k < |ms| => ApiCells(ms[k]))
  }

  lemma ApiResultSetScans(ms: seq<MatchRow>)
    ensures forall k :: 0 <= k < |ms| ==> Scans(ApiResultSet(ms)[k], ApiKinds())
    ensures forall k :: 0 <= k < |ms| ==>
      ApiRecord(ScanValues(ApiResultSet(ms)[k], ApiKinds()).value) == ApiRow(ms[k])
  {
    forall k | 0 <= k < |ms|
      ensures Scans(ApiResultSet(ms)[k], ApiKinds())
      ensures ApiRecord(ScanValues(ApiResultSet(ms)[k], ApiKinds()).value) == ApiRow(ms[k])
    {
      ApiCellsScan(ms[k]);
    }
  }

  /** The API's records group by league: every record carries its league
      as a text, so `ConvertToJSON(records, "league")` succeeds whenever the
      day has matches. */
  lemma ApiRecordsGroupable(st: Store, todate: string)
    ensures Json.Groupable(GetMatchAPI(st, todate, None).value, "league")
  {
  }

  // ---------------------------------------------------------------- GetScore

  /** The score rows whose `match_id` equals the text key, in table order. */
  function ScoresKeyed(ss: seq<ScoreRow>, key: string): (r: seq<ScoreRow>)
    ensures |r| <= |ss|
    decreases |ss|
  {
    if |ss| == 0 then []
    else
      var s := ss[|ss| - 1];
      ScoresKeyed(ss[..|ss| - 1], key) + (if Targets(key, s) then [s] else [])
  }

  lemma {:induction false} ScoresKeyedMembers(ss: seq<ScoreRow>, key: string)
    ensures forall s :: s in ScoresKeyed(ss, key) <==> s in ss && Targets(key, s)
    decreases |ss|
  {
    if |ss| > 0 {
      var pre := ss[..|ss| - 1];
      ScoresKeyedMembers(pre, key);
      assert ss == pre + [ss[|ss| - 1]];
    }
  }

  /** Every progress column of the row holds a value. */
  predicate Complete(s: ScoreRow)
  {
    s.homeScore.Some? && s.awayScore.Some? && s.batter.Some? && s.inning.Some? && s.result.Some?
  }

  predicate AllComplete(ss: seq<ScoreRow>)
  {
    forall k :: 0 <= k < |ss| ==> Complete(ss[k])
  }

  /** Five `string` destinations, then `match_id` into an `int`. */
  function ScoreKinds(): seq<Kind>
  {
    TextKinds(5) + [IntKind]
  }

  function ScoreRowCells(s: ScoreRow): seq<Cell>
  {
    [OptCell(s.homeScore), OptCell(s.awayScore), OptCell(s.batter), OptCell(s.inning), OptCell(s.result),
     IntCell(s.matchId)]
  }

  function ScoreRecord(v: seq<Value>): Row
    requires |v| == 6
  {
    map["match_id" := v[5], "home_score" := v[0], "away_score" := v[1], "batter" := v[2],
        "inning" := v[3], "result" := v[4]]
  }

  /** The record the score reader reports for a complete row. */
  function ScoreRow2Record(s: ScoreRow): Row
    requires Complete(s)
  {
    map["match_id" := Int(s.matchId), "home_score" := Str(s.homeScore.value),
        "away_score" := Str(s.awayScore.value), "batter" := Str(s.batter.value),
        "inning" := Str(s.inning.value), "result" := Str(s.result.value)]
  }

  /** A score row scans exactly when none of its progress columns is NULL. */
  lemma ScoreCellsScan(s: ScoreRow)
    ensures Scans(ScoreRowCells(s), ScoreKinds()) <==> Complete(s)
    ensures Complete(s) ==> ScoreRecord(ScanValues(ScoreRowCells(s), ScoreKinds()).value) == ScoreRow2Record(s)
  {
    var cells, kinds := ScoreRowCells(s), ScoreKinds();
    if Complete(s) {
      ScanFitting(cells, kinds);
      var v := ScanValues(cells, kinds).value;
      assert v[0] == Str(s.homeScore.value) && v[1] == Str(s.awayScore.value);
      assert v[2] == Str(s.batter.value) && v[3] == Str(s.inning.value);
      assert v[4] == Str(s.result.value) && v[5] == Int(s.matchId);
    } else if s.homeScore.None? {
      NullFailsRow(cells, kinds, 0);
    } else if s.awayScore.None? {
      NullFailsRow(cells, kinds, 1);
    } else if s.batter.None? {
      NullFailsRow(cells, kinds, 2);
    } else if s.inning.None? {
      NullFailsRow(cells, kinds, 3);
    } else {
      NullFailsRow(cells, kinds, 4);
    }
  }

  /** `GetScore`: the score rows of the match the text `key` names, one
      record each, in table order. A failing query gives the wrapped error;
      a row with a NULL progress column (a placeholder no poll has filled
      yet, unless the schema supplies a default) fails the whole read. */
  function GetScore(st: Store, key: string, fault: Option<string>): (r: Result<seq<Row>>)
    ensures fault.Some? ==> r == Failure(QueryFailed(fault.value))
    ensures var ss := ScoresKeyed(st.scores, key);
      fault.None? ==> (r.Success? <==> AllComplete(ss))
    ensures fault.None? && r.Failure? ==> r.error.ScanFailed?
    ensures var ss := ScoresKeyed(st.scores, key);
      r.Success? ==>
      && |r.value| == |ss|
      && forall k :: 0 <= k < |r.value| ==> Complete(ss[k]) && r.value[k] == ScoreRow2Record(ss[k])
  {
    var ss := ScoresKeyed(st.scores, key);
    ScoreRecordsSpec(ss, fault);
    ScoreRecords(ss, fault)
  }

  /** Reading the result set of the score rows `ss`. */
  function ScoreRecords(ss: seq<ScoreRow>, fault: Option<string>): Result<seq<Row>>
  {
    match Read(Query(fault, ScoreResultSet(ss)), ScoreKinds())
    case Failure(e) => Failure(e)
    case Success(vs) => Success(seq(|vs|, k requires 0 <= k < |vs| => ScoreRecord(vs[k])))
  }

  lemma ScoreRecordsSpec(ss: seq<ScoreRow>, fault: Option<string>)
    ensures var r := ScoreRecords(ss, fault);
      && (fault.Some? ==> r == Failure(QueryFailed(fault.value)))
      && (fault.None? ==> (r.Success? <==> AllComplete(ss)))
      && (fault.None? && r.Failure? ==> r.error.ScanFailed?)
      && (r.Success? ==>
          && |r.value| == |ss|
          && forall k :: 0 <= k < |r.value| ==> Complete(ss[k]) && r.value[k] == ScoreRow2Record(ss[k]))
  {
    var rows := ScoreResultSet(ss);
    ScoreResultSetScans(ss);
    var r := ScoreRecords(ss, fault);
    if fault.None? {
      var q := Query(fault, rows);
      assert (forall k :: 0 <= k < |rows| ==> Scans(rows[k], ScoreKinds())) <==> AllComplete(ss);
      if r.Success? {
        var vs := Read(q, ScoreKinds()).value;
        forall k | 0 <= k < |r.value|
          ensures Complete(ss[k]) && r.value[k] == ScoreRow2Record(ss[k])
        {
          assert Scans(rows[k], ScoreKinds());
          assert vs[k] == ScanValues(rows[k], ScoreKinds()).value;
        }
      }
    }
  }

  function ScoreResultSet(ss: seq<ScoreRow>): (r: seq<seq<Cell>>)
    ensures |r| == |ss| && forall k :: 0 <= k < |ss| ==> r[k] == ScoreRowCells(ss[k])
  {
    seq(|ss|, k requires 0 <= k < |ss| => ScoreRowCells(ss[k]))
  }

  lemma ScoreResultSetScans(ss: seq<ScoreRow>)
    ensures forall k :: 0 <= k < |ss| ==> (Scans(ScoreResultSet(ss)[k], ScoreKinds()) <==> Complete(ss[k]))
    ensures forall k :: 0 <= k < |ss| && Complete(ss[k]) ==>
      ScoreRecord(ScanValues(ScoreResultSet(ss)[k], ScoreKinds()).value) == ScoreRow2Record(ss[k])
  {
    forall k | 0 <= k < |ss|
      ensures Scans(ScoreResultSet(ss)[k], ScoreKinds()) <==> Complete(ss[k])
      ensures Complete(ss[k]) ==>
        ScoreRecord(ScanValues(ScoreResultSet(ss)[k], ScoreKinds()).value) == ScoreRow2Record(ss[k])
    {
      ScoreCellsScan(ss[k]);
    }
  }

  /** Right after discovery a match's placeholder row holds the schema's
      default in every progress column: with no default (NULL), reading
      that match's scores fails until the first poll fills the row. */
  lemma PlaceholderFailsRead(st: Store, matchId: int)
    requires st.columnDefault.None?
    ensures var st' := InsertData(st, IntoScores(matchId), NoFault).store;
      GetScore(st', Itoa(matchId), None).Failure?
  {
    var st' := InsertData(st, IntoScores(matchId), NoFault).store;
    var s := st'.scores[|st'.scores| - 1];
    assert st'.scores[..|st'.scores| - 1] == st.scores;
    assert Targets(Itoa(matchId), s);
    var ss := ScoresKeyed(st'.scores, Itoa(matchId));
    assert ss[|ss| - 1] == s;
  }

  // ------------------------------------------------------- GetMatchScoreLive

  /** The `WHERE` clause of the live query on one joined pair: the match is
      on `todate`, has started by `cutoff` (a text comparison), and its
      score row holds an inning that is neither terminal sentinel. A NULL
      inning, which is also what the outer join supplies for a match
      without a score row, compares as unknown and is not selected. */
  predicate Live(m: MatchRow, s: ScoreRow, todate: string, cutoff: string)
  {
    && s.matchId == m.id
    && m.date == todate
    && TextLe(m.starttime, cutoff)
    && s.inning.Some?
    && !IsTerminal(s.inning.value)
  }

  /** The score rows joined to `m` that pass the `WHERE` clause. */
  function LiveScores(m: MatchRow, ss: seq<ScoreRow>, todate: string, cutoff: string): (r: seq<ScoreRow>)
    ensures |r| <= |ss|
    decreases |ss|
  {
    if |ss| == 0 then []
    else
      var s := ss[|ss| - 1];
      LiveScores(m, ss[..|ss| - 1], todate, cutoff) + (if Live(m, s, todate, cutoff) then [s] else [])
  }

  lemma {:induction false} LiveScoresMembers(m: MatchRow, ss: seq<ScoreRow>, todate: string, cutoff: string)
    ensures forall s :: s in LiveScores(m, ss, todate, cutoff) <==> s in ss && Live(m, s, todate, cutoff)
    decreases |ss|
  {
    if |ss| > 0 {
      var pre := ss[..|ss| - 1];
      LiveScoresMembers(m, pre, todate, cutoff);
      assert ss == pre + [ss[|ss| - 1]];
    }
  }

  datatype Pair = Pair(m: MatchRow, s: ScoreRow)

  function PairsOf(m: MatchRow, ss: seq<ScoreRow>): (r: seq<Pair>)
    ensures |r| == |ss| && forall k :: 0 <= k < |ss| ==> r[k] == Pair(m, ss[k])
  {
    seq(|ss|, k requires 0 <= k < |ss| => Pair(m, ss[k]))
  }

  /** The rows the live query returns: matches in table order, each followed
      by its selected score rows in table order. */
  function LiveJoin(ms: seq<MatchRow>, ss: seq<ScoreRow>, todate: string, cutoff: string): seq<Pair>
    decreases |ms|
  {
    if |ms| == 0 then []
    else
      var m := ms[|ms| - 1];
      LiveJoin(ms[..|ms| - 1], ss, todate, cutoff) + PairsOf(m, LiveScores(m, ss, todate, cutoff))
  }

  /** The join returns exactly the live pairs of stored rows. */
  lemma {:induction false} LiveJoinMembers(ms: seq<MatchRow>, ss: seq<ScoreRow>, todate: string, cutoff: string)
    ensures forall p :: p in LiveJoin(ms, ss, todate, cutoff) <==>
      p.m in ms && p.s in ss && Live(p.m, p.s, todate, cutoff)
    decreases |ms|
  {
    if |ms| > 0 {
      var pre := ms[..|ms| - 1];
      var m := ms[|ms| - 1];
      LiveJoinMembers(pre, ss, todate, cutoff);
      LiveScoresMembers(m, ss, todate, cutoff);
      assert ms == pre + [m];
      var here := PairsOf(m, LiveScores(m, ss, todate, cutoff));
      assert forall p :: p in here <==> p.m == m && p.s in LiveScores(m, ss, todate, cutoff) by {
        forall p: Pair | p.m == m && p.s in LiveScores(m, ss, todate, cutoff)
          ensures p in here
        {
          var k :| 0 <= k < |LiveScores(m, ss, todate, cutoff)| && LiveScores(m, ss, todate, cutoff)[k] == p.s;
          assert here[k] == p;
        }
      }
    }
  }

  /** `id`, seven `string` columns of the match, and the inning. */
  function LiveKinds(): seq<Kind>
  {
    [IntKind] + TextKinds(8)
  }

  function LiveCells(p: Pair): seq<Cell>
  {
    [IntCell(p.m.id)] + TextCells([p.m.date, p.m.home, p.m.away, p.m.league, p.m.stadium, p.m.starttime, p.m.link])
    + [OptCell(p.s.inning)]
  }

  /** The live reader stores the inning under the key `result`. */
  function LiveRecord(v: seq<Value>): Row
    requires |v| == 9
  {
    map["id" := v[0], "date" := v[1], "home" := v[2], "away" := v[3], "league" := v[4],
        "stadium" := v[5], "starttime" := v[6], "link" := v[7], "result" := v[8]]
  }

  /** The record the live reader reports for a match and its inning. */
  function LiveRow(m: MatchRow, inning: string): Row
  {
    map["id" := Int(m.id), "date" := Str(m.date), "home" := Str(m.home), "away" := Str(m.away),
        "league" := Str(m.league), "stadium" := Str(m.stadium), "starttime" := Str(m.starttime),
        "link" := Str(m.link), "result" := Str(inning)]
  }
  /** A live row carries the match's id as an integer and its link as a
      text. */
  lemma LiveRowFields(m: MatchRow, inning: string)
    ensures "id" in LiveRow(m, inning) && LiveRow(m, inning)["id"] == Int(m.id)
    ensures "link" in LiveRow(m, inning) && LiveRow(m, inning)["link"] == Str(m.link)
  {
  }


  lemma LiveCellsScan(p: Pair)
    requires p.s.inning.Some?
    ensures Scans(LiveCells(p), LiveKinds())
    ensures LiveRecord(ScanValues(LiveCells(p), LiveKinds()).value) == PairRow(p)
  {
    var cells, kinds := LiveCells(p), LiveKinds();
    assert forall k :: 0 <= k < |kinds| ==> Fits(cells[k], kinds[k]);
    ScanFitting(cells, kinds);
    var v := ScanValues(cells, kinds).value;
    assert v[0] == Int(p.m.id) && v[1] == Str(p.m.date) && v[2] == Str(p.m.home);
    assert v[3] == Str(p.m.away) && v[4] == Str(p.m.league) && v[5] == Str(p.m.stadium);
    assert v[6] == Str(p.m.starttime) && v[7] == Str(p.m.link) && v[8] == Str(p.s.inning.value);
  }

  /** The record of one joined pair. */
  function PairRow(p: Pair): Row
  {
    LiveRow(p.m, match p.s.inning case Some(i) => i case None => "")
  }

  function LiveRows(ps: seq<Pair>): (r: seq<Row>)
    ensures |r| == |ps| && forall k :: 0 <= k < |ps| ==> r[k] == PairRow(ps[k])
  {
    seq(|ps|, k requires 0 <= k < |ps| => PairRow(ps[k]))
  }

  function LiveResultSet(ps: seq<Pair>): (r: seq<seq<Cell>>)
    ensures |r| == |ps| && forall k :: 0 <= k < |ps| ==> r[k] == LiveCells(ps[k])
  {
    seq(|ps|, k requires 0 <= k < |ps| => LiveCells(ps[k]))
  }

  /** Reading the live result set yields the join's records. */
  lemma LiveRead(ms: seq<MatchRow>, ss: seq<ScoreRow>, todate: string, cutoff: string)
    ensures var ps := LiveJoin(ms, ss, todate, cutoff);
      && Read(ResultSet(LiveResultSet(ps)), LiveKinds()).Success?
      && var vs := Read(ResultSet(LiveResultSet(ps)), LiveKinds()).value;
         seq(|vs|, k requires 0 <= k < |vs| => LiveRecord(vs[k])) == LiveRows(ps)
  {
    var ps := LiveJoin(ms, ss, todate, cutoff);
    LiveJoinMembers(ms, ss, todate, cutoff);
    forall k | 0 <= k < |ps|
      ensures Scans(LiveResultSet(ps)[k], LiveKinds())
      ensures LiveRecord(ScanValues(LiveResultSet(ps)[k], LiveKinds()).value) == PairRow(ps[k])
    {
      assert ps[k] in ps;
      LiveCellsScan(ps[k]);
    }
    var vs := Read(ResultSet(LiveResultSet(ps)), LiveKinds()).value;
    var recs := seq(|vs|, k requires 0 <= k < |vs| => LiveRecord(vs[k]));
    assert |recs| == |LiveRows(ps)|;
    forall k | 0 <= k < |recs|
      ensures recs[k] == LiveRows(ps)[k]
    {
    }
  }

  /** `GetMatchScoreLive`: the records of the live join, one per pair and
      in join order, with the inning under `result`; a failing query gives
      the wrapped error. Store rows always scan here, because the query only
      selects non-NULL innings. */
  function GetMatchScoreLive(st: Store, todate: string, cutoff: string, fault: Option<string>): (r: Result<seq<Row>>)
    ensures fault.Some? ==> r == Failure(QueryFailed(fault.value))
    ensures fault.None? ==> r == Success(LiveRows(LiveJoin(st.matches, st.scores, todate, cutoff)))
  {
    var ps := LiveJoin(st.matches, st.scores, todate, cutoff);
    LiveRead(st.matches, st.scores, todate, cutoff);
    match Read(Query(fault, LiveResultSet(ps)), LiveKinds())
    case Failure(e) => Failure(e)
    case Success(vs) => Success(seq(|vs|, k requires 0 <= k < |vs| => LiveRecord(vs[k])))
  }

  /** The live set is exactly the stored matches of `todate` that have
      started by `cutoff`, paired with each score row whose inning is set and
      not terminal. */
  lemma LiveSetExactly(st: Store, todate: string, cutoff: string)
    ensures forall row :: row in GetMatchScoreLive(st, todate, cutoff, None).value <==>
      exists m, s ::
        && m in st.matches && s in st.scores && Live(m, s, todate, cutoff)
        && row == LiveRow(m, s.inning.value)
  {
    var rows := GetMatchScoreLive(st, todate, cutoff, None).value;
    forall row | row in rows
      ensures exists m, s ::
        && m in st.matches && s in st.scores && Live(m, s, todate, cutoff)
        && row == LiveRow(m, s.inning.value)
    {
      LiveRowOrigin(st, todate, cutoff, row);
    }
    forall m, s | m in st.matches && s in st.scores && Live(m, s, todate, cutoff)
      ensures LiveRow(m, s.inning.value) in rows
    {
      LivePairReported(st, m, s, todate, cutoff);
    }
  }

  /** Every row the live query reports comes from a stored live pair. */
  lemma LiveRowOrigin(st: Store, todate: string, cutoff: string, row: Row)
    requires row in GetMatchScoreLive(st, todate, cutoff, None).value
    ensures exists m, s :: m in st.matches && s in st.scores && Live(m, s, todate, cutoff) && row == LiveRow(m, s.inning.value)
  {
    var ps := LiveJoin(st.matches, st.scores, todate, cutoff);
    var rows := GetMatchScoreLive(st, todate, cutoff, None).value;
    LiveJoinMembers(st.matches, st.scores, todate, cutoff);
    var k :| 0 <= k < |rows| && rows[k] == row;
    assert ps[k] in ps;
  }

  /** A stored live pair is reported by the live query. */
  lemma LivePairReported(st: Store, m: MatchRow, s: ScoreRow, todate: string, cutoff: string)
    requires m in st.matches && s in st.scores && Live(m, s, todate, cutoff)
    ensures LiveRow(m, s.inning.value) in GetMatchScoreLive(st, todate, cutoff, None).value
  {
    var ps := LiveJoin(st.matches, st.scores, todate, cutoff);
    LiveJoinMembers(st.matches, st.scores, todate, cutoff);
    var p := Pair(m, s);
    assert p in ps;
    var k :| 0 <= k < |ps| && ps[k] == p;
    assert GetMatchScoreLive(st, todate, cutoff, None).value[k] == LiveRow(m, s.inning.value);
  }

  /** When every score row of match `id` is missing its inning or holds a
      terminal one, the live query does not report that match. */
  lemma RetiredMatchNotLive(st: Store, id: int, todate: string, cutoff: string)
    requires forall s :: s in st.scores && s.matchId == id ==> s.inning.None? || IsTerminal(s.inning.value)
    ensures forall row :: row in GetMatchScoreLive(st, todate, cutoff, None).value ==> row["id"] != Int(id)
  {
    LiveSetExactly(st, todate, cutoff);
  }

  /** A later cutoff only adds matches. */
  lemma LiveGrowsWithCutoff(st: Store, todate: string, early: string, late: string)
    requires TextLe(early, late)
    ensures forall row :: row in GetMatchScoreLive(st, todate, early, None).value ==>
      row in GetMatchScoreLive(st, todate, late, None).value
  {
    LiveSetExactly(st, todate, early);
    LiveSetExactly(st, todate, late);
    forall m, s | m in st.matches && s in st.scores && Live(m, s, todate, early)
      ensures Live(m, s, todate, late)
    {
      TextLeTransitive(m.starttime, early, late);
    }
  }

  /** No live pair: an empty (nil) list and no error. */
  lemma NoLiveMatches(st: Store, todate: string, cutoff: string)
    requires forall m, s :: m in st.matches && s in st.scores ==> !Live(m, s, todate, cutoff)
    ensures GetMatchScoreLive(st, todate, cutoff, None) == Success([])
  {
    var ps := LiveJoin(st.matches, st.scores, todate, cutoff);
    LiveJoinMembers(st.matches, st.scores, todate, cutoff);
    if |ps| > 0 {
      assert ps[0] in ps;
    }
  }
}
