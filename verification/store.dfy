/**
 * The two tables the pipeline shares, `matches` and `scores`, and the two
 * write operations of the repository: `InsertData` (with its
 * last-insert id) and `UpdateData` (with its rows-affected count).
 *
 * The store's engine is MySQL: an insert takes the next auto-increment id
 * of its table, and an update reports the rows it actually changed.
 * Failures of the engine are not decided by the model; each statement is
 * handed the fault it meets.
 */
module Store {
  import opened Results
  import opened Decimal

  /** A `matches` row. */
  datatype MatchRow = MatchRow(
    id: int,
    date: string,
    home: string,
    away: string,
    stadium: string,
    starttime: string,
    link: string,
    league: string)

  /** A `scores` row; every progress column may be NULL. */
  datatype ScoreRow = ScoreRow(
    id: int,
    matchId: int,
    homeScore: Option<string>,
    awayScore: Option<string>,
    batter: Option<string>,
    inning: Option<string>,
    result: Option<string>)

  /** Both tables in insertion order, their last auto-increment ids, and the
      value the schema gives the progress columns an insert leaves out. */
  datatype Store = Store(
    matches: seq<MatchRow>,
    scores: seq<ScoreRow>,
    lastMatchId: int,
    lastScoreId: int,
    columnDefault: Option<string>)

  /** Match ids are positive, increase in insertion order and never pass the
      auto-increment counter. */
  predicate Valid(st: Store)
  {
    && st.lastMatchId >= 0
    && (forall i, j :: 0 <= i < j < |st.matches| ==> st.matches[i].id < st.matches[j].id)
    && (forall i :: 0 <= i < |st.matches| ==> 1 <= st.matches[i].id <= st.lastMatchId)
  }

  /** The two insert statements of the pipeline, with their bound values in
      column order. */
  datatype Insert =
    | IntoMatches(date: string, home: string, away: string, stadium: string,
                  starttime: string, link: string, league: string)
    | IntoScores(matchId: int)

  /** `UPDATE scores SET home_score, away_score, batter, inning, result
      WHERE match_id = key`. */
  datatype ScoreUpdate = ScoreUpdate(
    homeScore: string,
    awayScore: string,
    batter: string,
    inning: string,
    result: string,
    key: string)

  /** What befalls one statement: nothing; `Exec` fails and nothing is
      applied; or the statement is applied and reading its result
      (`LastInsertId`, `RowsAffected`) fails. */
  datatype ExecFault = NoFault | ExecFails(cause: string) | ResultFails(cause: string)

  /** The `(int, error)` pair of a write and the store after it. */
  datatype Exec = Exec(n: int, err: Option<Error>, store: Store)

  function Ids(ms: seq<MatchRow>): set<int>
  {
    set m | m in ms :: m.id
  }

  /** The store with the insert applied, and the id it assigned. */
  function ApplyInsert(st: Store, ins: Insert): (Store, int)
  {
    match ins
    case IntoMatches(date, home, away, stadium, starttime, link, league) =>
      var id := st.lastMatchId + 1;
      (st.(matches := st.matches + [MatchRow(id, date, home, away, stadium, starttime, link, league)],
           lastMatchId := id), id)
    case IntoScores(matchId) =>
      var d := st.columnDefault;
      var id := st.lastScoreId + 1;
      (st.(scores := st.scores + [ScoreRow(id, matchId, d, d, d, d, d)], lastScoreId := id), id)
  }

  /** `InsertData`: the new row's id on success; 0 and a wrapped error when
      the statement fails (nothing applied) or when its id cannot be read
      (the row stays inserted). */
  function InsertData(st: Store, ins: Insert, fault: ExecFault): (r: Exec)
    ensures fault.ExecFails? ==> r == Exec(0, Some(ExecFailed(fault.cause)), st)
    ensures fault.ResultFails? ==> r.n == 0 && r.err == Some(ExecResultFailed(fault.cause))
    ensures !fault.ExecFails? ==> r.store == ApplyInsert(st, ins).0
    ensures fault.NoFault? ==> r.err.None?
  {
    match fault
    case ExecFails(c) => Exec(0, Some(ExecFailed(c)), st)
    case ResultFails(c) => Exec(0, Some(ExecResultFailed(c)), ApplyInsert(st, ins).0)
    case NoFault => Exec(ApplyInsert(st, ins).1, None, ApplyInsert(st, ins).0)
  }

  /** Every insert leaves the match ids valid, whatever befalls it, and
      keeps the rows already there. */
  lemma InsertKeepsValid(st: Store, ins: Insert, fault: ExecFault)
    requires Valid(st)
    ensures Valid(InsertData(st, ins, fault).store)
    ensures st.matches <= InsertData(st, ins, fault).store.matches
  {
  }

  /** A successful `matches` insert returns an id no earlier row has, and
      the new row carries it. */
  lemma InsertAssignsFreshId(st: Store, ins: Insert)
    requires Valid(st) && ins.IntoMatches?
    ensures var r := InsertData(st, ins, NoFault);
      && r.n !in Ids(st.matches)
      && r.n in Ids(r.store.matches)
      && r.store.matches[|r.store.matches| - 1].id == r.n
  {
    var r := InsertData(st, ins, NoFault);
    assert r.store.matches[|r.store.matches| - 1] in r.store.matches;
  }

  /** The rows an update statement's `WHERE match_id = key` selects: the
      text key is read as a decimal number and compared with the integer
      column. */
  predicate Targets(key: string, s: ScoreRow)
  {
    ParseDecimal(key) == Some(s.matchId)
  }

  /** The row with the five progress columns the update writes. */
  function UpdateRow(s: ScoreRow, u: ScoreUpdate): ScoreRow
  {
    s.(homeScore := Some(u.homeScore), awayScore := Some(u.awayScore), batter := Some(u.batter),
       inning := Some(u.inning), result := Some(u.result))
  }

  function ApplyUpdate(scores: seq<ScoreRow>, u: ScoreUpdate): (r: seq<ScoreRow>)
    ensures |r| == |scores|
  {
    seq(|scores|, k requires 0 <= k < |scores| =>
      if Targets(u.key, scores[k]) then UpdateRow(scores[k], u) else scores[k])
  }

  /** The rows the update selects and actually changes, which is what
      MySQL reports as rows affected. */
  function Changed(scores: seq<ScoreRow>, u: ScoreUpdate): nat
    decreases |scores|
  {
    if |scores| == 0 then 0
    else
      var s := scores[|scores| - 1];
      Changed(scores[..|scores| - 1], u) + (if Targets(u.key, s) && UpdateRow(s, u) != s then 1 else 0)
  }

  /** `UpdateData`: the number of rows affected on success; 0 and a wrapped
      error (worded like the insert's) when the statement fails (nothing
      applied) or when the count cannot be read (the update stays
      applied). Only the `scores` rows of the keyed match change, and they
      take exactly the written values. */
  function UpdateData(st: Store, u: ScoreUpdate, fault: ExecFault): (r: Exec)
    ensures fault.ExecFails? ==> r == Exec(0, Some(ExecFailed(fault.cause)), st)
    ensures fault.ResultFails? ==> r.n == 0 && r.err == Some(ExecResultFailed(fault.cause))
    ensures fault.NoFault? ==> r.err.None? && r.n == Changed(st.scores, u) && 0 <= r.n <= |st.scores|
    ensures !fault.ExecFails? ==>
      && r.store.matches == st.matches
      && |r.store.scores| == |st.scores|
      && forall k :: 0 <= k < |st.scores| ==>
           r.store.scores[k].id == st.scores[k].id
           && r.store.scores[k].matchId == st.scores[k].matchId
           && (Targets(u.key, st.scores[k]) ==> r.store.scores[k] == UpdateRow(st.scores[k], u))
           && (!Targets(u.key, st.scores[k]) ==> r.store.scores[k] == st.scores[k])
  {
    var applied := st.(scores := ApplyUpdate(st.scores, u));
    match fault
    case ExecFails(c) => Exec(0, Some(ExecFailed(c)), st)
    case ResultFails(c) => Exec(0, Some(ExecResultFailed(c)), applied)
    case NoFault =>
      ChangedBound(st.scores, u);
      Exec(Changed(st.scores, u), None, applied)
  }

  /** The positions of the rows an update alters. */
  function AlteredAt(scores: seq<ScoreRow>, u: ScoreUpdate): set<int>
  {
    set k | 0 <= k < |scores| && ApplyUpdate(scores, u)[k] != scores[k]
  }

  /** The affected-row count is the number of rows whose contents the
      update alters: selected rows already holding the written values do
      not count. */
  lemma {:induction false} ChangedCountsAltered(scores: seq<ScoreRow>, u: ScoreUpdate)
    ensures Changed(scores, u) == |AlteredAt(scores, u)|
    decreases |scores|
  {
    if |scores| == 0 {
      assert AlteredAt(scores, u) == {};
    } else {
      var n := |scores| - 1;
      var pre := scores[..n];
      ChangedCountsAltered(pre, u);
      var a := ApplyUpdate(scores, u);
      assert forall k :: 0 <= k < n ==> a[k] == ApplyUpdate(pre, u)[k] && scores[k] == pre[k];
      if a[n] != scores[n] {
        assert AlteredAt(scores, u) == AlteredAt(pre, u) + {n};
      } else {
        assert AlteredAt(scores, u) == AlteredAt(pre, u);
      }
    }
  }

  lemma {:induction false} ChangedBound(scores: seq<ScoreRow>, u: ScoreUpdate)
    ensures Changed(scores, u) <= |scores|
    decreases |scores|
  {
    if |scores| > 0 {
      ChangedBound(scores[..|scores| - 1], u);
    }
  }

  /** Writing the same values again changes nothing: the second identical
      update reports no affected rows and leaves the table as it was. */
  lemma {:induction false} UpdateTwiceChangesNothing(scores: seq<ScoreRow>, u: ScoreUpdate)
    ensures ApplyUpdate(ApplyUpdate(scores, u), u) == ApplyUpdate(scores, u)
    ensures Changed(ApplyUpdate(scores, u), u) == 0
    decreases |scores|
  {
    var once := ApplyUpdate(scores, u);
    if |scores| > 0 {
      var pre := scores[..|scores| - 1];
      UpdateTwiceChangesNothing(pre, u);
      assert once[..|once| - 1] == ApplyUpdate(pre, u);
    }
  }

  /** The update key of a match id selects exactly that match's rows. */
  lemma ItoaTargets(id: int, s: ScoreRow)
    ensures Targets(Itoa(id), s) <==> s.matchId == id
  {
  }
}
