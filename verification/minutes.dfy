/**
 * `GetScores`: the live poll. It connects, reads the live set, and for each
 * live row fetches the match page, extracts the snapshot and writes it to
 * the match's `scores` rows, pausing after every write. The first failure
 * ends the run.
 *
 * Today's date and the clock-time cutoff of the live query are parameters
 * of the poll.
 */
module Minutes {
  import opened Results
  import opened Text
  import opened Decimal
  import opened Rows
  import opened Store
  import opened Score
  import opened Repository
  import opened Jobs

  /** Seconds the poll sleeps after each successful write. */
  const PollPause: nat := 10

  /** The update a snapshot becomes for the match `id`: the two score
      cells, the batter, the inning and the result, keyed by the decimal
      text of the id. */
  function UpdateOf(snap: Snapshot, id: int): (u: ScoreUpdate)
    ensures ParseDecimal(u.key) == Some(id)
    ensures [u.inning, u.homeScore, u.awayScore, u.batter, u.result] == snap.Fields()
  {
    ScoreUpdate(snap.homeScore, snap.awayScore, snap.batter, snap.inning, snap.result, Itoa(id))
  }

  /** The panic of a failed type assertion `row[key].(want)`. */
  function ConversionPanic(row: Row, key: string, want: string): Error
  {
    var has := if key !in row then "nil" else if row[key].Int? then "int" else "string";
    Panic("interface conversion: interface {} is " + has + ", not " + want)
  }

  /** The row's `link` as a text, when it holds one. */
  predicate HasLink(row: Row)
  {
    "link" in row && row["link"].Str?
  }

  /** The row's `id` as an integer, when it holds one. */
  predicate HasId(row: Row)
  {
    "id" in row && row["id"].Int?
  }

  /** What reading a live row's page gives: the events so far and, when
      the page could be fetched and read, the update it leads to. */
  datatype Reading = Reading(events: seq<Event>, plan: Option<ScoreUpdate>)

  /** Fetch the row's page and extract its snapshot; on any failure, the
      events end with it. */
  function ReadRow(row: Row, net: string -> Fetch<ScorePage>): Reading
  {
    if !HasLink(row) then Reading([Fail(ConversionPanic(row, "link", "string"))], None)
    else
      var link := row["link"].s;
      match net(link)
      case UrlError(c) => Reading([FetchPage(link), Fail(UrlFailed(c))], None)
      case BodyError(c) => Reading([FetchPage(link), Fail(BodyFailed(c))], None)
      case Page(doc) =>
        match GetMatchScore(doc)
        case Failure(e) => Reading([FetchPage(link), Fail(e)], None)
        case Success(snaps) =>
          if !HasId(row) then Reading([FetchPage(link), Fail(ConversionPanic(row, "id", "int"))], None)
          else Reading([FetchPage(link)], Some(UpdateOf(snaps[0], row["id"].i)))
  }

  /** The update a live row leads to when its page can be fetched and read:
      it depends only on the row's `link` and `id`. */
  function Planned(row: Row, net: string -> Fetch<ScorePage>): (r: Option<ScoreUpdate>)
    ensures r.Some? ==> HasLink(row) && HasId(row) && ParseDecimal(r.value.key) == Some(row["id"].i)
  {
    ReadRow(row, net).plan
  }

  /** A row's reading either plans its update after fetching the page, or
      ends with its failure and touches nothing. */
  lemma ReadRowShape(row: Row, net: string -> Fetch<ScorePage>)
    ensures var rd := ReadRow(row, net);
      && (rd.plan.Some? ==>
            && HasLink(row) && HasId(row) && ParseDecimal(rd.plan.value.key) == Some(row["id"].i)
            && rd.events == [FetchPage(row["link"].s)])
      && (rd.plan.None? ==>
            && 1 <= |rd.events| <= 2 && rd.events[|rd.events| - 1].Fail?
            && (|rd.events| == 2 ==> rd.events[0].FetchPage?))
  {
  }

  /** The same update for rows that agree on `link` and `id`. */
  lemma PlannedByLinkAndId(a: Row, b: Row, net: string -> Fetch<ScorePage>)
    requires HasLink(a) && HasLink(b) && HasId(a) && HasId(b)
    requires a["link"] == b["link"] && a["id"] == b["id"]
    ensures Planned(a, net) == Planned(b, net)
  {
  }

  /** The write of a planned update after the reading's events. */
  function WriteRound(st: Store, pre: seq<Event>, u: ScoreUpdate, f: ExecFault): Round
  {
    var e := UpdateData(st, u, f);
    if f.NoFault? then Round(e.store, pre + [Update(u), Sleep(PollPause)], true)
    else Round(e.store, pre + FaultEvents(f, Update(u)), false)
  }

  /** One live row's turn: fetch, extract, write. */
  function Visit(st: Store, row: Row, net: string -> Fetch<ScorePage>, f: ExecFault): Round
  {
    var rd := ReadRow(row, net);
    match rd.plan
    case None => Round(st, rd.events, false)
    case Some(u) => WriteRound(st, rd.events, u, f)
  }

  /** The loop over the live rows, whose writes meet faults from index `k`
      on. */
  function PollRows(st: Store, rows: seq<Row>, net: string -> Fetch<ScorePage>, faults: Faults, k: nat): Run
    decreases |rows|
  {
    if |rows| == 0 then Run(st, [])
    else
      var v := Visit(st, rows[0], net, ExecAt(faults, k));
      if !v.ok then Run(v.store, v.events)
      else
        var rest := PollRows(v.store, rows[1..], net, faults, k + 1);
        Run(rest.store, v.events + rest.trace)
  }

  /** The poll job for the day `todate`, reading the matches started by
      `cutoff`, with the page fetches injected as `net`. */
  function GetScores(st: Store, todate: string, cutoff: string, net: string -> Fetch<ScorePage>, faults: Faults): (r: Run)
    ensures |r.trace| > 0
    ensures r.store != st ==> |r.trace| > 1 && r.trace[0] == Connect && r.trace[1].QueryLive?
    ensures r.store.matches == st.matches && |r.store.scores| == |st.scores|
  {
    match faults.connect
    case Some(c) => Run(st, [Fail(ConnectFailed(c))])
    case None =>
      match GetMatchScoreLive(st, todate, cutoff, faults.query)
      case Failure(e) => Run(st, [Connect, Fail(e)])
      case Success(rows) =>
        var r := PollRows(st, rows, net, faults, 0);
        PollKeepsKeys(st, rows, net, faults, 0);
        Run(r.store, [Connect, QueryLive(|rows|)] + r.trace)
  }

  // ---------------------------------------------------------------------
  // One visit

  /** A visit writes exactly its row's planned update, if anything, and
      goes on only after a clean write of it. */
  lemma VisitFacts(st: Store, row: Row, net: string -> Fetch<ScorePage>, f: ExecFault)
    ensures var v := Visit(st, row, net, f);
      && (Planned(row, net).None? ==> v.store == st && !v.ok)
      && (Planned(row, net).Some? ==> v.store == UpdateData(st, Planned(row, net).value, f).store)
      && (v.ok <==> Planned(row, net).Some? && f.NoFault?)
      && (v.ok ==> v.events == [FetchPage(row["link"].s), Update(Planned(row, net).value), Sleep(PollPause)])
      && (forall e :: e in v.events && e.Update? ==> Planned(row, net) == Some(e.update) && !f.ExecFails?)
  {
    var rd := ReadRow(row, net);
    ReadRowShape(row, net);
    if rd.plan.None? {
      assert forall e :: e in rd.events ==> !e.Update? by {
        assert rd.events == [rd.events[0]] || rd.events == [rd.events[0], rd.events[1]];
      }
    }
  }

  /** A visit that does not go on ends with its one failure. */
  lemma VisitFailsLast(st: Store, row: Row, net: string -> Fetch<ScorePage>, f: ExecFault)
    requires !Visit(st, row, net, f).ok
    ensures var ev := Visit(st, row, net, f).events;
      && |ev| > 0 && ev[|ev| - 1].Fail?
      && (forall i :: 0 <= i < |ev| - 1 ==> !ev[i].Fail?)
      && Paced(ev)
  {
    var rd := ReadRow(row, net);
    ReadRowShape(row, net);
    match rd.plan
    case None =>
      FailedReading(rd.events);
    case Some(u) =>
      FailedWrite(row["link"].s, u, f);
  }

  lemma FailedReading(ev: seq<Event>)
    requires 1 <= |ev| <= 2 && ev[|ev| - 1].Fail? && (|ev| == 2 ==> ev[0].FetchPage?)
    ensures forall i :: 0 <= i < |ev| - 1 ==> !ev[i].Fail?
    ensures Paced(ev)
  {
  }

  lemma FailedWrite(link: string, u: ScoreUpdate, f: ExecFault)
    requires !f.NoFault?
    ensures var ev := [FetchPage(link)] + FaultEvents(f, Update(u));
      && |ev| > 0 && ev[|ev| - 1].Fail?
      && (forall i :: 0 <= i < |ev| - 1 ==> !ev[i].Fail?)
      && Paced(ev)
  {
    var ev := [FetchPage(link)] + FaultEvents(f, Update(u));
    if f.ResultFails? {
      assert ev == [FetchPage(link), Update(u), Fail(WriteError(f))];
    } else {
      assert ev == [FetchPage(link), Fail(WriteError(f))];
    }
  }


  // ---------------------------------------------------------------------
  // The shape of a poll trace

  /** Every pause follows a write, and every write is followed by the pause
      or by the failure reading its result. */
  predicate Paced(tr: seq<Event>)
  {
    && (forall i :: 0 <= i < |tr| && tr[i].Sleep? ==> i > 0 && tr[i - 1].Update? && tr[i].seconds == PollPause)
    && (forall i :: 0 <= i < |tr| && tr[i].Update? ==> i + 1 < |tr| && (tr[i + 1].Sleep? || tr[i + 1].Fail?))
  }

  lemma PacedConcat(a: seq<Event>, b: seq<Event>)
    requires Paced(a) && Paced(b)
    ensures Paced(a + b)
  {
    var c := a + b;
    forall i | 0 <= i < |c| && c[i].Sleep?
      ensures i > 0 && c[i - 1].Update? && c[i].seconds == PollPause
    {
      if i >= |a| {
        assert c[i] == b[i - |a|];
        assert c[i - 1] == b[i - |a| - 1];
      }
    }
    forall i | 0 <= i < |c| && c[i].Update?
      ensures i + 1 < |c| && (c[i + 1].Sleep? || c[i + 1].Fail?)
    {
      if i >= |a| {
        assert c[i] == b[i - |a|];
        assert c[i + 1] == b[i - |a| + 1];
      }
    }
  }

  /** A poll's trace fails at most once, at its end; pauses follow writes
      and writes are followed by a pause or end the run. */
  lemma {:induction false} PollRowsShape(st: Store, rows: seq<Row>, net: string -> Fetch<ScorePage>, faults: Faults, k: nat)
    ensures var tr := PollRows(st, rows, net, faults, k).trace;
      FailOnlyLast(tr) && Paced(tr)
    decreases |rows|
  {
    if |rows| > 0 {
      var v := Visit(st, rows[0], net, ExecAt(faults, k));
      VisitFacts(st, rows[0], net, ExecAt(faults, k));
      if !v.ok {
        VisitFailsLast(st, rows[0], net, ExecAt(faults, k));
      } else {
        var rest := PollRows(v.store, rows[1..], net, faults, k + 1);
        PollRowsShape(v.store, rows[1..], net, faults, k + 1);
        assert Paced(v.events);
        PacedConcat(v.events, rest.trace);
        FailOnlyLastConcat(v.events, rest.trace);
      }
    }
  }

  /** The same for the whole job, whatever its inputs; the job returns an
      error exactly when its trace holds a failure. */
  lemma GetScoresShape(st: Store, todate: string, cutoff: string, net: string -> Fetch<ScorePage>, faults: Faults)
    ensures var r := GetScores(st, todate, cutoff, net, faults);
      && FailOnlyLast(r.trace) && Paced(r.trace)
      && (r.Err().None? <==> forall i :: 0 <= i < |r.trace| ==> !r.trace[i].Fail?)
  {
    var r := GetScores(st, todate, cutoff, net, faults);
    if faults.connect.None? {
      var q := GetMatchScoreLive(st, todate, cutoff, faults.query);
      if q.Success? {
        PolledShape(st, q.value, net, faults);
      }
    }
    ErrOfFailOnlyLast(r);
  }

  /** The trace of a poll that got past the live query. */
  lemma PolledShape(st: Store, rows: seq<Row>, net: string -> Fetch<ScorePage>, faults: Faults)
    ensures var tr := [Connect, QueryLive(|rows|)] + PollRows(st, rows, net, faults, 0).trace;
      FailOnlyLast(tr) && Paced(tr)
  {
    var p := PollRows(st, rows, net, faults, 0);
    var head := [Connect, QueryLive(|rows|)];
    PollRowsShape(st, rows, net, faults, 0);
    PacedConcat(head, p.trace);
    FailOnlyLastConcat(head, p.trace);
  }


  // ---------------------------------------------------------------------
  // Failures before the loop

  /** A failed connection ends the poll before the live query. */
  lemma PollConnectFailure(st: Store, todate: string, cutoff: string, net: string -> Fetch<ScorePage>, faults: Faults)
    requires faults.connect.Some?
    ensures var r := GetScores(st, todate, cutoff, net, faults);
      r == Run(st, [Fail(ConnectFailed(faults.connect.value))]) && r.Err() == Some(ConnectFailed(faults.connect.value))
  {
  }

  /** A failed live query ends the poll before any page is fetched. */
  lemma PollQueryFailure(st: Store, todate: string, cutoff: string, net: string -> Fetch<ScorePage>, faults: Faults)
    requires faults.connect.None? && faults.query.Some?
    ensures var r := GetScores(st, todate, cutoff, net, faults);
      r == Run(st, [Connect, Fail(QueryFailed(faults.query.value))]) && r.Err() == Some(QueryFailed(faults.query.value))
  {
  }

  /** With nothing live the poll fetches and writes nothing and succeeds. */
  lemma PollNothingLive(st: Store, todate: string, cutoff: string, net: string -> Fetch<ScorePage>, faults: Faults)
    requires faults.connect.None? && faults.query.None?
    requires forall m, s :: m in st.matches && s in st.scores ==> !Live(m, s, todate, cutoff)
    ensures var r := GetScores(st, todate, cutoff, net, faults);
      r == Run(st, [Connect, QueryLive(0)]) && r.Err().None?
  {
    NoLiveMatches(st, todate, cutoff);
  }

  /** Live rows carry a text `link` and an integer `id`, so the poll's type
      assertions never panic on them. */
  lemma LiveRowsTyped(st: Store, todate: string, cutoff: string)
    ensures forall row :: row in GetMatchScoreLive(st, todate, cutoff, None).value ==> HasLink(row) && HasId(row)
  {
    forall row | row in GetMatchScoreLive(st, todate, cutoff, None).value
      ensures HasLink(row) && HasId(row)
    {
      LiveRowOrigin(st, todate, cutoff, row);
      var m, s :| m in st.matches && s in st.scores && Live(m, s, todate, cutoff) && row == LiveRow(m, s.inning.value);
      LiveRowFields(m, s.inning.value);
    }
  }

  // ---------------------------------------------------------------------
  // Where the writes come from

  /** Every write of a poll is the planned update of one of its rows. */
  lemma {:induction false} UpdatesArePlanned(st: Store, rows: seq<Row>, net: string -> Fetch<ScorePage>, faults: Faults, k: nat)
    ensures forall e :: e in PollRows(st, rows, net, faults, k).trace && e.Update? ==>
      exists j :: 0 <= j < |rows| && Planned(rows[j], net) == Some(e.update)
    decreases |rows|
  {
    if |rows| > 0 {
      var v := Visit(st, rows[0], net, ExecAt(faults, k));
      VisitFacts(st, rows[0], net, ExecAt(faults, k));
      if v.ok {
        var rest := PollRows(v.store, rows[1..], net, faults, k + 1);
        UpdatesArePlanned(v.store, rows[1..], net, faults, k + 1);
        forall e | e in rest.trace && e.Update?
          ensures exists j :: 0 <= j < |rows| && Planned(rows[j], net) == Some(e.update)
        {
          var j :| 0 <= j < |rows| - 1 && Planned(rows[1..][j], net) == Some(e.update);
          assert rows[1..][j] == rows[j + 1];
        }
      }
    }
  }

  /** Every write of a poll is keyed by the id of one of the live rows. */
  lemma PollWritesLiveIds(st: Store, todate: string, cutoff: string, net: string -> Fetch<ScorePage>, faults: Faults)
    ensures forall e :: e in GetScores(st, todate, cutoff, net, faults).trace && e.Update? ==>
      exists row: Row :: row in GetMatchScoreLive(st, todate, cutoff, None).value
                    && HasId(row) && ParseDecimal(e.update.key) == Some(row["id"].i)
  {
    var r := GetScores(st, todate, cutoff, net, faults);
    if faults.connect.None? && faults.query.None? {
      var rows := GetMatchScoreLive(st, todate, cutoff, None).value;
      var p := PollRows(st, rows, net, faults, 0);
      UpdatesArePlanned(st, rows, net, faults, 0);
      forall e | e in r.trace && e.Update?
        ensures exists row: Row :: row in rows && HasId(row) && ParseDecimal(e.update.key) == Some(row["id"].i)
      {
        assert e in p.trace;
        var j :| 0 <= j < |rows| && Planned(rows[j], net) == Some(e.update);
        assert rows[j] in rows;
      }
    } else {
      assert forall e :: e in r.trace ==> !e.Update?;
    }
  }


  // ---------------------------------------------------------------------
  // What a poll leaves in the store

  /** Every `scores` row of match `id` holds the inning `inning`. */
  predicate Settled(st: Store, id: int, inning: string)
  {
    forall i :: 0 <= i < |st.scores| && st.scores[i].matchId == id ==> st.scores[i].inning == Some(inning)
  }

  /** The rows of `rows` for match `id` all plan the inning `inning`, if
      they plan anything. */
  predicate PlansInning(rows: seq<Row>, net: string -> Fetch<ScorePage>, id: int, inning: string)
  {
    forall j :: 0 <= j < |rows| && Planned(rows[j], net).Some? && rows[j]["id"] == Int(id) ==>
      Planned(rows[j], net).value.inning == inning
  }

  /** An applied update settles its match on the inning it writes. */
  lemma UpdateSettles(st: Store, u: ScoreUpdate, f: ExecFault, id: int)
    requires !f.ExecFails? && ParseDecimal(u.key) == Some(id)
    ensures Settled(UpdateData(st, u, f).store, id, u.inning)
  {
  }

  /** An update for another match, or one writing the same inning, keeps a
      settled match settled. */
  lemma UpdateKeepsSettled(st: Store, u: ScoreUpdate, f: ExecFault, id: int, inning: string)
    requires Settled(st, id, inning)
    requires ParseDecimal(u.key) != Some(id) || u.inning == inning
    ensures Settled(UpdateData(st, u, f).store, id, inning)
  {
  }

  lemma PlansInningTail(rows: seq<Row>, net: string -> Fetch<ScorePage>, id: int, inning: string)
    requires |rows| > 0 && PlansInning(rows, net, id, inning)
    ensures PlansInning(rows[1..], net, id, inning)
  {
    assert forall j :: 0 <= j < |rows| - 1 ==> rows[1..][j] == rows[j + 1];
  }

  /** A poll whose rows for match `id` all plan one inning keeps that match
      settled on it. */
  lemma {:induction false} PollKeepsSettled(st: Store, rows: seq<Row>, net: string -> Fetch<ScorePage>, faults: Faults, k: nat, id: int, inning: string)
    requires Settled(st, id, inning) && PlansInning(rows, net, id, inning)
    ensures Settled(PollRows(st, rows, net, faults, k).store, id, inning)
    decreases |rows|
  {
    if |rows| > 0 {
      var f := ExecAt(faults, k);
      var v := Visit(st, rows[0], net, f);
      VisitFacts(st, rows[0], net, f);
      assert Settled(v.store, id, inning) by {
        match Planned(rows[0], net)
        case None =>
        case Some(u) =>
          assert ParseDecimal(u.key) == Some(rows[0]["id"].i);
          UpdateKeepsSettled(st, u, f, id, inning);
      }
      if v.ok {
        PlansInningTail(rows, net, id, inning);
        PollKeepsSettled(v.store, rows[1..], net, faults, k + 1, id, inning);
      }
    }
  }

  /** Once a poll writes an update for match `id`, and every row of that
      match plans the same inning, the match ends the poll settled on it. */
  lemma {:induction false} PollSettles(st: Store, rows: seq<Row>, net: string -> Fetch<ScorePage>, faults: Faults, k: nat, u: ScoreUpdate, id: int)
    requires Update(u) in PollRows(st, rows, net, faults, k).trace
    requires ParseDecimal(u.key) == Some(id) && PlansInning(rows, net, id, u.inning)
    ensures Settled(PollRows(st, rows, net, faults, k).store, id, u.inning)
    decreases |rows|
  {
    var f := ExecAt(faults, k);
    var v := Visit(st, rows[0], net, f);
    VisitFacts(st, rows[0], net, f);
    if Update(u) in v.events {
      assert Planned(rows[0], net) == Some(u);
      assert !f.ExecFails?;
      UpdateSettles(st, u, f, id);
      if v.ok {
        PlansInningTail(rows, net, id, u.inning);
        PollKeepsSettled(v.store, rows[1..], net, faults, k + 1, id, u.inning);
      }
    } else {
      PlansInningTail(rows, net, id, u.inning);
      PollSettles(v.store, rows[1..], net, faults, k + 1, u, id);
    }
  }

  // ---------------------------------------------------------------------
  // Across polls

  /** On a valid store, all live rows of one match plan the same update:
      they come from the one `matches` row with that id, so they share the
      link the update is read from. */
  lemma LiveRowsCoherent(st: Store, todate: string, cutoff: string, net: string -> Fetch<ScorePage>, j0: nat)
    requires Valid(st)
    requires var rows := GetMatchScoreLive(st, todate, cutoff, None).value;
      j0 < |rows| && Planned(rows[j0], net).Some?
    ensures var rows := GetMatchScoreLive(st, todate, cutoff, None).value;
      PlansInning(rows, net, rows[j0]["id"].i, Planned(rows[j0], net).value.inning)
  {
    var rows: seq<Row> := GetMatchScoreLive(st, todate, cutoff, None).value;
    var id := rows[j0]["id"].i;
    forall j | 0 <= j < |rows| && Planned(rows[j], net).Some? && rows[j]["id"] == Int(id)
      ensures Planned(rows[j], net).value.inning == Planned(rows[j0], net).value.inning
    {
      assert rows[j] in rows && rows[j0] in rows;
      SameIdSameLink(st, todate, cutoff, rows[j], rows[j0]);
      ReadRowShape(rows[j], net);
      ReadRowShape(rows[j0], net);
      PlannedByLinkAndId(rows[j], rows[j0], net);
    }
  }

  /** Two live rows with the same id share their link. */
  lemma SameIdSameLink(st: Store, todate: string, cutoff: string, a: Row, b: Row)
    requires Valid(st)
    requires a in GetMatchScoreLive(st, todate, cutoff, None).value
    requires b in GetMatchScoreLive(st, todate, cutoff, None).value
    requires "id" in a && "id" in b && a["id"] == b["id"]
    ensures "link" in a && "link" in b && a["link"] == b["link"]
  {
    LiveRowOrigin(st, todate, cutoff, a);
    LiveRowOrigin(st, todate, cutoff, b);
    var ma, sa :| ma in st.matches && sa in st.scores && Live(ma, sa, todate, cutoff) && a == LiveRow(ma, sa.inning.value);
    var mb, sb :| mb in st.matches && sb in st.scores && Live(mb, sb, todate, cutoff) && b == LiveRow(mb, sb.inning.value);
    LiveRowFields(ma, sa.inning.value);
    LiveRowFields(mb, sb.inning.value);
    UniqueIds(st, ma, mb);
  }

  /** Match ids are unique in a valid store. */
  lemma UniqueIds(st: Store, a: MatchRow, b: MatchRow)
    requires Valid(st) && a in st.matches && b in st.matches && a.id == b.id
    ensures a == b
  {
    var i := PositionOf(st.matches, a);
    var j := PositionOf(st.matches, b);
    IdsOrdered(st, i, j);
  }

  lemma IdsOrdered(st: Store, i: nat, j: nat)
    requires Valid(st) && i < |st.matches| && j < |st.matches|
    ensures st.matches[i].id == st.matches[j].id ==> i == j
  {
  }

  /** Retirement: once a poll writes a terminal inning (試合終了 or 試合中止) for a
      match, the live set read by any later query omits that match, so
      the next poll, whatever it fetches and whatever faults it meets,
      writes nothing for it again. */
  lemma TerminalUpdateRetiresMatch(
    st: Store, todate: string, cutoff: string, net: string -> Fetch<ScorePage>, faults: Faults,
    u: ScoreUpdate, id: int,
    todate': string, cutoff': string, net': string -> Fetch<ScorePage>, faults': Faults)
    requires Valid(st)
    requires Update(u) in GetScores(st, todate, cutoff, net, faults).trace
    requires u.key == Itoa(id) && IsTerminal(u.inning)
    ensures var after := GetScores(st, todate, cutoff, net, faults).store;
      && (forall row :: row in GetMatchScoreLive(after, todate', cutoff', None).value ==> row["id"] != Int(id))
      && (forall e :: e in GetScores(after, todate', cutoff', net', faults').trace && e.Update? ==> e.update.key != u.key)
      && KeepsRowsOf(after, GetScores(after, todate', cutoff', net', faults').store, id)
  {
    var rows := GetMatchScoreLive(st, todate, cutoff, None).value;
    var after := GetScores(st, todate, cutoff, net, faults).store;
    assert Settled(after, id, u.inning) by {
      PollSettlesTerminal(st, todate, cutoff, net, faults, u, id);
    }
    assert forall row :: row in GetMatchScoreLive(after, todate', cutoff', None).value ==> row["id"] != Int(id) by {
      SettledRetired(after, id, u.inning, todate', cutoff');
    }
    RetiredMatchUntouched(after, todate', cutoff', net', faults', id, u.inning);
    var next := GetScores(after, todate', cutoff', net', faults');
    PollWritesLiveIds(after, todate', cutoff', net', faults');
    forall e | e in next.trace && e.Update?
      ensures e.update.key != u.key
    {
      var row: Row :| row in GetMatchScoreLive(after, todate', cutoff', None).value
                      && HasId(row) && ParseDecimal(e.update.key) == Some(row["id"].i);
      assert row["id"] != Int(id);
    }
  }

  /** `b` holds every `scores` row of match `id` exactly as `a` does. */
  predicate KeepsRowsOf(a: Store, b: Store, id: int)
  {
    && |b.scores| == |a.scores|
    && forall i :: 0 <= i < |a.scores| && a.scores[i].matchId == id ==> b.scores[i] == a.scores[i]
  }

  /** A poll over rows none of which carries the id `id` leaves that
      match's score rows as they were. */
  lemma {:induction false} PollSparesOthers(st: Store, rows: seq<Row>, net: string -> Fetch<ScorePage>, faults: Faults, k: nat, id: int)
    requires forall j :: 0 <= j < |rows| && HasId(rows[j]) ==> rows[j]["id"] != Int(id)
    ensures KeepsRowsOf(st, PollRows(st, rows, net, faults, k).store, id)
    decreases |rows|
  {
    if |rows| > 0 {
      var f := ExecAt(faults, k);
      var v := Visit(st, rows[0], net, f);
      VisitFacts(st, rows[0], net, f);
      assert KeepsRowsOf(st, v.store, id) by {
        match Planned(rows[0], net)
        case None =>
        case Some(u) =>
          assert ParseDecimal(u.key) == Some(rows[0]["id"].i);
          assert rows[0]["id"].i != id;
      }
      if v.ok {
        assert forall j :: 0 <= j < |rows| - 1 ==> rows[1..][j] == rows[j + 1];
        PollSparesOthers(v.store, rows[1..], net, faults, k + 1, id);
      }
    }
  }

  /** A poll run against a match already settled on a terminal inning
      leaves every score row of that match unchanged, whatever it fetches
      and whatever faults it meets. */
  lemma RetiredMatchUntouched(st: Store, todate: string, cutoff: string, net: string -> Fetch<ScorePage>, faults: Faults, id: int, inning: string)
    requires Settled(st, id, inning) && IsTerminal(inning)
    ensures KeepsRowsOf(st, GetScores(st, todate, cutoff, net, faults).store, id)
  {
    if faults.connect.None? && faults.query.None? {
      var rows := GetMatchScoreLive(st, todate, cutoff, None).value;
      SettledRetired(st, id, inning, todate, cutoff);
      forall j | 0 <= j < |rows| && HasId(rows[j])
        ensures rows[j]["id"] != Int(id)
      {
        assert rows[j] in rows;
      }
      PollSparesOthers(st, rows, net, faults, 0, id);
    }
  }

  /** A match settled on a terminal inning is not live. */
  lemma SettledRetired(st: Store, id: int, inning: string, todate: string, cutoff: string)
    requires Settled(st, id, inning) && IsTerminal(inning)
    ensures forall row :: row in GetMatchScoreLive(st, todate, cutoff, None).value ==> row["id"] != Int(id)
  {
    forall s | s in st.scores && s.matchId == id
      ensures s.inning.None? || IsTerminal(s.inning.value)
    {
      var i :| 0 <= i < |st.scores| && st.scores[i] == s;
    }
    RetiredMatchNotLive(st, id, todate, cutoff);
  }

  /** Discovery stores the `.bb-score__status` text as the start time. A
      stored start time that opens with a character above `'9'`, such as the
      pre-game text `試合前`, never orders at or before a cutoff that opens
      with a digit, so the live query never reports that match. */
  lemma StatusStartTimeNeverLive(st: Store, m: MatchRow, todate: string, cutoff: string)
    requires Valid(st) && m in st.matches
    requires |m.starttime| > 0 && m.starttime[0] > '9'
    requires |cutoff| == 0 || cutoff[0] <= '9'
    ensures forall row :: row in GetMatchScoreLive(st, todate, cutoff, None).value ==> row["id"] != Int(m.id)
  {
    forall row | row in GetMatchScoreLive(st, todate, cutoff, None).value
      ensures row["id"] != Int(m.id)
    {
      LiveRowOrigin(st, todate, cutoff, row);
      var m', s :| m' in st.matches && s in st.scores && Live(m', s, todate, cutoff) && row == LiveRow(m', s.inning.value);
      LiveRowFields(m', s.inning.value);
      StartedMatchIsOther(st, m, m', s, todate, cutoff);
    }
  }

  /** A match that passes the live filter is not `m`. */
  lemma StartedMatchIsOther(st: Store, m: MatchRow, m': MatchRow, s: ScoreRow, todate: string, cutoff: string)
    requires Valid(st) && m in st.matches && m' in st.matches && Live(m', s, todate, cutoff)
    requires |m.starttime| > 0 && m.starttime[0] > '9'
    requires |cutoff| == 0 || cutoff[0] <= '9'
    ensures m'.id != m.id
  {
    if m'.id == m.id {
      UniqueIds(st, m, m');
    }
  }

  /** The test suite's first card read as discovery reads it: the status
      text `試合前` becomes the stored start time, which no cutoff written
      as `HH:MM` ever reaches. */
  lemma PreGameStatusNotLive(st: Store, m: MatchRow, todate: string, hh: char, mm: string)
    requires Valid(st) && m in st.matches && m.starttime == "試合前"
    requires '0' <= hh <= '9'
    ensures forall row :: row in GetMatchScoreLive(st, todate, [hh] + mm, None).value ==> row["id"] != Int(m.id)
  {
    StatusStartTimeNeverLive(st, m, todate, [hh] + mm);
  }

  /** The poll that writes update `u` for match `id` leaves that match
      settled on `u`'s inning. */
  lemma PollSettlesTerminal(st: Store, todate: string, cutoff: string, net: string -> Fetch<ScorePage>, faults: Faults, u: ScoreUpdate, id: int)
    requires Valid(st)
    requires Update(u) in GetScores(st, todate, cutoff, net, faults).trace
    requires u.key == Itoa(id)
    ensures Settled(GetScores(st, todate, cutoff, net, faults).store, id, u.inning)
  {
    var rows := GetMatchScoreLive(st, todate, cutoff, None).value;
    assert faults.connect.None? && faults.query.None?;
    var p := PollRows(st, rows, net, faults, 0);
    assert Update(u) in p.trace;
    assert ParseDecimal(u.key) == Some(id);
    assert PlansInning(rows, net, id, u.inning) by {
      UpdatesArePlanned(st, rows, net, faults, 0);
      var j :| 0 <= j < |rows| && Planned(rows[j], net) == Some(u);
      PlannedId(rows[j], net, u, id);
      LiveRowsCoherent(st, todate, cutoff, net, j);
    }
    PollSettles(st, rows, net, faults, 0, u, id);
  }

  /** The row an update keyed by `id` was planned from carries that id. */
  lemma PlannedId(row: Row, net: string -> Fetch<ScorePage>, u: ScoreUpdate, id: int)
    requires Planned(row, net) == Some(u) && u.key == Itoa(id)
    ensures row["id"] == Int(id)
  {
    assert ParseDecimal(u.key) == Some(id);
  }

  // ---------------------------------------------------------------------
  // A poll without failures

  /** Every row's page can be fetched and read. */
  predicate AllPlanned(rows: seq<Row>, net: string -> Fetch<ScorePage>)
  {
    forall j :: 0 <= j < |rows| ==> Planned(rows[j], net).Some?
  }

  /** The planned updates of the rows, in row order. */
  function Plans(rows: seq<Row>, net: string -> Fetch<ScorePage>): (r: seq<ScoreUpdate>)
    requires AllPlanned(rows, net)
    ensures |r| == |rows| && forall j :: 0 <= j < |rows| ==> Planned(rows[j], net) == Some(r[j])
  {
    seq(|rows|, j requires 0 <= j < |rows| && AllPlanned(rows, net) => Planned(rows[j], net).value)
  }

  /** The `scores` table after the updates `us`, in order. */
  function ApplyAll(scores: seq<ScoreRow>, us: seq<ScoreUpdate>): seq<ScoreRow>
    decreases |us|
  {
    if |us| == 0 then scores else ApplyAll(ApplyUpdate(scores, us[0]), us[1..])
  }

  /** The links of rows that all carry one. */
  function Links(rows: seq<Row>): (r: seq<string>)
    requires forall j :: 0 <= j < |rows| ==> HasLink(rows[j])
    ensures |r| == |rows| && forall j :: 0 <= j < |rows| ==> HasLink(rows[j]) && r[j] == rows[j]["link"].s
  {
    seq(|rows|, j requires 0 <= j < |rows| && HasLink(rows[j]) => rows[j]["link"].s)
  }

  lemma LinksOfPlanned(rows: seq<Row>, net: string -> Fetch<ScorePage>)
    requires AllPlanned(rows, net)
    ensures forall j :: 0 <= j < |rows| ==> HasLink(rows[j])
  {
    forall j | 0 <= j < |rows|
      ensures HasLink(rows[j])
    {
      assert Planned(rows[j], net).Some?;
    }
  }

  /** The events of a failure-free walk that fetches `links[j]` and writes
      `us[j]` for each `j`, pausing after every write. */
  function Steps(links: seq<string>, us: seq<ScoreUpdate>): (r: seq<Event>)
    requires |links| == |us|
    ensures |r| == 3 * |us|
    ensures |r| > 0 ==> r[|r| - 1] == Sleep(PollPause)
    decreases |us|
  {
    if |us| == 0 then []
    else [FetchPage(links[0]), Update(us[0]), Sleep(PollPause)] + Steps(links[1..], us[1..])
  }

  /** The `j`-th fetch, write and pause sit at positions `3j`, `3j + 1` and
      `3j + 2`. */
  lemma {:induction false} StepsAt(links: seq<string>, us: seq<ScoreUpdate>, j: nat)
    requires |links| == |us| && j < |us|
    ensures var r := Steps(links, us);
      && r[3 * j] == FetchPage(links[j])
      && r[3 * j + 1] == Update(us[j])
      && r[3 * j + 2] == Sleep(PollPause)
    decreases j
  {
    if j > 0 {
      StepsAt(links[1..], us[1..], j - 1);
      var b := 3 * (j - 1);
      assert 3 * j == b + 3;
      ShiftThree([FetchPage(links[0]), Update(us[0]), Sleep(PollPause)], Steps(links[1..], us[1..]), b);
    }
  }

  lemma ShiftThree<T>(h: seq<T>, rest: seq<T>, b: nat)
    requires |h| == 3 && b + 2 < |rest|
    ensures (h + rest)[b + 3] == rest[b] && (h + rest)[b + 4] == rest[b + 1] && (h + rest)[b + 5] == rest[b + 2]
  {
  }

  /** The trace of a poll that meets no failure: for each row, in order,
      its page fetch, its write and the pause. */
  function PollEvents(rows: seq<Row>, net: string -> Fetch<ScorePage>): (r: seq<Event>)
    requires AllPlanned(rows, net)
    ensures |r| == 3 * |rows|
    ensures |r| > 0 ==> r[|r| - 1] == Sleep(PollPause)
  {
    LinksOfPlanned(rows, net);
    Steps(Links(rows), Plans(rows, net))
  }

  /** Row `j`'s fetch, write and pause in a poll without failures. */
  lemma PollEventsAt(rows: seq<Row>, net: string -> Fetch<ScorePage>, j: nat)
    requires AllPlanned(rows, net) && j < |rows|
    ensures var r := PollEvents(rows, net);
      && r[3 * j] == FetchPage(rows[j]["link"].s)
      && r[3 * j + 1] == Update(Planned(rows[j], net).value)
      && r[3 * j + 2] == Sleep(PollPause)
  {
    LinksOfPlanned(rows, net);
    StepsAt(Links(rows), Plans(rows, net), j);
  }

  lemma PlansCons(rows: seq<Row>, net: string -> Fetch<ScorePage>)
    requires AllPlanned(rows, net) && |rows| > 0
    ensures AllPlanned(rows[1..], net)
    ensures Plans(rows, net) == [Planned(rows[0], net).value] + Plans(rows[1..], net)
    ensures PollEvents(rows, net)
            == [FetchPage(rows[0]["link"].s), Update(Planned(rows[0], net).value), Sleep(PollPause)]
               + PollEvents(rows[1..], net)
  {
    assert AllPlanned(rows[1..], net) && Plans(rows, net)[1..] == Plans(rows[1..], net) by {
      PlansTail(rows, net);
    }
    LinksOfPlanned(rows, net);
    LinksOfPlanned(rows[1..], net);
    assert Links(rows)[1..] == Links(rows[1..]) by {
      LinksTail(rows);
    }
    StepsCons(Links(rows), Plans(rows, net));
  }

  lemma PlansTail(rows: seq<Row>, net: string -> Fetch<ScorePage>)
    requires AllPlanned(rows, net) && |rows| > 0
    ensures AllPlanned(rows[1..], net)
    ensures Plans(rows, net)[1..] == Plans(rows[1..], net)
  {
    var tail := rows[1..];
    forall j | 0 <= j < |tail|
      ensures Planned(tail[j], net).Some?
    {
      assert tail[j] == rows[j + 1];
    }
    var ps, qs := Plans(rows, net), Plans(tail, net);
    forall j | 0 <= j < |tail|
      ensures ps[j + 1] == qs[j]
    {
      assert tail[j] == rows[j + 1];
    }
    assert ps[1..] == qs;
  }

  lemma LinksTail(rows: seq<Row>)
    requires forall j :: 0 <= j < |rows| ==> HasLink(rows[j])
    requires |rows| > 0
    ensures forall j :: 0 <= j < |rows| - 1 ==> HasLink(rows[1..][j])
    ensures Links(rows)[1..] == Links(rows[1..])
  {
    assert forall j :: 0 <= j < |rows| - 1 ==> rows[1..][j] == rows[j + 1];
  }

  lemma StepsCons(links: seq<string>, us: seq<ScoreUpdate>)
    requires |links| == |us| && |us| > 0
    ensures Steps(links, us) == [FetchPage(links[0]), Update(us[0]), Sleep(PollPause)] + Steps(links[1..], us[1..])
  {
  }


  /** With every page readable and no write fault, the poll fetches, writes
      and pauses once per row, in order, and leaves every row's update
      applied. */
  lemma {:induction false} PollRowsSucceed(st: Store, rows: seq<Row>, net: string -> Fetch<ScorePage>, faults: Faults, k: nat)
    requires AllPlanned(rows, net) && WritesClean(faults, k, |rows|)
    ensures PollRows(st, rows, net, faults, k)
            == Run(st.(scores := ApplyAll(st.scores, Plans(rows, net))), PollEvents(rows, net))
    decreases |rows|
  {
    if |rows| > 0 {
      var f := ExecAt(faults, k);
      var u := Planned(rows[0], net).value;
      var st2 := st.(scores := ApplyUpdate(st.scores, u));
      var rest := PollRows(st2, rows[1..], net, faults, k + 1);
      assert PollRows(st, rows, net, faults, k)
             == Run(rest.store, [FetchPage(rows[0]["link"].s), Update(u), Sleep(PollPause)] + rest.trace) by {
        assert f == NoFault;
        assert Planned(rows[0], net).Some?;
        VisitFacts(st, rows[0], net, f);
      }
      PlansCons(rows, net);
      assert WritesClean(faults, k + 1, |rows| - 1);
      PollRowsSucceed(st2, rows[1..], net, faults, k + 1);
    }
  }

  /** The whole job when nothing fails: the connection, the live query with
      its row count, then three steps per live row; no error. */
  lemma GetScoresSucceeds(st: Store, todate: string, cutoff: string, net: string -> Fetch<ScorePage>, faults: Faults)
    requires faults.connect.None? && faults.query.None?
    requires var rows := GetMatchScoreLive(st, todate, cutoff, None).value;
      AllPlanned(rows, net) && WritesClean(faults, 0, |rows|)
    ensures var rows := GetMatchScoreLive(st, todate, cutoff, None).value;
      var r := GetScores(st, todate, cutoff, net, faults);
      && r.trace == [Connect, QueryLive(|rows|)] + PollEvents(rows, net)
      && |r.trace| == 2 + 3 * |rows|
      && r.store == st.(scores := ApplyAll(st.scores, Plans(rows, net)))
      && r.Err().None?
  {
    var rows := GetMatchScoreLive(st, todate, cutoff, None).value;
    var r := GetScores(st, todate, cutoff, net, faults);
    var evs := PollEvents(rows, net);
    assert r == Run(st.(scores := ApplyAll(st.scores, Plans(rows, net))), [Connect, QueryLive(|rows|)] + evs) by {
      PollRowsSucceed(st, rows, net, faults, 0);
    }
    QuietEnd([Connect, QueryLive(|rows|)], evs);
  }

  /** A trace that ends in anything but a failure reports no error. */
  lemma QuietEnd(head: seq<Event>, evs: seq<Event>)
    requires |head| > 0 && !head[|head| - 1].Fail?
    requires |evs| > 0 ==> evs[|evs| - 1] == Sleep(PollPause)
    ensures forall st :: Run(st, head + evs).Err().None?
  {
  }


  // ---------------------------------------------------------------------
  // A match that is not finished stays live

  /** A poll changes no `matches` row and keeps every `scores` row's id and
      match. */
  lemma {:induction false} PollKeepsKeys(st: Store, rows: seq<Row>, net: string -> Fetch<ScorePage>, faults: Faults, k: nat)
    ensures var after := PollRows(st, rows, net, faults, k).store;
      && after.matches == st.matches
      && |after.scores| == |st.scores|
      && forall i :: 0 <= i < |st.scores| ==> after.scores[i].matchId == st.scores[i].matchId
    decreases |rows|
  {
    if |rows| > 0 {
      var f := ExecAt(faults, k);
      VisitFacts(st, rows[0], net, f);
      var v := Visit(st, rows[0], net, f);
      if v.ok {
        PollKeepsKeys(v.store, rows[1..], net, faults, k + 1);
      }
    }
  }

  /** The converse of retirement: a match whose last written inning is not
      terminal is read as live again by a query for its day and a cutoff
      past its start, whatever its `result` text says. */
  lemma NonTerminalUpdateKeepsMatchLive(
    st: Store, todate: string, cutoff: string, net: string -> Fetch<ScorePage>, faults: Faults,
    u: ScoreUpdate, m: MatchRow, cutoff': string)
    requires Valid(st)
    requires Update(u) in GetScores(st, todate, cutoff, net, faults).trace
    requires m in st.matches && u.key == Itoa(m.id) && !IsTerminal(u.inning)
    requires TextLe(m.starttime, cutoff')
    ensures LiveRow(m, u.inning) in GetMatchScoreLive(GetScores(st, todate, cutoff, net, faults).store, m.date, cutoff', None).value
  {
    var after := GetScores(st, todate, cutoff, net, faults).store;
    var rows := GetMatchScoreLive(st, todate, cutoff, None).value;
    assert Settled(after, m.id, u.inning) by {
      PollSettlesTerminal(st, todate, cutoff, net, faults, u, m.id);
    }
    var i := ScoreRowOfWrite(st, todate, cutoff, net, faults, u, m.id);
    assert after.matches == st.matches && after.scores[i].matchId == m.id by {
      assert faults.connect.None? && faults.query.None?;
      PollKeepsKeys(st, rows, net, faults, 0);
    }
    var s := after.scores[i];
    assert Live(m, s, m.date, cutoff');
    assert m in after.matches && s in after.scores;
    LivePairReported(after, m, s, m.date, cutoff');
  }


  /** A written match has a `scores` row: the write came from a live row,
      and the live query joins a match with its score rows. */
  lemma ScoreRowOfWrite(st: Store, todate: string, cutoff: string, net: string -> Fetch<ScorePage>, faults: Faults, u: ScoreUpdate, id: int)
    returns (i: nat)
    requires Update(u) in GetScores(st, todate, cutoff, net, faults).trace && u.key == Itoa(id)
    ensures i < |st.scores| && st.scores[i].matchId == id
  {
    var rows := GetMatchScoreLive(st, todate, cutoff, None).value;
    PollWritesLiveIds(st, todate, cutoff, net, faults);
    var row: Row :| row in rows && HasId(row) && ParseDecimal(u.key) == Some(row["id"].i);
    assert row["id"].i == id;
    LiveRowOrigin(st, todate, cutoff, row);
    var m0, s0 :| m0 in st.matches && s0 in st.scores && Live(m0, s0, todate, cutoff) && row == LiveRow(m0, s0.inning.value);
    LiveRowFields(m0, s0.inning.value);
    i := PositionOf(st.scores, s0);
  }

  lemma PositionOf<T>(s: seq<T>, x: T) returns (i: nat)
    requires x in s
    ensures i < |s| && s[i] == x
  {
    i :| 0 <= i < |s| && s[i] == x;
  }

  /** The ending the test suite's mock page shows: the inning still reads
      `9回裏` while `div#result` reads 試合終了. The update written from it
      carries a non-terminal inning, so the match is not retired. */
  lemma MockEndPageNotRetiring(id: int)
    ensures var page := ScorePage("9\U{56DE}\U{88CF}", [["\U{30AA}", "0"], ["\U{30C7}", "2"]], Ended, "");
      && GetMatchScore(page).Success?
      && var u := UpdateOf(GetMatchScore(page).value[0], id);
         u.result == Ended && !IsTerminal(u.inning)
  {
    var page := ScorePage("9\U{56DE}\U{88CF}", [["\U{30AA}", "0"], ["\U{30C7}", "2"]], Ended, "");
    assert ScoreCells(page.rows) == ["0", "2"] by {
      assert page.rows[..1] == [["\U{30AA}", "0"]];
      assert page.rows[..1][..0] == [];
    }
    TrimSpaceOfTrimmed("9\U{56DE}\U{88CF}");
    TrimSpaceOfTrimmed(Ended);
    assert "9\U{56DE}\U{88CF}"[0] == '9';
  }
}
