/**
 * `GetMatchScore`: a live match page, reduced to the elements the
 * extractor queries, and the one-row snapshot it yields.
 */
module Score {
  import opened Results
  import opened Text

  /** The texts of `.live em`, `div#result` and `table#batt a` (empty when
      absent) and, for every `tr` of the page in document order, the raw
      texts of its `td` cells. */
  datatype ScorePage = ScorePage(
    inningText: string,
    rows: seq<seq<string>>,
    resultText: string,
    batterText: string)

  /** One progress row as the extractor returns it, in the positional order
      `[inning, cells[1], cells[0], batter, result]`. The fields are named
      after the columns the live poll writes them to. */
  datatype Snapshot = Snapshot(
    inning: string,
    homeScore: string,
    awayScore: string,
    batter: string,
    result: string)
  {
    function Fields(): (r: seq<string>)
      ensures |r| == 5
    {
      [inning, homeScore, awayScore, batter, result]
    }
  }

  /** The text of the second `td` of a row; empty when the row has fewer
      than two cells. */
  function SecondCell(cells: seq<string>): string
  {
    if |cells| >= 2 then cells[1] else ""
  }

  /** The score cells: the non-empty second cells of all rows, in document
      order and untrimmed. */
  function ScoreCells(rows: seq<seq<string>>): (r: seq<string>)
    ensures |r| <= |rows|
    decreases |rows|
  {
    if |rows| == 0 then []
    else
      var c := SecondCell(rows[|rows| - 1]);
      ScoreCells(rows[..|rows| - 1]) + (if c != "" then [c] else [])
  }

  /** The extractor. It never returns an error value: the result is always
      a single snapshot whose score fields are the first two score cells,
      swapped, or, when fewer than two score cells exist, the index panic
      the second cell lookup raises. */
  function GetMatchScore(page: ScorePage): (r: Result<seq<Snapshot>>)
    ensures r.Success? <==> |ScoreCells(page.rows)| >= 2
    ensures r.Failure? ==> r.error.Panic?
    ensures r.Success? ==>
      && |r.value| == 1
      && r.value[0].homeScore == ScoreCells(page.rows)[1]
      && r.value[0].awayScore == ScoreCells(page.rows)[0]
  {
    var cells := ScoreCells(page.rows);
    if |cells| < 2 then
      Failure(Panic("runtime error: index out of range [1] with length " + (if |cells| == 0 then "0" else "1")))
    else
      Success([Snapshot(
        TrimSpace(page.inningText),
        cells[1],
        cells[0],
        TrimSpace(page.batterText),
        TrimSpace(page.resultText))])
  }

  /** Every score cell is a non-empty second cell of some row. */
  lemma {:induction false} ScoreCellsFromRows(rows: seq<seq<string>>)
    ensures forall c :: c in ScoreCells(rows) ==>
      c != "" && exists k :: 0 <= k < |rows| && SecondCell(rows[k]) == c
    decreases |rows|
  {
    if |rows| > 0 {
      var pre := rows[..|rows| - 1];
      ScoreCellsFromRows(pre);
      forall c | c in ScoreCells(pre)
        ensures exists k :: 0 <= k < |rows| && SecondCell(rows[k]) == c
      {
        var k :| 0 <= k < |pre| && SecondCell(pre[k]) == c;
        assert rows[k] == pre[k];
      }
    }
  }

  /** Rows are read in document order: the cells of a page are the cells of
      its first part followed by those of the rest. */
  lemma {:induction false} ScoreCellsConcat(a: seq<seq<string>>, b: seq<seq<string>>)
    ensures ScoreCells(a + b) == ScoreCells(a) + ScoreCells(b)
    decreases |b|
  {
    if |b| == 0 {
      assert a + b == a;
    } else {
      var b' := b[..|b| - 1];
      assert (a + b)[..|a + b| - 1] == a + b';
      assert (a + b)[|a + b| - 1] == b[|b| - 1];
      ScoreCellsConcat(a, b');
    }
  }

  /** A row whose second cell is missing or empty, such as the batter table's
      one-cell row, contributes no score cell. */
  lemma RowWithoutScoreSkipped(a: seq<seq<string>>, row: seq<string>, b: seq<seq<string>>)
    requires SecondCell(row) == ""
    ensures ScoreCells(a + [row] + b) == ScoreCells(a + b)
  {
    assert ScoreCells([row]) == [] by {
      assert [row][..0] == [];
    }
    assert ScoreCells(a + [row]) == ScoreCells(a) by {
      ScoreCellsConcat(a, [row]);
    }
    ScoreCellsConcat(a + [row], b);
    ScoreCellsConcat(a, b);
  }

  /** Cells after the second are ignored: once the first rows supply two
      score cells, any further rows leave the snapshot unchanged. */
  lemma LaterRowsIgnored(page: ScorePage, more: seq<seq<string>>)
    requires |ScoreCells(page.rows)| >= 2
    ensures GetMatchScore(page.(rows := page.rows + more)) == GetMatchScore(page)
  {
    ScoreCellsConcat(page.rows, more);
    var cells := ScoreCells(page.rows + more);
    assert cells[0] == ScoreCells(page.rows)[0] && cells[1] == ScoreCells(page.rows)[1];
  }

  /** Inning, batter and result are trimmed like every `GetText` lookup; a
      page without a batter link yields an empty batter, not an error. */
  lemma SnapshotTexts(page: ScorePage)
    requires |ScoreCells(page.rows)| >= 2
    ensures var s := GetMatchScore(page).value[0];
      && s.inning == TrimSpace(page.inningText) && Trimmed(s.inning)
      && s.batter == TrimSpace(page.batterText) && Trimmed(s.batter)
      && s.result == TrimSpace(page.resultText) && Trimmed(s.result)
      && (AllSpace(page.batterText) ==> s.batter == "")
  {
    TrimSpaceSpec(page.inningText);
    TrimSpaceSpec(page.batterText);
    TrimSpaceSpec(page.resultText);
    if AllSpace(page.batterText) {
      assert page.batterText == page.batterText + "" + "";
      TrimSpaceOfPadded(page.batterText, "", "");
    }
  }

  /** Score cells are taken verbatim: white space around a score survives
      into the snapshot. */
  lemma ScoreCellsNotTrimmed(inning: string, batter: string, result: string)
    ensures var page := ScorePage(inning, [["A", " 1 "], ["B", "2"]], result, batter);
      GetMatchScore(page).Success? && GetMatchScore(page).value[0].awayScore == " 1 "
  {
    var rows := [["A", " 1 "], ["B", "2"]];
    assert rows[..1][..0] == [];
    assert rows[..|rows| - 1] == rows[..1];
    assert ScoreCells(rows[..1]) == [" 1 "];
  }

  /** The page shape of the extractor's mock test: two score rows, the
      second-cell texts `0` then `2`, and a one-cell batter row. The code
      returns them swapped, `2` before `0`, in positions 1 and 2, while the
      test expects `0` before `2`. */
  lemma MockPageScoresSwapped(inning: string, batter: string, result: string)
    ensures var page := ScorePage(inning, [["A", "0"], ["B", "2"], [batter]], result, batter);
      && GetMatchScore(page).Success?
      && GetMatchScore(page).value[0].Fields()[1..3] == ["2", "0"]
  {
    var rows := [["A", "0"], ["B", "2"], [batter]];
    assert rows[..2][..1][..0] == [];
    assert rows[..2][..|rows[..2]| - 1] == rows[..2][..1];
    assert ScoreCells(rows[..2][..1]) == ["0"];
    assert ScoreCells(rows[..2]) == ["0", "2"];
    assert rows[..|rows| - 1] == rows[..2];
  }
}
