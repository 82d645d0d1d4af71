/**
 * `GetMatchSchedule`: the schedule page of one day, reduced to the
 * elements the extractor queries, and the match tuples it yields.
 *
 * Every text below is the raw text of the matched elements; the extractor
 * trims it the way `GetText` does. A link is an attribute and is not
 * trimmed.
 */
module Schedule {
  import opened Results
  import opened Text
  import opened Calendar

  /** One `.bb-score__item`: the texts of its home logo, away logo,
      `.bb-score__venue`, `.bb-score__link` and `.bb-score__status`
      elements, and the `href` of its `.bb-score__content` element, if any. */
  datatype Card = Card(
    homeText: string,
    awayText: string,
    venueText: string,
    linkText: string,
    statusText: string,
    href: Option<string>)

  /** One `.bb-score` block: the text of its `.bb-noData` marker (empty when
      there is none), its `.bb-score__title` text and its cards. */
  datatype League = League(noDataText: string, titleText: string, cards: seq<Card>)

  datatype SchedulePage = SchedulePage(leagues: seq<League>)

  /** The 8-field row the extractor emits, named after the source's own
      variables. `status` holds the `.bb-score__link` text and `starttime`
      the `.bb-score__status` text: the two classes are read crosswise to
      the names. */
  datatype MatchTuple = MatchTuple(
    date: string,
    home: string,
    away: string,
    stadium: string,
    status: string,
    starttime: string,
    link: string,
    league: string)
  {
    /** The tuple as the positional `[]string` the scheduler indexes. */
    function Fields(): (r: seq<string>)
      ensures |r| == 8
    {
      [date, home, away, stadium, status, starttime, link, league]
    }
  }

  /** A block whose no-data marker has visible text yields no matches. */
  predicate HasNoData(l: League)
  {
    TrimSpace(l.noDataText) != ""
  }

  /** The detail link as stored: its first `index` becomes `score`. */
  function ScoreLink(href: string): string
  {
    ReplaceFirst(href, "index", "score")
  }

  function CardTuple(todate: string, league: string, c: Card): MatchTuple
    requires c.href.Some?
  {
    MatchTuple(
      todate,
      TrimSpace(c.homeText),
      TrimSpace(c.awayText),
      TrimSpace(c.venueText),
      TrimSpace(c.linkText),
      TrimSpace(c.statusText),
      ScoreLink(c.href.value),
      league)
  }

  function CountLinked(cards: seq<Card>): nat
    decreases |cards|
  {
    if |cards| == 0 then 0
    else (if cards[0].href.Some? then 1 else 0) + CountLinked(cards[1..])
  }

  /** The tuples of one block's cards, in card order: one per card with a
      link; cards without a link are skipped. */
  function CardTuples(todate: string, league: string, cards: seq<Card>): (r: seq<MatchTuple>)
    ensures |r| == CountLinked(cards)
    decreases |cards|
  {
    if |cards| == 0 then []
    else
      var rest := CardTuples(todate, league, cards[1..]);
      match cards[0].href
      case None => rest
      case Some(_) => [CardTuple(todate, league, cards[0])] + rest
  }

  /** Every tuple of a block carries the date and the block's title. */
  lemma {:induction false} CardTuplesStamped(todate: string, league: string, cards: seq<Card>)
    ensures forall t :: t in CardTuples(todate, league, cards) ==> t.date == todate && t.league == league
    decreases |cards|
  {
    if |cards| > 0 {
      CardTuplesStamped(todate, league, cards[1..]);
    }
  }

  /** The number of tuples a page must yield: the linked cards of the
      blocks without a no-data marker. */
  function ExpectedCount(leagues: seq<League>): nat
    decreases |leagues|
  {
    if |leagues| == 0 then 0
    else
      (if HasNoData(leagues[0]) then 0 else CountLinked(leagues[0].cards))
      + ExpectedCount(leagues[1..])
  }

  function LeagueTuples(todate: string, leagues: seq<League>): (r: seq<MatchTuple>)
    ensures |r| == ExpectedCount(leagues)
    decreases |leagues|
  {
    if |leagues| == 0 then []
    else
      var l := leagues[0];
      (if HasNoData(l) then [] else CardTuples(todate, TrimSpace(l.titleText), l.cards))
      + LeagueTuples(todate, leagues[1..])
  }

  lemma {:induction false} LeagueTuplesDated(todate: string, leagues: seq<League>)
    ensures forall t :: t in LeagueTuples(todate, leagues) ==> t.date == todate
    decreases |leagues|
  {
    if |leagues| > 0 {
      var l := leagues[0];
      CardTuplesStamped(todate, TrimSpace(l.titleText), l.cards);
      LeagueTuplesDated(todate, leagues[1..]);
    }
  }

  /** The tuples of a schedule page for `today`. Never an error: a page
      without matches yields the empty (nil) list. Each tuple carries
      today's date in the `YYYY/MM/DD` layout, and there is one tuple per
      linked card of every block without a no-data marker. */
  function GetMatchSchedule(page: SchedulePage, today: Date): (r: seq<MatchTuple>)
    requires ValidDate(today)
    ensures |r| == ExpectedCount(page.leagues)
    ensures forall t :: t in r ==> t.date == FormatDate(today, '/')
  {
    LeagueTuplesDated(FormatDate(today, '/'), page.leagues);
    LeagueTuples(FormatDate(today, '/'), page.leagues)
  }

  lemma {:induction false} LeagueTuplesConcat(todate: string, a: seq<League>, b: seq<League>)
    ensures LeagueTuples(todate, a + b) == LeagueTuples(todate, a) + LeagueTuples(todate, b)
    decreases |a|
  {
    if |a| == 0 {
      assert a + b == b;
    } else {
      assert (a + b)[1..] == a[1..] + b;
      LeagueTuplesConcat(todate, a[1..], b);
    }
  }

  /** Blocks are processed in document order and their tuples concatenated;
      nothing is re-sorted. */
  lemma ScheduleConcat(a: seq<League>, b: seq<League>, today: Date)
    requires ValidDate(today)
    ensures GetMatchSchedule(SchedulePage(a + b), today)
            == GetMatchSchedule(SchedulePage(a), today) + GetMatchSchedule(SchedulePage(b), today)
  {
    LeagueTuplesConcat(FormatDate(today, '/'), a, b);
  }

  /** A block showing the no-data marker contributes nothing, wherever it
      sits among the blocks. */
  lemma NoDataLeagueSkipped(a: seq<League>, l: League, b: seq<League>, today: Date)
    requires ValidDate(today) && HasNoData(l)
    ensures GetMatchSchedule(SchedulePage(a + [l] + b), today) == GetMatchSchedule(SchedulePage(a + b), today)
  {
    var d := FormatDate(today, '/');
    assert LeagueTuples(d, [l]) == [] by {
      assert [l][1..] == [];
    }
    assert LeagueTuples(d, a + [l]) == LeagueTuples(d, a) by {
      LeagueTuplesConcat(d, a, [l]);
    }
    LeagueTuplesConcat(d, a + [l], b);
    LeagueTuplesConcat(d, a, b);
  }

  /** Cards are processed in document order. */
  lemma {:induction false} CardTuplesConcat(todate: string, league: string, a: seq<Card>, b: seq<Card>)
    ensures CardTuples(todate, league, a + b) == CardTuples(todate, league, a) + CardTuples(todate, league, b)
    decreases |a|
  {
    if |a| == 0 {
      assert a + b == b;
    } else {
      assert (a + b)[1..] == a[1..] + b;
      CardTuplesConcat(todate, league, a[1..], b);
    }
  }

  /** A card without a link is skipped, and the cards after it are still
      processed. */
  lemma UnlinkedCardSkipped(todate: string, league: string, a: seq<Card>, c: Card, b: seq<Card>)
    requires c.href.None?
    ensures CardTuples(todate, league, a + [c] + b) == CardTuples(todate, league, a + b)
  {
    assert CardTuples(todate, league, [c]) == [] by {
      assert [c][1..] == [];
    }
    assert CardTuples(todate, league, a + [c]) == CardTuples(todate, league, a) by {
      CardTuplesConcat(todate, league, a, [c]);
    }
    CardTuplesConcat(todate, league, a + [c], b);
    CardTuplesConcat(todate, league, a, b);
  }

  /** The field layout of one tuple: date, the trimmed home, away and venue
      texts, the `.bb-score__link` text at position 4, the
      `.bb-score__status` text at position 5, the rewritten link and the
      block title. */
  lemma OneCardTuple(l: League, c: Card, today: Date)
    requires ValidDate(today) && !HasNoData(l) && c.href.Some?
    ensures var r := GetMatchSchedule(SchedulePage([League(l.noDataText, l.titleText, [c])]), today);
      && |r| == 1
      && r[0].Fields() == [FormatDate(today, '/'), TrimSpace(c.homeText), TrimSpace(c.awayText),
                          TrimSpace(c.venueText), TrimSpace(c.linkText), TrimSpace(c.statusText),
                          ReplaceFirst(c.href.value, "index", "score"), TrimSpace(l.titleText)]
  {
    var leagues := [League(l.noDataText, l.titleText, [c])];
    assert leagues[1..] == [];
    assert [c][1..] == [];
  }

  /** The link rewrite on a link of the test suite's shape. */
  lemma LinkRewriteExample()
    ensures ScoreLink("/index") == "/score"
  {
    var s := "/index";
    assert OccursAt(s, "index", 1);
    assert !OccursAt(s, "index", 0) by {
      assert s[0..5][0] == '/';
    }
    assert FirstOccurrence(s, "index", 1);
  }

  /** A link without `index` is stored as it is; otherwise only its first
      `index` becomes `score` and the rest of the link is kept. */
  lemma ScoreLinkRewrite(href: string)
    ensures (forall k :: !OccursAt(href, "index", k)) ==> ScoreLink(href) == href
    ensures forall i :: FirstOccurrence(href, "index", i) ==>
      ScoreLink(href) == href[..i] + "score" + href[i + 5..]
  {
  }
}
