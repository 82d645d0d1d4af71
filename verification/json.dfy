/**
 * `ConvertToJSON`: groups database rows by the text under one key, the shape
 * the match API serves (matches grouped by league).
 */
module Json {
  import opened Results
  import opened Rows

  /** The grouping text of `row`, when it has a text under `key`. */
  function Label(row: Row, key: string): Option<string>
  {
    if key in row && row[key].Str? then Some(row[key].s) else None
  }

  /** The error `row` makes the whole conversion fail with, if any. */
  function RowError(row: Row, key: string): Option<Error>
  {
    if key !in row then Some(HeaderKeyMissing(key))
    else if !row[key].Str? then Some(HeaderKeyNotString(key))
    else None
  }

  /** Every row carries a text under `key`. */
  predicate Groupable(rows: seq<Row>, key: string)
  {
    forall k :: 0 <= k < |rows| ==> Label(rows[k], key).Some?
  }

  /** Row `i` is the first one that cannot be grouped. */
  predicate FirstBad(rows: seq<Row>, key: string, i: int)
  {
    && 0 <= i < |rows|
    && RowError(rows[i], key).Some?
    && forall k :: 0 <= k < i ==> RowError(rows[k], key).None?
  }

  /** The rows labelled `g`, in input order (a filter of `rows`). */
  function Group(rows: seq<Row>, key: string, g: string): (r: seq<Row>)
    ensures |r| <= |rows|
    decreases |rows|
  {
    if |rows| == 0 then []
    else
      var last := rows[|rows| - 1];
      Group(rows[..|rows| - 1], key, g) + (if Label(last, key) == Some(g) then [last] else [])
  }

  /** The labels present in `rows`. */
  function Labels(rows: seq<Row>, key: string): set<string>
    decreases |rows|
  {
    if |rows| == 0 then {}
    else
      var last := rows[|rows| - 1];
      Labels(rows[..|rows| - 1], key) + (match Label(last, key) case Some(h) => {h} case None => {})
  }

  /** Grouping `rows` by `headerKey`. An empty input, a row without the key
      or a row whose value under it is not a text fails the whole call (the
      first offending row decides which error); otherwise every label present
      names the non-empty group of its rows, in input order. */
  method ConvertToJSON(data: seq<Row>, headerKey: string) returns (r: Result<map<string, seq<Row>>>)
    ensures |data| == 0 ==> r == Failure(DataEmpty)
    ensures |data| > 0 ==> (r.Success? <==> Groupable(data, headerKey))
    ensures r.Failure? && |data| > 0 ==>
      exists i :: FirstBad(data, headerKey, i) && Some(r.error) == RowError(data[i], headerKey)
    ensures r.Success? ==> r.value.Keys == Labels(data, headerKey)
    ensures r.Success? ==> forall g :: g in r.value ==> r.value[g] == Group(data, headerKey, g) && |r.value[g]| > 0
  {
    if |data| == 0 {
      return Failure(DataEmpty);
    }
    var groups: map<string, seq<Row>> := map[];
    var i := 0;
    while i < |data|
      invariant 0 <= i <= |data|
      invariant Groupable(data[..i], headerKey) && Grouped(groups, data[..i], headerKey)
    {
      var row := data[i];
      var err := RowError(row, headerKey);
      if err.Some? {
        FirstBadAt(data, i, headerKey);
        return Failure(err.value);
      }
      var h := row[headerKey].s;
      GroupableStep(data, i, headerKey);
      ExtendGroupsAt(data, i, headerKey, groups, h);
      groups := AddToGroup(groups, h, row);
      i := i + 1;
    }
    assert data[..i] == data;
    forall g | g in groups
      ensures |groups[g]| > 0
    {
      LabelledGroupNonEmpty(data, headerKey, g);
    }
    return Success(groups);
  }

  /** Groups pass rows through unchanged, and only rows carrying the
      group's label. */
  lemma {:induction false} GroupMembers(rows: seq<Row>, key: string, g: string)
    ensures forall x :: x in Group(rows, key, g) ==> x in rows && Label(x, key) == Some(g)
    decreases |rows|
  {
    if |rows| > 0 {
      GroupMembers(rows[..|rows| - 1], key, g);
    }
  }

  /** One more labelled row extends exactly the group its label names. */
  lemma ExtendGroups(pre: seq<Row>, x: Row, key: string, groups: map<string, seq<Row>>, h: string)
    requires Label(x, key) == Some(h)
    requires groups.Keys == Labels(pre, key)
    requires forall g :: g in groups ==> groups[g] == Group(pre, key, g)
    ensures var groups' := groups[h := (if h in groups then groups[h] else []) + [x]];
      && groups'.Keys == Labels(pre + [x], key)
      && forall g :: g in groups' ==> groups'[g] == Group(pre + [x], key, g)
  {
    var rows := pre + [x];
    assert rows[..|rows| - 1] == pre;
    if h !in groups {
      GroupOfAbsentLabel(pre, key, h);
    }
  }

  /** `groups` holds exactly the groups of `rows`. */
  predicate Grouped(groups: map<string, seq<Row>>, rows: seq<Row>, key: string)
  {
    && groups.Keys == Labels(rows, key)
    && forall g :: g in groups ==> groups[g] == Group(rows, key, g)
  }

  /** `x` appended to the group `h`, which is created when missing. */
  function AddToGroup(groups: map<string, seq<Row>>, h: string, x: Row): map<string, seq<Row>>
  {
    groups[h := (if h in groups then groups[h] else []) + [x]]
  }

  /** The first row that fails to group, after rows that all group. */
  lemma FirstBadAt(data: seq<Row>, i: nat, key: string)
    requires i < |data| && Groupable(data[..i], key) && RowError(data[i], key).Some?
    ensures FirstBad(data, key, i)
  {
    forall k | 0 <= k < i
      ensures RowError(data[k], key).None?
    {
      assert data[..i][k] == data[k];
    }
  }

  lemma GroupableStep(data: seq<Row>, i: nat, key: string)
    requires i < |data| && Groupable(data[..i], key) && Label(data[i], key).Some?
    ensures Groupable(data[..i + 1], key)
  {
    forall k | 0 <= k < i
      ensures Label(data[k], key).Some?
    {
      assert data[..i][k] == data[k];
    }
  }

  /** The loop step of the conversion: row `i` joins its group. */
  lemma ExtendGroupsAt(data: seq<Row>, i: nat, key: string, groups: map<string, seq<Row>>, h: string)
    requires i < |data| && Label(data[i], key) == Some(h)
    requires Grouped(groups, data[..i], key)
    ensures Grouped(AddToGroup(groups, h, data[i]), data[..i + 1], key)
  {
    assert data[..i + 1] == data[..i] + [data[i]];
    ExtendGroups(data[..i], data[i], key, groups, h);
  }

  lemma {:induction false} GroupOfAbsentLabel(rows: seq<Row>, key: string, g: string)
    requires g !in Labels(rows, key)
    ensures Group(rows, key, g) == []
    decreases |rows|
  {
    if |rows| > 0 {
      GroupOfAbsentLabel(rows[..|rows| - 1], key, g);
    }
  }

  /** No label names an empty group. */
  lemma {:induction false} LabelledGroupNonEmpty(rows: seq<Row>, key: string, g: string)
    requires g in Labels(rows, key)
    ensures |Group(rows, key, g)| > 0
    decreases |rows|
  {
    var pre := rows[..|rows| - 1];
    if Label(rows[|rows| - 1], key) != Some(g) {
      LabelledGroupNonEmpty(pre, key, g);
    }
  }

  /** Grouping distributes over concatenation: each group keeps the input
      order of its rows. */
  lemma {:induction false} GroupConcat(a: seq<Row>, b: seq<Row>, key: string, g: string)
    ensures Group(a + b, key, g) == Group(a, key, g) + Group(b, key, g)
    decreases |b|
  {
    if |b| == 0 {
      assert a + b == a;
    } else {
      var b' := b[..|b| - 1];
      assert (a + b)[..|a + b| - 1] == a + b';
      assert (a + b)[|a + b| - 1] == b[|b| - 1];
      GroupConcat(a, b', key, g);
    }
  }

  /** Every labelled row lands in the group its own label names. */
  lemma EveryRowInItsGroup(rows: seq<Row>, key: string, k: int)
    requires 0 <= k < |rows| && Label(rows[k], key).Some?
    ensures rows[k] in Group(rows, key, Label(rows[k], key).value)
  {
    var g := Label(rows[k], key).value;
    assert rows == rows[..k] + [rows[k]] + rows[k + 1..];
    GroupConcat(rows[..k] + [rows[k]], rows[k + 1..], key, g);
    GroupConcat(rows[..k], [rows[k]], key, g);
    assert [rows[k]][..0] == [];
  }

  predicate Distinct(gs: seq<string>)
  {
    forall i, j :: 0 <= i < j < |gs| ==> gs[i] != gs[j]
  }

  /** The labels of `rows` in order of first appearance. */
  function LabelList(rows: seq<Row>, key: string): (r: seq<string>)
    ensures Distinct(r)
    ensures forall g :: g in r <==> g in Labels(rows, key)
    decreases |rows|
  {
    if |rows| == 0 then []
    else
      var prev := LabelList(rows[..|rows| - 1], key);
      match Label(rows[|rows| - 1], key)
      case None => prev
      case Some(h) => if h in prev then prev else prev + [h]
  }

  /** The total size of the groups named in `gs`. */
  function SumSizes(rows: seq<Row>, key: string, gs: seq<string>): nat
    decreases |gs|
  {
    if |gs| == 0 then 0
    else SumSizes(rows, key, gs[..|gs| - 1]) + |Group(rows, key, gs[|gs| - 1])|
  }

  lemma {:induction false} SumSizesAppendRow(pre: seq<Row>, x: Row, key: string, gs: seq<string>)
    requires Distinct(gs) && Label(x, key).Some?
    ensures SumSizes(pre + [x], key, gs)
            == SumSizes(pre, key, gs) + (if Label(x, key).value in gs then 1 else 0)
    decreases |gs|
  {
    var rows := pre + [x];
    assert rows[..|rows| - 1] == pre;
    if |gs| > 0 {
      var gs' := gs[..|gs| - 1];
      assert forall i, j :: 0 <= i < j < |gs'| ==> gs'[i] == gs[i] && gs'[j] == gs[j];
      SumSizesAppendRow(pre, x, key, gs');
      assert gs == gs' + [gs[|gs| - 1]];
      assert Label(x, key).value in gs <==> Label(x, key).value in gs' || Label(x, key).value == gs[|gs| - 1];
      assert gs[|gs| - 1] !in gs';
    }
  }

  /** The groups partition the input: when every row is labelled, the group
      sizes add up to the number of rows. */
  lemma {:induction false} GroupSizesSum(rows: seq<Row>, key: string)
    requires Groupable(rows, key)
    ensures SumSizes(rows, key, LabelList(rows, key)) == |rows|
    decreases |rows|
  {
    if |rows| > 0 {
      var pre := rows[..|rows| - 1];
      var x := rows[|rows| - 1];
      var h := Label(x, key).value;
      assert rows == pre + [x];
      GroupSizesSum(pre, key);
      var prev := LabelList(pre, key);
      SumSizesAppendRow(pre, x, key, prev);
      if h !in prev {
        GroupOfAbsentLabel(pre, key, h);
        assert (prev + [h])[..|prev|] == prev;
      }
    }
  }
}
