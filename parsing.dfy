/** The in-memory part of `parseCSVForBarChart`: once the CSV rows are loaded, the
    first column is taken as the grouping column, rows are grouped by its value
    (`d3.group`, whose map keeps the order in which values first appear), and one
    record is emitted per group whose every other column is the sum of that column
    over the group (`d3.sum`). The caller is told `(null, chartData)` on success and
    `(error, null)` when the transformation throws. */
module ParsingFunctions {

  datatype Result<T, E> = Success(value: T) | Failure(error: E)

  /** The one failure of the transformation: `Object.keys(data[0])` throws a
      TypeError when the CSV has no data rows, since `data[0]` is undefined. */
  datatype ParseError = EmptyData

  /** One row of the table: the value of the first (grouping) column, then one
      number per remaining column, in header order. */
  datatype Row = Row(key: string, values: seq<int>)

  /** The rows of a CSV file under its header; `header[0]` names the grouping column. */
  datatype Table = Table(header: seq<string>, rows: seq<Row>)

  predicate DistinctNames(names: seq<string>) {
    forall i, j :: 0 <= i < j < |names| ==> names[i] != names[j]
  }

  predicate HasWidth(rows: seq<Row>, width: nat) {
    forall r :: r in rows ==> |r.values| == width
  }

  /** Some row of `rows` has grouping value `k`. */
  predicate HasValue(rows: seq<Row>, k: string) {
    exists r :: r in rows && r.key == k
  }

  /** The grouping values of `rows`, in order. */
  function Values(rows: seq<Row>): seq<string> {
    seq(|rows|, i requires 0 <= i < |rows| => rows[i].key)
  }

  /** What `d3.csv` hands over: column names that are distinct (they become the keys of
      one object) and every row with one value per column. Only an empty file has no
      columns, and it has no rows either. */
  predicate WellFormed(t: Table) {
    && (|t.header| >= 1 || t.rows == [])
    && DistinctNames(t.header)
    && (|t.header| >= 1 ==> HasWidth(t.rows, |t.header| - 1))
  }

  /** The number in column `c` of a row; a missing cell adds nothing to a sum,
      as `d3.sum` skips values that are not numbers. */
  function Cell(r: Row, c: nat): int {
    if c < |r.values| then r.values[c] else 0
  }

  /** `d3.sum` of column `c` over `rows`. */
  function ColumnTotal(rows: seq<Row>, c: nat): int
    decreases |rows|
  {
    if rows == [] then 0 else ColumnTotal(rows[..|rows| - 1], c) + Cell(rows[|rows| - 1], c)
  }

  /** The keys of the map `d3.group` builds: each grouping value once, in the order
      in which it first appears among the rows. */
  function GroupKeys(rows: seq<Row>): seq<string>
    decreases |rows|
  {
    if rows == [] then []
    else
      var ks := GroupKeys(rows[..|rows| - 1]);
      if rows[|rows| - 1].key in ks then ks else ks + [rows[|rows| - 1].key]
  }

  /** The array `d3.group` stores under `k`: the rows whose grouping value is `k`, in order. */
  function GroupOf(rows: seq<Row>, k: string): seq<Row>
    decreases |rows|
  {
    if rows == [] then []
    else GroupOf(rows[..|rows| - 1], k) + (if rows[|rows| - 1].key == k then [rows[|rows| - 1]] else [])
  }

  /** The record built for group `k`: its grouping value, then each other column summed over the group. */
  function GroupEntry(rows: seq<Row>, k: string, width: nat): Row {
    Row(k, seq(width, c requires 0 <= c < width => ColumnTotal(GroupOf(rows, k), c)))
  }

  /** One record per key of `ks`, in that order (`Array.from` over the grouped map). */
  function Entries(rows: seq<Row>, ks: seq<string>, width: nat): seq<Row> {
    seq(|ks|, i requires 0 <= i < |ks| => GroupEntry(rows, ks[i], width))
  }

  /** The outcome passed to the callback: the aggregated table, or the error. */
  function Aggregate(t: Table): Result<Table, ParseError>
    requires WellFormed(t)
  {
    if t.rows == [] then Failure(EmptyData)
    else Success(Table(t.header, Entries(t.rows, GroupKeys(t.rows), |t.header| - 1)))
  }

  // ----- grouping -----

  /** Every grouping value appears once among the keys, and exactly the values of the rows do. */
  lemma {:induction false} GroupKeysAreTheDistinctValues(rows: seq<Row>)
    ensures DistinctNames(GroupKeys(rows))
    ensures forall k :: k in GroupKeys(rows) <==> HasValue(rows, k)
    decreases |rows|
  {
    if rows != [] {
      var rows', last := rows[..|rows| - 1], rows[|rows| - 1];
      GroupKeysAreTheDistinctValues(rows');
      assert rows == rows' + [last];
      assert HasValue(rows, last.key) by {
        assert last in rows;
      }
      forall k ensures HasValue(rows, k) <==> HasValue(rows', k) || k == last.key {
        if HasValue(rows', k) {
          var r :| r in rows' && r.key == k;
          assert r in rows;
        }
        if HasValue(rows, k) && k != last.key {
          var r :| r in rows && r.key == k;
          assert r in rows';
        }
      }
    }
  }

  /** Wherever the key at position `b` occurs among the rows, the key at an earlier
      position `a` has already occurred before it. */
  lemma {:induction false} EarlierKeyOccursBefore(rows: seq<Row>, a: int, b: int, j: int)
    requires 0 <= a < b < |GroupKeys(rows)| && 0 <= j < |rows| && rows[j].key == GroupKeys(rows)[b]
    ensures exists i :: 0 <= i < j && rows[i].key == GroupKeys(rows)[a]
    decreases |rows|
  {
    var rows' := rows[..|rows| - 1];
    var ks' := GroupKeys(rows');
    GroupKeysAreTheDistinctValues(rows');
    assert a < |ks'| && GroupKeys(rows)[a] == ks'[a];
    if j < |rows| - 1 {
      assert rows'[j] in rows';
      assert HasValue(rows', rows[j].key);
      // the key added last does not occur before the last row
      assert b < |ks'| && GroupKeys(rows)[b] == ks'[b];
      EarlierKeyOccursBefore(rows', a, b, j);
      var i :| 0 <= i < j && rows'[i].key == ks'[a];
      assert rows[i] == rows'[i];
    } else {
      assert ks'[a] in ks';
      var r :| r in rows' && r.key == ks'[a];
      var i :| 0 <= i < |rows'| && rows'[i] == r;
      assert rows[i] == rows'[i];
    }
  }

  /** `ks` lists values in order of first appearance among `rows`: wherever a later value
      occurs among the rows, every earlier value has already occurred before it. */
  predicate InFirstAppearanceOrder(rows: seq<Row>, ks: seq<string>) {
    forall a, b, j :: 0 <= a < b < |ks| && 0 <= j < |rows| && rows[j].key == ks[b]
      ==> exists i :: 0 <= i < j && rows[i].key == ks[a]
  }

  /** The keys `d3.group` builds follow the order of first appearance. */
  lemma GroupKeysFollowFirstAppearance(rows: seq<Row>)
    ensures InFirstAppearanceOrder(rows, GroupKeys(rows))
  {
    var ks := GroupKeys(rows);
    forall a, b, j | 0 <= a < b < |ks| && 0 <= j < |rows| && rows[j].key == ks[b]
      ensures exists i :: 0 <= i < j && rows[i].key == ks[a]
    {
      EarlierKeyOccursBefore(rows, a, b, j);
    }
  }

  /** A group holds exactly the rows with its value, each as often as in the input. */
  lemma {:induction false} GroupOfSelectsRows(rows: seq<Row>, k: string)
    ensures forall r :: multiset(GroupOf(rows, k))[r] == if r.key == k then multiset(rows)[r] else 0
    decreases |rows|
  {
    if rows != [] {
      var rows', last := rows[..|rows| - 1], rows[|rows| - 1];
      GroupOfSelectsRows(rows', k);
      assert rows == rows' + [last];
    }
  }

  /** Every group `d3.group` produces has a first row. */
  lemma GroupsAreNonEmpty(rows: seq<Row>, k: string)
    requires k in GroupKeys(rows)
    ensures GroupOf(rows, k) != []
  {
    GroupKeysAreTheDistinctValues(rows);
    GroupOfSelectsRows(rows, k);
    var r :| r in rows && r.key == k;
    assert multiset(GroupOf(rows, k))[r] > 0;
  }

  lemma {:induction false} GroupOfOtherValue(rows: seq<Row>, k: string)
    requires forall r :: r in rows ==> r.key != k
    ensures GroupOf(rows, k) == []
    decreases |rows|
  {
    if rows != [] {
      GroupOfOtherValue(rows[..|rows| - 1], k);
    }
  }

  /** The rows of a group have as many values as every row. */
  lemma {:induction false} GroupOfHasWidth(rows: seq<Row>, k: string, width: nat)
    requires HasWidth(rows, width)
    ensures HasWidth(GroupOf(rows, k), width)
    decreases |rows|
  {
    if rows != [] {
      var rows' := rows[..|rows| - 1];
      assert HasWidth(rows', width) by {
        forall r | r in rows' ensures |r.values| == width {
          assert r in rows;
        }
      }
      GroupOfHasWidth(rows', k, width);
      assert rows[|rows| - 1] in rows;
    }
  }

  // ----- totals -----

  lemma ColumnTotalAppend(rows: seq<Row>, x: Row, c: nat)
    ensures ColumnTotal(rows + [x], c) == ColumnTotal(rows, c) + Cell(x, c)
  {
    assert (rows + [x])[..|rows|] == rows;
  }

  /** Sum over the keys `ks` of each key's group total in column `c`. */
  function GroupTotals(rows: seq<Row>, ks: seq<string>, c: nat): int
    decreases |ks|
  {
    if ks == [] then 0 else GroupTotals(rows, ks[..|ks| - 1], c) + ColumnTotal(GroupOf(rows, ks[|ks| - 1]), c)
  }

  /** A row appended to the input adds its cell to its own group's total and to no other. */
  lemma GroupTotalAppendRow(rows: seq<Row>, x: Row, k: string, c: nat)
    ensures ColumnTotal(GroupOf(rows + [x], k), c) == ColumnTotal(GroupOf(rows, k), c) + (if x.key == k then Cell(x, c) else 0)
  {
    assert (rows + [x])[..|rows|] == rows;
    if x.key == k {
      assert GroupOf(rows + [x], k) == GroupOf(rows, k) + [x];
      ColumnTotalAppend(GroupOf(rows, k), x, c);
    } else {
      assert GroupOf(rows + [x], k) == GroupOf(rows, k) + [];
      assert GroupOf(rows, k) + [] == GroupOf(rows, k);
    }
  }

  lemma {:induction false} GroupTotalsAppendRow(rows: seq<Row>, x: Row, ks: seq<string>, c: nat)
    requires DistinctNames(ks)
    ensures GroupTotals(rows + [x], ks, c) == GroupTotals(rows, ks, c) + (if x.key in ks then Cell(x, c) else 0)
    decreases |ks|
  {
    if ks != [] {
      var ks', k := ks[..|ks| - 1], ks[|ks| - 1];
      assert ks == ks' + [k];
      assert DistinctNames(ks');
      assert k !in ks';
      GroupTotalsAppendRow(rows, x, ks', c);
      GroupTotalAppendRow(rows, x, k, c);
    }
  }

  lemma NewValueTotal(rows: seq<Row>, x: Row, ks: seq<string>, c: nat)
    requires !HasValue(rows, x.key)
    ensures GroupTotals(rows + [x], ks + [x.key], c) == GroupTotals(rows + [x], ks, c) + Cell(x, c)
  {
    var ks1 := ks + [x.key];
    assert ks1[..|ks1| - 1] == ks;
    GroupOfOtherValue(rows, x.key);
    GroupTotalAppendRow(rows, x, x.key, c);
  }

  /** Summing every group's total gives the total over all rows. */
  lemma {:induction false} GroupTotalsOfAllKeys(rows: seq<Row>, c: nat)
    ensures GroupTotals(rows, GroupKeys(rows), c) == ColumnTotal(rows, c)
    decreases |rows|
  {
    if rows != [] {
      var rows', x := rows[..|rows| - 1], rows[|rows| - 1];
      var ks' := GroupKeys(rows');
      assert rows == rows' + [x];
      assert ColumnTotal(rows, c) == ColumnTotal(rows', c) + Cell(x, c);
      GroupTotalsOfAllKeys(rows', c);
      GroupKeysAreTheDistinctValues(rows');
      GroupTotalsAppendRow(rows', x, ks', c);
      if x.key !in ks' {
        NewValueTotal(rows', x, ks', c);
      }
    }
  }

  /** The records built for `ks` hold, in column `c`, the group totals of `ks`. */
  lemma {:induction false} EntriesTotal(rows: seq<Row>, ks: seq<string>, width: nat, c: nat)
    requires c < width
    ensures ColumnTotal(Entries(rows, ks, width), c) == GroupTotals(rows, ks, c)
    decreases |ks|
  {
    if ks != [] {
      var ks' := ks[..|ks| - 1];
      EntriesTotal(rows, ks', width, c);
      assert Entries(rows, ks, width)[..|ks'|] == Entries(rows, ks', width);
    }
  }

  // ----- properties of the whole transformation -----

  /** The callback receives an error exactly when there are no data rows; otherwise it
      receives a non-empty table with the same columns, every record one value per column. */
  lemma AggregateOutcome(t: Table)
    requires WellFormed(t)
    ensures Aggregate(t).Failure? <==> t.rows == []
    ensures Aggregate(t).Failure? ==> Aggregate(t).error == EmptyData
    ensures Aggregate(t).Success? ==>
              var out := Aggregate(t).value;
              out.header == t.header && WellFormed(out) && 1 <= |out.rows| <= |t.rows|
  {
    if t.rows != [] {
      GroupKeysAreTheDistinctValues(t.rows);
      assert t.rows[0] in t.rows;
      assert GroupKeys(t.rows) != [];
      GroupKeyCount(t.rows);
    }
  }

  /** There are never more groups than rows. */
  lemma {:induction false} GroupKeyCount(rows: seq<Row>)
    ensures |GroupKeys(rows)| <= |rows|
    decreases |rows|
  {
    if rows != [] {
      GroupKeyCount(rows[..|rows| - 1]);
    }
  }

  /** Exactly one record per distinct grouping value: no two records share a value, and a
      value has a record exactly when some row carries it. */
  lemma OneRecordPerGroup(t: Table)
    requires WellFormed(t) && Aggregate(t).Success?
    ensures var out := Aggregate(t).value.rows;
            (forall i, j :: 0 <= i < j < |out| ==> out[i].key != out[j].key) &&
            (forall k :: HasValue(out, k) <==> HasValue(t.rows, k))
  {
    var ks := GroupKeys(t.rows);
    var out := Aggregate(t).value.rows;
    GroupKeysAreTheDistinctValues(t.rows);
    forall k ensures HasValue(out, k) <==> k in ks {
      if k in ks {
        var i :| 0 <= i < |ks| && ks[i] == k;
        assert out[i] in out;
      }
      if HasValue(out, k) {
        var e :| e in out && e.key == k;
        var i :| 0 <= i < |out| && out[i] == e;
      }
    }
  }

  /** Each record carries its group's value, and each other column holds the sum of that
      column over the rows of the group: exactly the input rows with that value. */
  lemma RecordsSumTheirGroup(t: Table)
    requires WellFormed(t) && Aggregate(t).Success?
    ensures var out := Aggregate(t).value.rows;
            forall i, c :: 0 <= i < |out| && 0 <= c < |t.header| - 1 ==>
              out[i].values[c] == ColumnTotal(GroupOf(t.rows, out[i].key), c) &&
              forall r :: multiset(GroupOf(t.rows, out[i].key))[r] ==
                            if r.key == out[i].key then multiset(t.rows)[r] else 0
  {
    var out := Aggregate(t).value.rows;
    forall i | 0 <= i < |out|
      ensures forall r :: multiset(GroupOf(t.rows, out[i].key))[r] ==
                            if r.key == out[i].key then multiset(t.rows)[r] else 0
    {
      GroupOfSelectsRows(t.rows, out[i].key);
    }
  }

  /** For every measure column, the records' total equals the rows' total. */
  lemma TotalsAreConserved(t: Table, c: nat)
    requires WellFormed(t) && Aggregate(t).Success?
    requires c < |t.header| - 1
    ensures ColumnTotal(Aggregate(t).value.rows, c) == ColumnTotal(t.rows, c)
  {
    EntriesTotal(t.rows, GroupKeys(t.rows), |t.header| - 1, c);
    GroupTotalsOfAllKeys(t.rows, c);
  }

  /** Records come in the order in which their values first appear among the rows. */
  lemma RecordsFollowFirstAppearance(t: Table)
    requires WellFormed(t) && Aggregate(t).Success?
    ensures InFirstAppearanceOrder(t.rows, Values(Aggregate(t).value.rows))
  {
    var ks := GroupKeys(t.rows);
    var out := Entries(t.rows, ks, |t.header| - 1);
    assert Aggregate(t).value.rows == out;
    GroupKeysFollowFirstAppearance(t.rows);
    assert Values(out) == ks;
  }

  /** No two rows share a grouping value. */
  predicate DistinctKeys(rows: seq<Row>) {
    forall i, j :: 0 <= i < j < |rows| ==> rows[i].key != rows[j].key
  }

  lemma {:induction false} GroupKeysOfDistinct(rows: seq<Row>)
    requires DistinctKeys(rows)
    ensures |GroupKeys(rows)| == |rows|
    ensures forall i :: 0 <= i < |rows| ==> GroupKeys(rows)[i] == rows[i].key
    decreases |rows|
  {
    if rows != [] {
      var rows', x := rows[..|rows| - 1], rows[|rows| - 1];
      GroupKeysOfDistinct(rows');
      GroupKeysAreTheDistinctValues(rows');
      assert !HasValue(rows', x.key) by {
        forall r | r in rows' ensures r.key != x.key {
          var i :| 0 <= i < |rows'| && rows'[i] == r;
          assert rows[i] == r;
        }
      }
    }
  }

  lemma {:induction false} GroupOfDistinct(rows: seq<Row>, i: nat)
    requires DistinctKeys(rows) && i < |rows|
    ensures GroupOf(rows, rows[i].key) == [rows[i]]
    decreases |rows|
  {
    var rows', x := rows[..|rows| - 1], rows[|rows| - 1];
    if i == |rows| - 1 {
      forall r | r in rows' ensures r.key != x.key {
        var j :| 0 <= j < |rows'| && rows'[j] == r;
        assert rows[j] == r;
      }
      GroupOfOtherValue(rows', x.key);
    } else {
      GroupOfDistinct(rows', i);
      assert rows[i] == rows'[i];
    }
  }

  lemma SingleRowTotal(e: Row, c: nat)
    ensures ColumnTotal([e], c) == Cell(e, c)
  {
    assert [e][..0] == [];
  }

  /** Rows with distinct values, regrouped, come back unchanged. */
  lemma RegroupDistinct(rows: seq<Row>, width: nat)
    requires DistinctKeys(rows) && HasWidth(rows, width)
    ensures Entries(rows, GroupKeys(rows), width) == rows
  {
    GroupKeysOfDistinct(rows);
    var again := Entries(rows, GroupKeys(rows), width);
    forall i | 0 <= i < |rows| ensures again[i] == rows[i] {
      GroupOfDistinct(rows, i);
      var e := rows[i];
      assert e in rows;
      forall c | 0 <= c < width ensures again[i].values[c] == e.values[c] {
        SingleRowTotal(e, c);
      }
    }
  }

  /** Grouping a table that already has one record per value gives it back unchanged,
      so aggregating the chart data a second time changes nothing. */
  lemma AggregateIsIdempotent(t: Table)
    requires WellFormed(t) && Aggregate(t).Success?
    ensures WellFormed(Aggregate(t).value)
    ensures Aggregate(Aggregate(t).value) == Aggregate(t)
  {
    var out := Aggregate(t).value;
    AggregateOutcome(t);
    OneRecordPerGroup(t);
    RegroupDistinct(out.rows, |t.header| - 1);
  }

  // ----- the code as written -----

  /** The `forEach` over the columns of the group's first row: every column other than
      the grouping column gets the group's sum of that column. */
  method BuildEntry(header: seq<string>, groupingColumn: string, group: string, groupData: seq<Row>)
    returns (entry: Row)
    requires |header| >= 1 && DistinctNames(header) && groupingColumn == header[0]
    requires groupData != [] && HasWidth(groupData, |header| - 1)
    ensures entry.key == group
    ensures |entry.values| == |header| - 1
    ensures forall c :: 0 <= c < |entry.values| ==> entry.values[c] == ColumnTotal(groupData, c)
  {
    entry := Row(group, []);
    var columns := header;  // the keys of groupData[0]
    for i := 0 to |columns|
      invariant entry.key == group
      invariant |entry.values| == if i == 0 then 0 else i - 1
      invariant forall c :: 0 <= c < |entry.values| ==> entry.values[c] == ColumnTotal(groupData, c)
    {
      if columns[i] != groupingColumn {
        entry := entry.(values := entry.values + [ColumnTotal(groupData, i - 1)]);
      }
    }
  }

  /** `parseCSVForBarChart` once the rows are in memory: the outcome handed to the callback. */
  method ParseCsvForBarChart(t: Table) returns (result: Result<Table, ParseError>)
    requires WellFormed(t)
    ensures result == Aggregate(t)
  {
    if |t.rows| == 0 {
      return Failure(EmptyData);
    }
    var groupingColumn := t.header[0];
    var groups := GroupKeys(t.rows);
    var width := |t.header| - 1;
    var chartData: seq<Row> := [];
    for g := 0 to |groups|
      invariant |chartData| == g
      invariant forall i :: 0 <= i < g ==> chartData[i] == GroupEntry(t.rows, groups[i], width)
    {
      var groupData := GroupOf(t.rows, groups[g]);
      GroupsAreNonEmpty(t.rows, groups[g]);
      GroupOfHasWidth(t.rows, groups[g], width);
      var entry := BuildEntry(t.header, groupingColumn, groups[g], groupData);
      assert entry.values == GroupEntry(t.rows, groups[g], width).values;
      chartData := chartData + [entry];
    }
    result := Success(Table(t.header, chartData));
    assert chartData == Entries(t.rows, groups, width);
  }
}
