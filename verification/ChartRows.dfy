// Lines joined into rows by time
// (web/tstlan-web/components/time-series-chart.tsx).
module ChartRows {
  import opened Sequences

  datatype Sample = Sample(t: real, v: real)

  datatype Line = Line(key: string, samples: seq<Sample>)

  const TIME := "t"

  // A row object: its time under "t", and a value under the key of each line that
  // has one.
  type Row = r: map<string, real> | TIME in r witness map[TIME := 0.0]

  // What the lines put at each time, and the times in the order they came first.
  datatype Table = Table(cells: map<real, map<string, real>>, times: seq<real>)

  // ---------- the sort at the end ----------

  // A row goes behind those of its own time: the sort is stable.
  function Inserted(rows: seq<Row>, row: Row): seq<Row> {
    if rows == [] then [row]
    else if row[TIME] < rows[0][TIME] then [row] + rows
    else [rows[0]] + Inserted(rows[1..], row)
  }

  function Sorted(rows: seq<Row>): seq<Row> {
    if rows == [] then [] else Inserted(Sorted(rows[..|rows| - 1]), rows[|rows| - 1])
  }

  ghost predicate InOrder(rows: seq<Row>) {
    forall i, j | 0 <= i < j < |rows| :: rows[i][TIME] <= rows[j][TIME]
  }

  lemma {:induction false} InsertedHolds(rows: seq<Row>, row: Row)
    ensures multiset(Inserted(rows, row)) == multiset(rows) + multiset{row}
  {
    if rows != [] {
      assert rows == [rows[0]] + rows[1..];
      InsertedHolds(rows[1..], row);
    }
  }

  lemma {:induction false} InsertedKeeps(rows: seq<Row>, row: Row)
    requires InOrder(rows)
    ensures InOrder(Inserted(rows, row))
  {
    if rows != [] && !(row[TIME] < rows[0][TIME]) {
      InsertedKeeps(rows[1..], row);
      InsertedHolds(rows[1..], row);
      var rest := Inserted(rows[1..], row);
      hide Inserted;
      forall j | 0 <= j < |rest|
        ensures rows[0][TIME] <= rest[j][TIME]
      {
        assert rest[j] in multiset(rest);
        if rest[j] != row {
          assert rest[j] in multiset(rows[1..]);
        }
      }
    }
  }

  lemma {:induction false} SortedKeeps(rows: seq<Row>)
    ensures InOrder(Sorted(rows))
    ensures multiset(Sorted(rows)) == multiset(rows)
  {
    if rows != [] {
      var n := |rows| - 1;
      SortedKeeps(rows[..n]);
      assert rows == rows[..n] + [rows[n]];
      InsertedKeeps(Sorted(rows[..n]), rows[n]);
      InsertedHolds(Sorted(rows[..n]), rows[n]);
    }
  }

  // The rows that hold the time `t`, in their order.
  function RowsAt(rows: seq<Row>, t: real): seq<Row> {
    if rows == [] then []
    else if rows[0][TIME] == t then [rows[0]] + RowsAt(rows[1..], t) else RowsAt(rows[1..], t)
  }

  lemma {:induction false} RowsAtAppend(rows: seq<Row>, row: Row, t: real)
    ensures RowsAt(rows + [row], t) == RowsAt(rows, t) + if row[TIME] == t then [row] else []
  {
    if rows == [] {
      assert rows + [row] == [row] && [row][1..] == [];
    } else {
      RowsAtAppend(rows[1..], row, t);
      assert (rows + [row])[1..] == rows[1..] + [row];
    }
  }

  lemma {:induction false} NoRowsAt(rows: seq<Row>, t: real)
    requires InOrder(rows) && rows != [] && t < rows[0][TIME]
    ensures RowsAt(rows, t) == []
  {
    if |rows| > 1 {
      NoRowsAt(rows[1..], t);
    } else {
      assert rows[1..] == [];
    }
  }

  lemma {:induction false} InsertedIsStable(rows: seq<Row>, row: Row, t: real)
    requires InOrder(rows)
    ensures RowsAt(Inserted(rows, row), t) == RowsAt(rows, t) + if row[TIME] == t then [row] else []
  {
    if rows == [] {
      assert [row][1..] == [];
    } else if row[TIME] < rows[0][TIME] {
      assert ([row] + rows)[1..] == rows;
      if row[TIME] == t {
        NoRowsAt(rows, t);
      }
    } else {
      InsertedIsStable(rows[1..], row, t);
      assert ([rows[0]] + Inserted(rows[1..], row))[1..] == Inserted(rows[1..], row);
    }
  }

  // Sorting is stable: rows of one time stay in the order they had.
  lemma {:induction false} SortedIsStable(rows: seq<Row>, t: real)
    ensures RowsAt(Sorted(rows), t) == RowsAt(rows, t)
  {
    hide RowsAt, InOrder, Inserted;
    if rows == [] {
      assert Sorted(rows) == rows;
    } else {
      var n := |rows| - 1;
      SortedIsStable(rows[..n], t);
      SortedKeeps(rows[..n]);
      InsertedIsStable(Sorted(rows[..n]), rows[n], t);
      RowsAtAppend(rows[..n], rows[n], t);
      assert rows == rows[..n] + [rows[n]];
    }
  }

  // Increasing lists are determined by their elements.
  lemma {:induction false} IncreasingIsUnique(a: seq<real>, b: seq<real>)
    requires Increasing(a) && Increasing(b)
    requires forall x :: x in a <==> x in b
    ensures a == b
  {
    FirstIn(a, b);
    FirstIn(b, a);
    if a != [] && b != [] {
      assert a[0] == b[0];
      forall x
        ensures x in a[1..] <==> x in b[1..]
      {
        TailMembers(a, x);
        TailMembers(b, x);
      }
      IncreasingIsUnique(a[1..], b[1..]);
      assert a == [a[0]] + a[1..] && b == [b[0]] + b[1..];
    }
  }

  lemma FirstIn(a: seq<real>, b: seq<real>)
    requires forall x :: x in a <==> x in b
    ensures a == [] || a[0] in b
  {
    if a != [] {
      var x := a[0];
      assert x in a;
    }
  }

  lemma TailMembers(s: seq<real>, x: real)
    requires s != [] && Increasing(s)
    ensures x in s[1..] <==> x in s && x != s[0]
  {
    assert s == [s[0]] + s[1..];
  }

  // ---------- what the table holds ----------

  // The cell (t, key) after the first `n` lines: the last sample there wins.
  function Valued(samples: seq<Sample>, t: real): set<real> {
    if samples == [] then {}
    else
      var n := |samples| - 1;
      if samples[n].t == t then {samples[n].v} else Valued(samples[..n], t)
  }

  function CellOf(table: Table, t: real, key: string): set<real> {
    if t in table.cells && key in table.cells[t] then {table.cells[t][key]} else {}
  }

  ghost predicate TableOk(table: Table) {
    && Distinct(table.times)
    && forall t :: t in table.times <==> t in table.cells
  }

  function Put(table: Table, key: string, sample: Sample): Table {
    var row := if sample.t in table.cells then table.cells[sample.t] else map[];
    Table(table.cells[sample.t := row[key := sample.v]],
          if sample.t in table.cells then table.times else table.times + [sample.t])
  }

  function PutAll(table: Table, key: string, samples: seq<Sample>): Table {
    if samples == [] then table
    else Put(PutAll(table, key, samples[..|samples| - 1]), key, samples[|samples| - 1])
  }

  function Joined(series: seq<Line>): Table {
    if series == [] then Table(map[], [])
    else
      var n := |series| - 1;
      PutAll(Joined(series[..n]), series[n].key, series[n].samples)
  }

  // The row object of a time: a line called "t" overwrites the time it began with.
  function RowAt(table: Table, t: real): Row
    requires t in table.cells
  {
    map[TIME := t] + table.cells[t]
  }

  // The row objects, in the order of their times.
  function Unsorted(table: Table): (rows: seq<Row>)
    requires TableOk(table)
    ensures |rows| == |table.times|
    ensures forall i | 0 <= i < |rows| :: rows[i] == RowAt(table, table.times[i])
  {
    seq(|table.times|, i requires 0 <= i < |table.times| =>
      assert table.times[i] in table.times;
      RowAt(table, table.times[i]))
  }

  function RowsOf(table: Table): seq<Row>
    requires TableOk(table)
  {
    Sorted(Unsorted(table))
  }

  // Some sample is at `t`.
  ghost predicate SampleAt(samples: seq<Sample>, t: real) {
    exists k :: 0 <= k < |samples| && samples[k].t == t
  }

  lemma {:induction false} PutAllOk(table: Table, key: string, samples: seq<Sample>)
    requires TableOk(table)
    ensures TableOk(PutAll(table, key, samples))
  {
    if samples != [] {
      PutAllOk(table, key, samples[..|samples| - 1]);
    }
  }

  lemma {:induction false} PutAllTimes(table: Table, key: string, samples: seq<Sample>, t: real)
    ensures t in PutAll(table, key, samples).cells <==> t in table.cells || SampleAt(samples, t)
  {
    if samples != [] {
      var n := |samples| - 1;
      PutAllTimes(table, key, samples[..n], t);
      if SampleAt(samples[..n], t) {
        var k :| 0 <= k < n && samples[..n][k].t == t;
        assert samples[k].t == t;
      }
      if SampleAt(samples, t) && samples[n].t != t {
        var k :| 0 <= k < |samples| && samples[k].t == t;
        assert samples[..n][k].t == t;
      }
    }
  }

  lemma {:induction false} CellAfterPutAll(table: Table, key: string, samples: seq<Sample>, t: real, other: string)
    ensures CellOf(PutAll(table, key, samples), t, other) ==
            if other == key && Valued(samples, t) != {} then Valued(samples, t) else CellOf(table, t, other)
  {
    if samples != [] {
      CellAfterPutAll(table, key, samples[..|samples| - 1], t, other);
    }
  }

  lemma {:induction false} JoinedOk(series: seq<Line>)
    ensures TableOk(Joined(series))
  {
    if series != [] {
      var n := |series| - 1;
      JoinedOk(series[..n]);
      PutAllOk(Joined(series[..n]), series[n].key, series[n].samples);
    }
  }

  lemma {:induction false} JoinedTimes(series: seq<Line>, t: real)
    ensures t in Joined(series).cells <==> HasTime(series, t)
  {
    if series != [] {
      var n := |series| - 1;
      JoinedTimes(series[..n], t);
      PutAllTimes(Joined(series[..n]), series[n].key, series[n].samples, t);
      HasTimeOfMore(series, n, t);
    }
  }

  // Some line has a sample at `t`.
  ghost predicate HasTime(series: seq<Line>, t: real) {
    exists l :: 0 <= l < |series| && SampleAt(series[l].samples, t)
  }

  lemma HasTimeOfMore(series: seq<Line>, n: nat, t: real)
    requires n + 1 == |series|
    ensures HasTime(series, t) <==> HasTime(series[..n], t) || SampleAt(series[n].samples, t)
  {
    if HasTime(series[..n], t) {
      var l :| 0 <= l < n && SampleAt(series[..n][l].samples, t);
      assert SampleAt(series[l].samples, t);
    }
    if HasTime(series, t) {
      var l :| 0 <= l < |series| && SampleAt(series[l].samples, t);
      if l < n {
        assert SampleAt(series[..n][l].samples, t);
      }
    }
  }

  predicate DistinctKeys(series: seq<Line>) {
    forall i, j | 0 <= i < j < |series| :: series[i].key != series[j].key
  }

  lemma {:induction false} CellAfterJoin(series: seq<Line>, l: nat, t: real)
    requires DistinctKeys(series) && l < |series|
    ensures CellOf(Joined(series), t, series[l].key) == Valued(series[l].samples, t)
  {
    var n := |series| - 1;
    CellAfterPutAll(Joined(series[..n]), series[n].key, series[n].samples, t, series[l].key);
    if l < n {
      CellAfterJoin(series[..n], l, t);
    } else {
      NoCellYet(series[..n], series[l].key, t);
    }
  }

  lemma {:induction false} NoCellYet(series: seq<Line>, key: string, t: real)
    requires forall i | 0 <= i < |series| :: series[i].key != key
    ensures CellOf(Joined(series), t, key) == {}
  {
    if series != [] {
      var n := |series| - 1;
      NoCellYet(series[..n], key, t);
      CellAfterPutAll(Joined(series[..n]), series[n].key, series[n].samples, t, key);
    }
  }

  // Of several samples of a line at one time the last one is shown there.
  lemma LastSampleShows(series: seq<Line>, l: nat, k: nat)
    requires DistinctKeys(series) && l < |series| && k < |series[l].samples|
    requires forall m | k < m < |series[l].samples| :: series[l].samples[m].t != series[l].samples[k].t
    ensures var t, key := series[l].samples[k].t, series[l].key;
            && t in Joined(series).cells && key in RowAt(Joined(series), t)
            && RowAt(Joined(series), t)[key] == series[l].samples[k].v
  {
    var t := series[l].samples[k].t;
    CellAfterJoin(series, l, t);
    LastIsValued(series[l].samples, k);
    assert series[l].samples[k].v in CellOf(Joined(series), t, series[l].key);
  }

  lemma {:induction false} LastIsValued(samples: seq<Sample>, k: nat)
    requires k < |samples|
    requires forall m | k < m < |samples| :: samples[m].t != samples[k].t
    ensures Valued(samples, samples[k].t) == {samples[k].v}
  {
    if k < |samples| - 1 {
      LastIsValued(samples[..|samples| - 1], k);
    }
  }

  // ---------- the loops ----------

  ghost predicate Holds(rows: map<real, Row>, order: seq<real>, table: Table) {
    && order == table.times && rows.Keys == table.cells.Keys
    && forall t | t in rows :: rows[t] == RowAt(table, t)
  }

  lemma HoldsPut(rows: map<real, Row>, order: seq<real>, table: Table, key: string, sample: Sample)
    requires Holds(rows, order, table) && TableOk(table)
    ensures var begun, times := if sample.t in rows then rows else rows[sample.t := map[TIME := sample.t]],
                                if sample.t in rows then order else order + [sample.t];
            Holds(begun[sample.t := begun[sample.t][key := sample.v]], times, Put(table, key, sample))
  {
  }

  method BuildRows(series: seq<Line>) returns (rows: seq<Row>)
    ensures TableOk(Joined(series)) && rows == RowsOf(Joined(series))
  {
    hide Sorted, Unsorted, Holds, TableOk, Put;
    NothingHeld();
    var byT: map<real, Row>, order: seq<real> := map[], [];
    for l := 0 to |series|
      invariant Holds(byT, order, Joined(series[..l]))
    {
      var line := series[l];
      assert series[..l + 1][..l] == series[..l];
      for k := 0 to |line.samples|
        invariant Holds(byT, order, PutAll(Joined(series[..l]), line.key, line.samples[..k]))
      {
        var sample := line.samples[k];
        ghost var table := PutAll(Joined(series[..l]), line.key, line.samples[..k]);
        JoinedOk(series[..l]);
        PutAllOk(Joined(series[..l]), line.key, line.samples[..k]);
        HoldsPut(byT, order, table, line.key, sample);
        assert line.samples[..k + 1][..k] == line.samples[..k];
        if sample.t !in byT {
          byT, order := byT[sample.t := map[TIME := sample.t]], order + [sample.t];
        }
        byT := byT[sample.t := byT[sample.t][line.key := sample.v]];
      }
      assert line.samples[..|line.samples|] == line.samples;
    }
    assert series[..|series|] == series;
    JoinedOk(series);
    HeldIsUnsorted(byT, order, Joined(series));
    rows := Sorted(seq(|order|, i requires 0 <= i < |order| && order[i] in byT => byT[order[i]]));
  }

  lemma NothingHeld()
    ensures Holds(map[], [], Joined([]))
  {
  }

  lemma HeldIsUnsorted(rows: map<real, Row>, order: seq<real>, table: Table)
    requires Holds(rows, order, table) && TableOk(table)
    ensures forall i | 0 <= i < |order| :: order[i] in rows
    ensures Unsorted(table) == seq(|order|, i requires 0 <= i < |order| && order[i] in rows => rows[order[i]])
  {
    forall i | 0 <= i < |order|
      ensures order[i] in rows
    {
      var t := table.times[i];
      assert t in table.times;
      assert t in table.cells;
      assert t in rows.Keys;
    }
  }

  method ColumnValues(rows: seq<Row>, key: string) returns (out: seq<real>)
    ensures out == Values(Column(rows, key))
  {
    out := [];
    for i := 0 to |rows|
      invariant out == Values(Column(rows[..i], key))
    {
      assert rows[..i + 1][..i] == rows[..i];
      if key in rows[i] {
        out := out + [rows[i][key]];
      }
    }
    assert rows[..|rows|] == rows;
  }

  // ---------- the join loses nothing ----------

  // The samples a column of the rows holds.
  function Column(rows: seq<Row>, key: string): seq<Sample> {
    if rows == [] then []
    else
      var n := |rows| - 1;
      var before := Column(rows[..n], key);
      if key in rows[n] then before + [Sample(rows[n][TIME], rows[n][key])] else before
  }

  function Values(samples: seq<Sample>): (values: seq<real>)
    ensures |values| == |samples|
    ensures forall k | 0 <= k < |samples| :: values[k] == samples[k].v
  {
    seq(|samples|, k requires 0 <= k < |samples| => samples[k].v)
  }

  function Times(samples: seq<Sample>): (times: seq<real>)
    ensures |times| == |samples|
    ensures forall k | 0 <= k < |samples| :: times[k] == samples[k].t
  {
    seq(|samples|, k requires 0 <= k < |samples| => samples[k].t)
  }

  ghost predicate RowsIncrease(rows: seq<Row>) {
    forall i, j | 0 <= i < j < |rows| :: rows[i][TIME] < rows[j][TIME]
  }

  // There is exactly one row for each time of a sample, and the rows are in the
  // order of what they hold as their times.
  lemma OneRowPerTime(series: seq<Line>)
    ensures TableOk(Joined(series))
    ensures InOrder(RowsOf(Joined(series)))
    ensures multiset(RowsOf(Joined(series))) == multiset(Unsorted(Joined(series)))
    ensures forall t :: RowsAt(RowsOf(Joined(series)), t) == RowsAt(Unsorted(Joined(series)), t)
    ensures forall t :: t in Joined(series).times <==> HasTime(series, t)
  {
    JoinedOk(series);
    SortedKeeps(Unsorted(Joined(series)));
    forall t
      ensures RowsAt(RowsOf(Joined(series)), t) == RowsAt(Unsorted(Joined(series)), t)
    {
      SortedIsStable(Unsorted(Joined(series)), t);
    }
    forall t
      ensures t in Joined(series).times <==> HasTime(series, t)
    {
      JoinedTimes(series, t);
    }
  }

  lemma RowsOfTable(table: Table, row: Row)
    requires TableOk(table)
    ensures row in RowsOf(table) <==> exists t :: t in table.times && row == RowAt(table, t)
  {
    var unsorted := Unsorted(table);
    SortedKeeps(unsorted);
    assert row in RowsOf(table) <==> row in multiset(RowsOf(table));
    assert row in unsorted <==> row in multiset(unsorted);
    if t :| t in table.times && row == RowAt(table, t) {
      var i :| 0 <= i < |table.times| && table.times[i] == t;
      assert unsorted[i] == row;
    }
  }

  // Every row holds the time it began with.
  ghost predicate TimesKept(table: Table) {
    forall t | t in table.cells :: RowAt(table, t)[TIME] == t
  }

  // Then the rows strictly increase.
  lemma KeptTimesIncrease(table: Table)
    requires TableOk(table) && TimesKept(table)
    ensures RowsIncrease(RowsOf(table))
  {
    hide RowAt;
    var rows, unsorted := RowsOf(table), Unsorted(table);
    SortedKeeps(unsorted);
    forall i, j | 0 <= i < j < |rows|
      ensures rows[i][TIME] != rows[j][TIME]
    {
      if rows[i][TIME] == rows[j][TIME] {
        RowsOfTable(table, rows[i]);
        RowsOfTable(table, rows[j]);
        assert rows[i] in rows && rows[j] in rows;
        assert rows[i] == rows[j];
        Twice(rows, i, j);
        assert multiset(unsorted)[rows[i]] >= 2;
        var k, l := TwicePlaces(unsorted, rows[i]);
      }
    }
  }

  lemma Twice<T>(s: seq<T>, i: nat, j: nat)
    requires i < j < |s| && s[i] == s[j]
    ensures multiset(s)[s[i]] >= 2
  {
    assert s == s[..j] + s[j..];
    assert s[..j][i] == s[i] && s[j..][0] == s[i];
    assert s[i] in multiset(s[..j]) && s[i] in multiset(s[j..]);
  }

  lemma {:induction false} TwicePlaces<T>(s: seq<T>, x: T) returns (i: nat, j: nat)
    requires multiset(s)[x] >= 2
    ensures i < j < |s| && s[i] == x && s[j] == x
  {
    var n := |s| - 1;
    assert s == s[..n] + [s[n]];
    if s[n] == x {
      assert x in multiset(s[..n]);
      i :| 0 <= i < n && s[..n][i] == x;
      j := n;
    } else {
      i, j := TwicePlaces(s[..n], x);
    }
  }

  lemma {:induction false} ValuedIn(samples: seq<Sample>, t: real, v: real)
    requires Increasing(Times(samples))
    ensures v in Valued(samples, t) <==> Sample(t, v) in samples
  {
    if samples != [] {
      var n := |samples| - 1;
      var before := samples[..n];
      assert Times(before) == Times(samples)[..n];
      ValuedIn(before, t, v);
      assert samples == before + [samples[n]];
      assert forall k | 0 <= k < n :: Times(samples)[k] < Times(samples)[n];
    }
  }

  predicate InRow(row: Row, key: string, s: Sample) {
    key in row && row[TIME] == s.t && row[key] == s.v
  }

  lemma {:induction false} ColumnHolds(rows: seq<Row>, key: string, s: Sample)
    ensures s in Column(rows, key) <==> exists row :: row in rows && InRow(row, key, s)
  {
    if rows != [] {
      var n := |rows| - 1;
      ColumnHolds(rows[..n], key, s);
      if s in Column(rows[..n], key) {
        var row :| row in rows[..n] && InRow(row, key, s);
        assert row in rows;
      } else if s in Column(rows, key) {
        assert rows[n] in rows && InRow(rows[n], key, s);
      }
      if row :| row in rows && InRow(row, key, s) {
        assert row == rows[n] || row in rows[..n];
      }
    }
  }

  lemma {:induction false} ColumnIncreases(rows: seq<Row>, key: string)
    requires RowsIncrease(rows)
    ensures Increasing(Times(Column(rows, key)))
  {
    if rows != [] {
      var n := |rows| - 1;
      var before := Column(rows[..n], key);
      ColumnIncreases(rows[..n], key);
      forall k | 0 <= k < |before|
        ensures before[k].t < rows[n][TIME]
      {
        assert before[k] in before;
        ColumnHolds(rows[..n], key, before[k]);
        var row :| row in rows[..n] && InRow(row, key, before[k]);
        var i :| 0 <= i < n && rows[..n][i] == row;
        assert rows[i] == row;
      }
      if key in rows[n] {
        assert Times(Column(rows, key)) == Times(before) + [rows[n][TIME]];
      }
    }
  }

  // Where times are kept, a column holds just what its line put there.
  lemma ColumnIsCells(table: Table, key: string, s: Sample)
    requires TableOk(table) && TimesKept(table)
    ensures s in Column(RowsOf(table), key) <==>
            if key == TIME then s.t in table.cells && s.v == s.t else s.v in CellOf(table, s.t, key)
  {
    hide RowsOf;
    var rows := RowsOf(table);
    ColumnHolds(rows, key, s);
    if s in Column(rows, key) {
      var row :| row in rows && InRow(row, key, s);
      RowsOfTable(table, row);
      var t :| t in table.times && row == RowAt(table, t);
      assert t in table.cells && t == s.t;
    }
    if s.t in table.cells && InRow(RowAt(table, s.t), key, s) {
      RowsOfTable(table, RowAt(table, s.t));
    }
  }

  // A line that shows the time itself: each of its values is the value's time.
  predicate IsClock(samples: seq<Sample>) {
    forall k | 0 <= k < |samples| :: samples[k].v == samples[k].t
  }

  // No line is called "t", except it be a clock.
  predicate TimeIsFree(series: seq<Line>) {
    forall l | 0 <= l < |series| && series[l].key == TIME :: IsClock(series[l].samples)
  }

  lemma {:induction false} ValuedByClock(samples: seq<Sample>, t: real)
    requires IsClock(samples)
    ensures Valued(samples, t) == if SampleAt(samples, t) then {t} else {}
  {
    if samples != [] {
      var n := |samples| - 1;
      ValuedByClock(samples[..n], t);
      if SampleAt(samples[..n], t) {
        var k :| 0 <= k < n && samples[..n][k].t == t;
        assert samples[k].t == t;
      }
      if SampleAt(samples, t) && samples[n].t != t {
        var k :| 0 <= k < |samples| && samples[k].t == t;
        assert samples[..n][k].t == t;
      }
    }
  }

  lemma {:induction false} FreeTimeIsKept(series: seq<Line>)
    requires TimeIsFree(series)
    ensures TimesKept(Joined(series))
  {
    if series != [] {
      var n := |series| - 1;
      FreeTimeIsKept(series[..n]);
      forall t | t in Joined(series).cells
        ensures RowAt(Joined(series), t)[TIME] == t
      {
        CellAfterPutAll(Joined(series[..n]), series[n].key, series[n].samples, t, TIME);
        if series[n].key == TIME {
          ValuedByClock(series[n].samples, t);
        }
        CellIsTime(Joined(series), t);
        if t in Joined(series[..n]).cells {
          CellIsTime(Joined(series[..n]), t);
        }
      }
    }
  }

  // Where no line overwrites the times, the rows strictly increase in time, and
  // there is one at a time exactly if some line has a sample there.
  lemma RowsAreTimes(series: seq<Line>)
    requires TimeIsFree(series)
    ensures TableOk(Joined(series))
    ensures RowsIncrease(RowsOf(Joined(series)))
    ensures forall t :: HasTime(series, t) <==> exists row :: row in RowsOf(Joined(series)) && row[TIME] == t
  {
    hide RowsOf;
    var table := Joined(series);
    OneRowPerTime(series);
    FreeTimeIsKept(series);
    KeptTimesIncrease(table);
    forall t
      ensures HasTime(series, t) <==> exists row :: row in RowsOf(table) && row[TIME] == t
    {
      if HasTime(series, t) {
        RowsOfTable(table, RowAt(table, t));
      }
      if row :| row in RowsOf(table) && row[TIME] == t {
        RowsOfTable(table, row);
        var x :| x in table.times && row == RowAt(table, x);
        assert x in table.cells && x == t;
      }
    }
  }

  lemma CellIsTime(table: Table, t: real)
    requires t in table.cells
    ensures RowAt(table, t)[TIME] == t <==> CellOf(table, t, TIME) <= {t}
  {
    var cell := CellOf(table, t, TIME);
    if TIME in table.cells[t] {
      assert table.cells[t][TIME] in cell;
    }
  }

  // Every line whose times strictly increase is recovered from its column, sample
  // by sample, whatever other lines it was joined with, so long as none of them
  // overwrites the time of a row.
  lemma JoinIsLossless(series: seq<Line>, l: nat)
    requires DistinctKeys(series) && l < |series| && TimeIsFree(series)
    requires Increasing(Times(series[l].samples)) && series[l].key != TIME
    ensures TableOk(Joined(series))
    ensures Column(RowsOf(Joined(series)), series[l].key) == series[l].samples
  {
    var table, key, samples := Joined(series), series[l].key, series[l].samples;
    JoinedOk(series);
    FreeTimeIsKept(series);
    KeptTimesIncrease(table);
    var rows := RowsOf(table);
    ColumnIncreases(rows, key);
    var column := Column(rows, key);
    forall s: Sample
      ensures s in column <==> s in samples
    {
      CellAfterJoin(series, l, s.t);
      ValuedIn(samples, s.t, s.v);
      ColumnIsCells(table, key, s);
    }
    SamplesDetermined(column, samples);
  }

  // Lines of increasing times are all recovered if and only if none is called "t",
  // unless it is a clock with a sample at every time of the chart.
  lemma JoinIsExact(series: seq<Line>)
    requires DistinctKeys(series)
    requires forall l | 0 <= l < |series| :: Increasing(Times(series[l].samples))
    ensures TableOk(Joined(series))
    ensures (forall l | 0 <= l < |series| :: Column(RowsOf(Joined(series)), series[l].key) == series[l].samples) <==>
            (forall l | 0 <= l < |series| && series[l].key == TIME ::
               IsClock(series[l].samples) && forall t | HasTime(series, t) :: SampleAt(series[l].samples, t))
  {
    hide RowsOf, Valued;
    JoinedOk(series);
    var rows := RowsOf(Joined(series));
    forall l: nat | l < |series|
      ensures TimeIsFree(series) && series[l].key != TIME ==> Column(rows, series[l].key) == series[l].samples
      ensures series[l].key == TIME ==>
                (Column(rows, TIME) == series[l].samples <==>
                 IsClock(series[l].samples) && forall t | HasTime(series, t) :: SampleAt(series[l].samples, t))
    {
      if series[l].key == TIME {
        if IsClock(series[l].samples) && forall t | HasTime(series, t) :: SampleAt(series[l].samples, t) {
          ClockIsRecovered(series, l);
        }
        if Column(rows, TIME) == series[l].samples {
          RecoveredIsClock(series, l);
        }
      } else if TimeIsFree(series) {
        JoinIsLossless(series, l);
      }
    }
  }

  lemma ClockSamples(samples: seq<Sample>, s: Sample)
    requires IsClock(samples)
    ensures s in samples <==> SampleAt(samples, s.t) && s.v == s.t
  {
    if SampleAt(samples, s.t) && s.v == s.t {
      var k :| 0 <= k < |samples| && samples[k].t == s.t;
      assert samples[k] == s;
    }
  }

  lemma OnlyClock(series: seq<Line>, l: nat)
    requires DistinctKeys(series) && l < |series| && series[l].key == TIME && IsClock(series[l].samples)
    ensures TimeIsFree(series)
  {
    hide IsClock;
    forall m | 0 <= m < |series| && series[m].key == TIME
      ensures m == l
    {
      assert !(m < l) && !(l < m);
    }
  }

  lemma LineHasTime(series: seq<Line>, l: nat, t: real)
    requires l < |series| && SampleAt(series[l].samples, t)
    ensures HasTime(series, t)
  {
  }

  lemma ClockIsRecovered(series: seq<Line>, l: nat)
    requires DistinctKeys(series) && l < |series| && series[l].key == TIME
    requires Increasing(Times(series[l].samples)) && IsClock(series[l].samples)
    requires forall t | HasTime(series, t) :: SampleAt(series[l].samples, t)
    ensures TableOk(Joined(series)) && Column(RowsOf(Joined(series)), TIME) == series[l].samples
  {
    OnlyClock(series, l);
    hide *;
    var samples := series[l].samples;
    JoinedOk(series);
    FreeTimeIsKept(series);
    KeptTimesIncrease(Joined(series));
    var rows := RowsOf(Joined(series));
    ColumnIncreases(rows, TIME);
    forall s: Sample
      ensures s in Column(rows, TIME) <==> s in samples
    {
      ColumnIsCells(Joined(series), TIME, s);
      JoinedTimes(series, s.t);
      ClockSamples(samples, s);
      if SampleAt(samples, s.t) {
        LineHasTime(series, l, s.t);
      }
    }
    SamplesDetermined(Column(rows, TIME), samples);
  }

  lemma RecoveredIsClock(series: seq<Line>, l: nat)
    requires DistinctKeys(series) && l < |series| && series[l].key == TIME
    requires Increasing(Times(series[l].samples))
    requires TableOk(Joined(series)) && Column(RowsOf(Joined(series)), TIME) == series[l].samples
    ensures IsClock(series[l].samples)
    ensures forall t | HasTime(series, t) :: SampleAt(series[l].samples, t)
  {
    hide RowsOf;
    var samples, table := series[l].samples, Joined(series);
    var rows := RowsOf(table);
    forall k | 0 <= k < |samples|
      ensures samples[k].v == samples[k].t
    {
      ColumnHolds(rows, TIME, samples[k]);
    }
    forall t | HasTime(series, t)
      ensures SampleAt(samples, t)
    {
      JoinedTimes(series, t);
      CellAfterJoin(series, l, t);
      ValuedByClock(samples, t);
      var row := RowAt(table, t);
      RowsOfTable(table, row);
      ColumnHolds(rows, TIME, Sample(row[TIME], row[TIME]));
    }
  }

  // A variable called "t" is shown as the times of all variables beside it.
  lemma TimeIsOverwritten()
    ensures var series := [Line(TIME, [Sample(1.0, 5.0)]), Line("p", [Sample(1.0, 7.0)])];
            TableOk(Joined(series)) && Column(RowsOf(Joined(series)), "p") == [Sample(5.0, 7.0)]
  {
    var clash, line := Line(TIME, [Sample(1.0, 5.0)]), Line("p", [Sample(1.0, 7.0)]);
    JoinedOk([clash, line]);
    assert [clash, line][..1] == [clash] && [clash][..0] == [];
    PutOne(Table(map[], []), TIME, Sample(1.0, 5.0));
    PutOne(Joined([clash]), "p", Sample(1.0, 7.0));
    var none, one, table := Joined([]), Joined([clash]), Joined([clash, line]);
    assert none == Table(map[], []);
    assert one == Put(none, TIME, Sample(1.0, 5.0));
    assert one.cells == map[1.0 := map[TIME := 5.0]];
    assert one.times == [1.0];
    assert one.cells[1.0]["p" := 7.0] == map[TIME := 5.0, "p" := 7.0];
    assert table == Table(map[1.0 := map[TIME := 5.0, "p" := 7.0]], [1.0]);
    var row: Row := map[TIME := 5.0, "p" := 7.0];
    assert RowAt(table, 1.0) == row;
    assert Unsorted(table) == [row];
    assert [row][..0] == [];
    assert Sorted([row]) == Inserted([], row) == [row];
    assert Column([row], "p") == [Sample(5.0, 7.0)];
  }

  lemma PutOne(table: Table, key: string, sample: Sample)
    ensures PutAll(table, key, [sample]) == Put(table, key, sample)
  {
    assert [sample][..0] == [];
  }

  lemma SamplesDetermined(a: seq<Sample>, b: seq<Sample>)
    requires Increasing(Times(a)) && Increasing(Times(b))
    requires forall s: Sample :: s in a <==> s in b
    ensures a == b
  {
    forall t
      ensures t in Times(a) <==> t in Times(b)
    {
      SameTimes(a, b, t);
      SameTimes(b, a, t);
    }
    IncreasingIsUnique(Times(a), Times(b));
    forall k | 0 <= k < |a|
      ensures a[k] == b[k]
    {
      assert a[k] in b;
      var j :| 0 <= j < |b| && b[j] == a[k];
      assert Times(b)[j] == Times(a)[k] == Times(b)[k];
    }
  }

  lemma SameTimes(a: seq<Sample>, b: seq<Sample>, t: real)
    requires forall s: Sample :: s in a ==> s in b
    ensures t in Times(a) ==> t in Times(b)
  {
    if t in Times(a) {
      var k :| 0 <= k < |a| && Times(a)[k] == t;
      assert a[k] in b;
      var j :| 0 <= j < |b| && b[j] == a[k];
      assert Times(b)[j] == t;
    }
  }
}
