/** `buildTable`: the header-click comparator, the sort toggle and the per-cell
    formatting. The page elements themselves are not part of this model. */
module Table {
  import opened Rows
  import opened StringOrder

  // ---------------------------------------------------------------------------
  // The comparator handed to `selection.sort` on a header click.

  /** Comparison of rows `a` and `b` on column `header`: equal values fall back to
      ascending names; strings run descending while the toggle is set; numbers
      compare as `a - b` while it is set and `b - a` otherwise. */
  function Compare(sortToggle: bool, header: Field, a: Row, b: Row): (r: real)
    ensures r == 0.0 <==> Get(a, header) == Get(b, header) && a.name == b.name
  {
    var va, vb := Get(a, header), Get(b, header);
    if va == vb then Ascending(a.name, b.name)
    else if va.Str? then
      (if sortToggle then Descending(va.s, vb.s) else Ascending(va.s, vb.s))
    else if sortToggle then va.n - vb.n
    else vb.n - va.n
  }

  /** `x` strictly before `y` in the column order the toggle selects. */
  ghost predicate HeaderBefore(sortToggle: bool, x: Value, y: Value) {
    match x
    case Str(s) => y.Str? && (if sortToggle then Less(y.s, s) else Less(s, y.s))
    case Num(n) => y.Num? && (if sortToggle then n < y.n else y.n < n)
  }

  /** Rows with equal values in the sorted column are ordered by ascending name,
      whatever the toggle. */
  lemma CompareTie(sortToggle: bool, header: Field, a: Row, b: Row)
    requires Get(a, header) == Get(b, header)
    ensures Compare(sortToggle, header, a, b) == Compare(!sortToggle, header, a, b)
    ensures Compare(sortToggle, header, a, b) < 0.0 <==> Less(a.name, b.name)
    ensures Compare(sortToggle, header, a, b) == 0.0 <==> a.name == b.name
  {
  }

  /** Different strings sort descending exactly when the toggle is set. */
  lemma CompareText(sortToggle: bool, header: Field, a: Row, b: Row)
    requires IsText(header) && Get(a, header) != Get(b, header)
    ensures Compare(sortToggle, header, a, b) != 0.0
    ensures Compare(sortToggle, header, a, b) < 0.0 <==>
            if sortToggle then Less(Get(b, header).s, Get(a, header).s)
            else Less(Get(a, header).s, Get(b, header).s)
    ensures Compare(true, header, a, b) == -Compare(false, header, a, b)
  {
  }

  /** Different numbers compare as `a - b` when the toggle is set and `b - a` otherwise. */
  lemma CompareNumber(sortToggle: bool, header: Field, a: Row, b: Row)
    requires !IsText(header) && Get(a, header) != Get(b, header)
    ensures Compare(true, header, a, b) == Get(a, header).n - Get(b, header).n
    ensures Compare(false, header, a, b) == Get(b, header).n - Get(a, header).n
    ensures Compare(sortToggle, header, a, b) != 0.0
  {
  }

  /** Swapping the rows negates the comparison. */
  lemma CompareAntisymmetric(sortToggle: bool, header: Field, a: Row, b: Row)
    ensures Compare(sortToggle, header, a, b) == -Compare(sortToggle, header, b, a)
  {
  }

  /** The sign of the comparison is the order of (column value, name). */
  lemma CompareSign(sortToggle: bool, header: Field, a: Row, b: Row)
    ensures Compare(sortToggle, header, a, b) < 0.0 <==>
            HeaderBefore(sortToggle, Get(a, header), Get(b, header)) ||
            (Get(a, header) == Get(b, header) && Less(a.name, b.name))
    ensures Compare(sortToggle, header, a, b) == 0.0 <==>
            Get(a, header) == Get(b, header) && a.name == b.name
  {
    var va, vb := Get(a, header), Get(b, header);
    if va.Str? {
      LessIrreflexive(va.s);
    }
  }

  lemma HeaderBeforeTransitive(sortToggle: bool, x: Value, y: Value, z: Value)
    requires HeaderBefore(sortToggle, x, y) && HeaderBefore(sortToggle, y, z)
    ensures HeaderBefore(sortToggle, x, z)
  {
    if x.Str? {
      if sortToggle {
        LessTransitive(z.s, y.s, x.s);
      } else {
        LessTransitive(x.s, y.s, z.s);
      }
    }
  }

  /** "Sorts no later than" is transitive, so the comparator is a consistent
      ordering for `Array.prototype.sort`. */
  lemma CompareTransitive(sortToggle: bool, header: Field, a: Row, b: Row, c: Row)
    requires Compare(sortToggle, header, a, b) <= 0.0 && Compare(sortToggle, header, b, c) <= 0.0
    ensures Compare(sortToggle, header, a, c) <= 0.0
  {
    var va, vb, vc := Get(a, header), Get(b, header), Get(c, header);
    CompareSign(sortToggle, header, a, b);
    CompareSign(sortToggle, header, b, c);
    CompareSign(sortToggle, header, a, c);
    if va == vb && vb == vc {
      if Less(a.name, b.name) && Less(b.name, c.name) {
        LessTransitive(a.name, b.name, c.name);
      }
    } else if va != vb && vb != vc {
      HeaderBeforeTransitive(sortToggle, va, vb, vc);
    }
  }

  // ---------------------------------------------------------------------------
  // Sorting the body rows.

  /** Every row sorts no later than every row after it. */
  ghost predicate SortedBy(sortToggle: bool, header: Field, rows: seq<Row>) {
    forall i, j :: 0 <= i < j < |rows| ==> Compare(sortToggle, header, rows[i], rows[j]) <= 0.0
  }

  function InsertRow(sortToggle: bool, header: Field, x: Row, rows: seq<Row>): (r: seq<Row>)
    ensures multiset(r) == multiset(rows) + multiset{x}
  {
    if rows == [] then [x]
    else if Compare(sortToggle, header, x, rows[0]) <= 0.0 then [x] + rows
    else
      assert rows == [rows[0]] + rows[1..];
      [rows[0]] + InsertRow(sortToggle, header, x, rows[1..])
  }

  /** Insertion sort, standing in for the browser's `Array.prototype.sort`. */
  function SortRows(sortToggle: bool, header: Field, rows: seq<Row>): (r: seq<Row>)
    ensures multiset(r) == multiset(rows)
  {
    if rows == [] then []
    else
      assert rows == [rows[0]] + rows[1..];
      InsertRow(sortToggle, header, rows[0], SortRows(sortToggle, header, rows[1..]))
  }

  lemma PrependSorted(sortToggle: bool, header: Field, x: Row, rows: seq<Row>)
    requires SortedBy(sortToggle, header, rows)
    requires forall j :: 0 <= j < |rows| ==> Compare(sortToggle, header, x, rows[j]) <= 0.0
    ensures SortedBy(sortToggle, header, [x] + rows)
  {
  }

  lemma BeforeAllOfSorted(sortToggle: bool, header: Field, x: Row, rows: seq<Row>)
    requires SortedBy(sortToggle, header, rows) && rows != []
    requires Compare(sortToggle, header, x, rows[0]) <= 0.0
    ensures forall j :: 0 <= j < |rows| ==> Compare(sortToggle, header, x, rows[j]) <= 0.0
  {
    forall j | 0 < j < |rows| ensures Compare(sortToggle, header, x, rows[j]) <= 0.0 {
      CompareTransitive(sortToggle, header, x, rows[0], rows[j]);
    }
  }

  lemma {:induction false} InsertRowSorted(sortToggle: bool, header: Field, x: Row, rows: seq<Row>)
    requires SortedBy(sortToggle, header, rows)
    ensures SortedBy(sortToggle, header, InsertRow(sortToggle, header, x, rows))
  {
    if rows == [] {
    } else if Compare(sortToggle, header, x, rows[0]) <= 0.0 {
      BeforeAllOfSorted(sortToggle, header, x, rows);
      PrependSorted(sortToggle, header, x, rows);
    } else {
      var first, rest := rows[0], rows[1..];
      assert SortedBy(sortToggle, header, rest) by {
        forall i, j | 0 <= i < j < |rest| ensures Compare(sortToggle, header, rest[i], rest[j]) <= 0.0 {
          assert rest[i] == rows[i + 1] && rest[j] == rows[j + 1];
        }
      }
      InsertRowSorted(sortToggle, header, x, rest);
      var tail := InsertRow(sortToggle, header, x, rest);
      CompareAntisymmetric(sortToggle, header, x, first);
      forall j | 0 <= j < |tail| ensures Compare(sortToggle, header, first, tail[j]) <= 0.0 {
        assert tail[j] in multiset(rest) + multiset{x};
        if tail[j] != x {
          var k :| 0 <= k < |rest| && rest[k] == tail[j];
          assert rest[k] == rows[k + 1];
        }
      }
      PrependSorted(sortToggle, header, first, tail);
    }
  }

  /** The sorted rows are in comparator order. */
  lemma {:induction false} SortRowsSorted(sortToggle: bool, header: Field, rows: seq<Row>)
    ensures SortedBy(sortToggle, header, SortRows(sortToggle, header, rows))
  {
    if rows != [] {
      SortRowsSorted(sortToggle, header, rows[1..]);
      InsertRowSorted(sortToggle, header, rows[0], SortRows(sortToggle, header, rows[1..]));
    }
  }

  // ---------------------------------------------------------------------------
  // The table and its sort toggle.

  /** The table `buildTable` draws: its columns, its body rows in display order
      and the `sortToggle` its click handlers share. */
  class TableView {
    const columns: seq<Field>
    var rows: seq<Row>
    var sortToggle: bool
    /** header clicks since the table was built */
    ghost var clicks: nat

    /** The toggle is set exactly after an even number of clicks, on whatever headers. */
    ghost predicate Valid()
      reads this
    {
      sortToggle == (clicks % 2 == 0)
    }

    /** `buildTable(columns, data)`: a fresh table with the toggle set. */
    constructor (columns: seq<Field>, data: seq<Row>)
      ensures Valid() && clicks == 0
      ensures this.columns == columns && rows == data && sortToggle
    {
      this.columns := columns;
      rows := data;
      sortToggle := true;
      clicks := 0;
    }

    /** A click on `header`: flip the toggle first, then sort the rows with it. */
    method ClickHeader(header: Field)
      requires Valid()
      modifies this
      ensures Valid() && clicks == old(clicks) + 1
      ensures sortToggle == !old(sortToggle)
      ensures SortedBy(sortToggle, header, rows)
      ensures multiset(rows) == multiset(old(rows))
    {
      sortToggle := !sortToggle;
      clicks := clicks + 1;
      SortRowsSorted(sortToggle, header, rows);
      rows := SortRows(sortToggle, header, rows);
    }
  }

  /** Two clicks, on any two headers, leave the toggle as it was and the rows
      ordered by the second header in that direction. */
  method ClickTwice(view: TableView, first: Field, second: Field)
    requires view.Valid()
    modifies view
    ensures view.Valid() && view.sortToggle == old(view.sortToggle)
    ensures SortedBy(view.sortToggle, second, view.rows)
    ensures multiset(view.rows) == multiset(old(view.rows))
  {
    view.ClickHeader(first);
    view.ClickHeader(second);
  }

  // ---------------------------------------------------------------------------
  // Cell formatting.

  /** A displayed cell. The number formats are d3 library calls and stay symbolic:
      `RoundedTo1` is `d3.round(x, 1)`, `ThousandsSeparated` is `d3.format(",")`,
      `SiPrefixed` is `d3.format("4.1s")`. */
  datatype Cell = Plain(v: Value) | RoundedTo1(x: real) | ThousandsSeparated(x: real) | SiPrefixed(x: real)

  predicate IsFormatted(column: Field) {
    column == LifeExpectancy || column == Population || column == Gdp
  }

  /** The cell of `column` in `row`: the formatted columns go through their own
      formatter, applied to the column's number; the others show the value as is. */
  function FormatCell(column: Field, row: Row): (c: Cell)
    ensures c.Plain? <==> !IsFormatted(column)
    ensures c.Plain? ==> c.v == Get(row, column)
    ensures !c.Plain? ==> Get(row, column) == Num(c.x)
    ensures c.RoundedTo1? <==> column == LifeExpectancy
    ensures c.ThousandsSeparated? <==> column == Population
    ensures c.SiPrefixed? <==> column == Gdp
  {
    if column == LifeExpectancy then RoundedTo1(row.lifeExpectancy)
    else if column == Population then ThousandsSeparated(row.population)
    else if column == Gdp then SiPrefixed(row.gdp)
    else Plain(Get(row, column))
  }

  /** The cells of one body row: one per column, the numeric columns formatted and
      every other column passed through unchanged. */
  function FormatRow(columns: seq<Field>, row: Row): (cells: seq<Cell>)
    ensures |cells| == |columns|
    ensures forall i :: 0 <= i < |columns| && !IsFormatted(columns[i]) ==>
              cells[i] == Plain(Get(row, columns[i]))
    ensures forall i :: 0 <= i < |columns| ==> (cells[i].Plain? <==> !IsFormatted(columns[i]))
    ensures forall i :: 0 <= i < |columns| && columns[i] == LifeExpectancy ==>
              cells[i] == RoundedTo1(row.lifeExpectancy)
    ensures forall i :: 0 <= i < |columns| && columns[i] == Population ==>
              cells[i] == ThousandsSeparated(row.population)
    ensures forall i :: 0 <= i < |columns| && columns[i] == Gdp ==>
              cells[i] == SiPrefixed(row.gdp)
  {
    seq(|columns|, i requires 0 <= i < |columns| => FormatCell(columns[i], row))
  }
}
