/** `updateData`: the year filter, the continent filter and the optional
    aggregation, composed and handed to a freshly built table. */
module Pipeline {
  import opened Rows
  import opened Filters
  import opened Aggregation
  import opened Table

  /** The rows on screen for one setting of the year slider, the continent
      checkboxes and the aggregation radio button (their values are passed in). */
  method UpdateData(tableData: seq<Row>, yearSelection: int, continents: seq<string>,
                    aggregateByContinent: bool)
    returns (view: TableView)
    ensures fresh(view) && view.Valid() && view.clicks == 0 && view.sortToggle && view.columns == DefaultColumns
    ensures var shown := ContinentView(Filter(tableData, [Num(yearSelection as real)], Year), continents);
            view.rows == if aggregateByContinent then Aggregate(shown, Continent) else shown
  {
    var aggregateBy := if aggregateByContinent then Some(Continent) else None;
    var x := FilterByYear(tableData, yearSelection);
    var y := FilterByContinent(x, continents);
    var z := DoAggregation(y, aggregateBy, continents);
    ContinentViewIdempotent(x, continents);
    view := new TableView(DefaultColumns, z);
  }
}
