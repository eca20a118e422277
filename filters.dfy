/** `applyFilter`, `filterByYear` and `filterByContinent`: stable membership filters. */
module Filters {
  import opened Rows

  /** The rows whose `on` value is one of `values`, in their original order. */
  function Filter(data: seq<Row>, values: seq<Value>, on: Field): seq<Row> {
    if data == [] then []
    else Filter(data[..|data| - 1], values, on) +
         (if Get(data[|data| - 1], on) in values then [data[|data| - 1]] else [])
  }

  /** The positions of `data` that `Filter` keeps, ascending. */
  function KeptIndices(data: seq<Row>, values: seq<Value>, on: Field): seq<nat> {
    if data == [] then []
    else KeptIndices(data[..|data| - 1], values, on) +
         (if Get(data[|data| - 1], on) in values then [|data| - 1] else [])
  }

  /** `idx` picks `sub` out of `data` at strictly increasing positions. */
  ghost predicate SubsequenceAt(sub: seq<Row>, data: seq<Row>, idx: seq<nat>) {
    && |idx| == |sub|
    && (forall k :: 0 <= k < |idx| ==> idx[k] < |data| && sub[k] == data[idx[k]])
    && (forall k, l :: 0 <= k < l < |idx| ==> idx[k] < idx[l])
  }

  /** The filter is an order-preserving subsequence of its input, picked at exactly
      the positions whose `on` value is one of `values`. */
  lemma {:induction false} FilterIsSubsequence(data: seq<Row>, values: seq<Value>, on: Field)
    ensures SubsequenceAt(Filter(data, values, on), data, KeptIndices(data, values, on))
    ensures forall i :: i in KeptIndices(data, values, on) <==>
              0 <= i < |data| && Get(data[i], on) in values
  {
    if data != [] {
      var init := data[..|data| - 1];
      FilterIsSubsequence(init, values, on);
      var idx := KeptIndices(init, values, on);
      assert forall k :: 0 <= k < |idx| ==> idx[k] < |init|;
    }
  }

  /** Each row occurs in the result as often as in the input if its `on` value is
      selected, and not at all otherwise. */
  lemma {:induction false} FilterCount(data: seq<Row>, values: seq<Value>, on: Field, x: Row)
    ensures multiset(Filter(data, values, on))[x] ==
            if Get(x, on) in values then multiset(data)[x] else 0
  {
    if data != [] {
      var init := data[..|data| - 1];
      FilterCount(init, values, on, x);
      assert data == init + [data[|data| - 1]];
    }
  }

  /** Filtering twice by the same selection is filtering once. */
  lemma {:induction false} FilterIdempotent(data: seq<Row>, values: seq<Value>, on: Field)
    ensures Filter(Filter(data, values, on), values, on) == Filter(data, values, on)
  {
    if data != [] {
      var init, last := data[..|data| - 1], data[|data| - 1];
      FilterIdempotent(init, values, on);
      var once := Filter(init, values, on);
      if Get(last, on) in values {
        var both := once + [last];
        assert both[..|both| - 1] == once && both[|both| - 1] == last;
        assert Filter(both, values, on) == Filter(once, values, on) + [last];
        assert Filter(data, values, on) == both;
      } else {
        assert Filter(data, values, on) == once;
      }
    }
  }

  /** `applyFilter`: a loop pushing every row whose `filterOn` value is in `filterValues`. */
  method ApplyFilter(data: seq<Row>, filterValues: seq<Value>, filterOn: Field)
    returns (filteredData: seq<Row>)
    ensures filteredData == Filter(data, filterValues, filterOn)
  {
    filteredData := [];
    var i := 0;
    while i < |data|
      invariant 0 <= i <= |data|
      invariant filteredData == Filter(data[..i], filterValues, filterOn)
    {
      assert data[..i + 1][..i] == data[..i];
      if Get(data[i], filterOn) in filterValues {
        filteredData := filteredData + [data[i]];
      }
      i := i + 1;
    }
    assert data[..|data|] == data;
  }

  /** `filterByYear`: exactly the rows of that year, in their original order. */
  method FilterByYear(data: seq<Row>, year: int) returns (filteredData: seq<Row>)
    ensures filteredData == Filter(data, [Num(year as real)], Year)
    ensures forall x :: multiset(filteredData)[x] == if x.year == year then multiset(data)[x] else 0
  {
    filteredData := ApplyFilter(data, [Num(year as real)], Year);
    forall x ensures multiset(filteredData)[x] == if x.year == year then multiset(data)[x] else 0 {
      FilterCount(data, [Num(year as real)], Year, x);
    }
  }

  /** The checked continents as the values `applyFilter` compares against. */
  function Selection(continents: seq<string>): (vs: seq<Value>)
    ensures |vs| == |continents|
    ensures forall v :: v in vs ==> v.Str? && v.s in continents
  {
    seq(|continents|, i requires 0 <= i < |continents| => Str(continents[i]))
  }

  /** A continent is selected exactly when its box is checked. */
  lemma SelectionHas(continents: seq<string>, c: string)
    ensures Str(c) in Selection(continents) <==> c in continents
  {
    if c in continents {
      var i :| 0 <= i < |continents| && continents[i] == c;
      assert Selection(continents)[i] == Str(c);
    }
  }

  /** What `filterByContinent` returns: no checked box means no filter. */
  function ContinentView(data: seq<Row>, continents: seq<string>): seq<Row> {
    if |continents| != 0 then Filter(data, Selection(continents), Continent) else data
  }

  /** An empty selection keeps every row; otherwise exactly the rows of a checked continent stay. */
  lemma ContinentViewCount(data: seq<Row>, continents: seq<string>, x: Row)
    ensures continents == [] ==> ContinentView(data, continents) == data
    ensures multiset(ContinentView(data, continents))[x] ==
            if continents == [] || x.continent in continents then multiset(data)[x] else 0
  {
    if continents != [] {
      FilterCount(data, Selection(continents), Continent, x);
      SelectionHas(continents, x.continent);
    }
  }

  /** Filtering by continent twice is filtering once, so the second call that
      `doAggregation` makes without a group field changes nothing. */
  lemma ContinentViewIdempotent(data: seq<Row>, continents: seq<string>)
    ensures ContinentView(ContinentView(data, continents), continents) == ContinentView(data, continents)
  {
    if continents != [] {
      FilterIdempotent(data, Selection(continents), Continent);
    }
  }

  /** `filterByContinent`, with the checked continents passed in instead of read from the page. */
  method FilterByContinent(data: seq<Row>, continents: seq<string>) returns (r: seq<Row>)
    ensures r == ContinentView(data, continents)
  {
    if |continents| != 0 {
      r := ApplyFilter(data, Selection(continents), Continent);
    } else {
      r := data;
    }
  }
}
