/** `doAggregation`: group the rows by a column and then by year, roll every leaf
    cell up into one row, and list the cells in first-seen order. */
module Aggregation {
  import opened Rows
  import opened Summary
  import opened Grouping
  import opened Filters

  /** `d[aggregateBy]` for a textual group column. */
  function GroupKey(r: Row, f: Field): string
    requires IsText(f)
  {
    Get(r, f).s
  }

  function KeyBy(f: Field): Row -> string
    requires IsText(f)
  {
    r => GroupKey(r, f)
  }

  function YearOf(r: Row): int { r.year }
  function PopulationOf(r: Row): real { r.population }
  function GdpOf(r: Row): real { r.gdp }
  function LifeExpectancyOf(r: Row): real { r.lifeExpectancy }

  /** The `rollup` of one leaf cell: the group key as name, sums of population
      and gdp, the least life expectancy, year and continent of the first member. */
  function Rollup(leaves: seq<Row>, f: Field): (r: Row)
    requires leaves != [] && IsText(f)
    ensures RolledUp(r, leaves, GroupKey(leaves[0], f), leaves[0].year)
  {
    Row(GroupKey(leaves[0], f), leaves[0].continent, Sum(leaves, GdpOf),
        Min(leaves, LifeExpectancyOf), Sum(leaves, PopulationOf), leaves[0].year)
  }

  /** Group key → ordered list of (year, rolled-up row). */
  type Nested = seq<Entry<string, seq<Entry<int, Row>>>>

  function RollupYears(cells: seq<Entry<int, seq<Row>>>, f: Field): seq<Entry<int, Row>>
    requires IsText(f)
    requires forall j :: 0 <= j < |cells| ==> cells[j].value != []
  {
    seq(|cells|, j requires 0 <= j < |cells| => Entry(cells[j].key, Rollup(cells[j].value, f)))
  }

  /** `d3.nest().key(aggregateBy).key(year).rollup(...).map(data, d3.map)`. */
  function Nest(data: seq<Row>, f: Field): (n: Nested)
    requires IsText(f)
    ensures EntryKeys(n) == KeysOf(data, KeyBy(f))
  {
    GroupByIsGrouped(data, KeyBy(f));
    var groups := GroupBy(data, KeyBy(f));
    seq(|groups|, i requires 0 <= i < |groups| =>
      Entry(groups[i].key, RollupYears(GroupBy(groups[i].value, YearOf), f)))
  }

  /** `d.values()` of an ordered association list. */
  function Values<K, V>(es: seq<Entry<K, V>>): seq<V> {
    seq(|es|, j requires 0 <= j < |es| => es[j].value)
  }

  function EntryKeys<K, V>(es: seq<Entry<K, V>>): seq<K> {
    seq(|es|, j requires 0 <= j < |es| => es[j].key)
  }

  /** The rolled-up rows of every group, one group after the other. */
  function FlattenNest(n: Nested): seq<Row> {
    if n == [] then [] else FlattenNest(n[..|n| - 1]) + Values(n[|n| - 1].value)
  }

  /** The rows `doAggregation` returns for a group column. */
  function Aggregate(data: seq<Row>, f: Field): seq<Row>
    requires IsText(f)
  {
    FlattenNest(Nest(data, f))
  }

  /** The loop `aggregatedRows.values().forEach(d => finalRows = finalRows.concat(d.values()))`. */
  method ConcatValues(aggregatedRows: Nested) returns (finalRows: seq<Row>)
    ensures finalRows == FlattenNest(aggregatedRows)
  {
    finalRows := [];
    var i := 0;
    while i < |aggregatedRows|
      invariant 0 <= i <= |aggregatedRows|
      invariant finalRows == FlattenNest(aggregatedRows[..i])
    {
      assert aggregatedRows[..i + 1][..i] == aggregatedRows[..i];
      finalRows := finalRows + Values(aggregatedRows[i].value);
      i := i + 1;
    }
    assert aggregatedRows[..|aggregatedRows|] == aggregatedRows;
  }

  /** `doAggregation`: without a group column it falls back to the continent filter,
      which reads the same checkboxes again; with one it flattens the nest. */
  method DoAggregation(data: seq<Row>, aggregateBy: Option<Field>, continents: seq<string>)
    returns (finalRows: seq<Row>)
    requires aggregateBy.Some? ==> IsText(aggregateBy.value)
    ensures aggregateBy.None? ==> finalRows == ContinentView(data, continents)
    ensures aggregateBy.Some? ==> finalRows == Aggregate(data, aggregateBy.value)
  {
    if aggregateBy.None? {
      finalRows := FilterByContinent(data, continents);
    } else {
      var aggregatedRows := Nest(data, aggregateBy.value);
      finalRows := ConcatValues(aggregatedRows);
    }
  }

  // ---------------------------------------------------------------------------
  // What the aggregation is meant to produce, stated without the nest.

  /** The leaf cell (k, y): the rows with group key `k` and year `y`, in input order. */
  function CellRows(data: seq<Row>, f: Field, k: string, y: int): seq<Row>
    requires IsText(f)
  {
    if data == [] then []
    else
      var last := data[|data| - 1];
      CellRows(data[..|data| - 1], f, k, y) + (if GroupKey(last, f) == k && last.year == y then [last] else [])
  }

  /** The years of key `k`, in the order they first appear among the rows of `k`. */
  function YearsOfKey(data: seq<Row>, f: Field, k: string): seq<int>
    requires IsText(f)
  {
    KeysOf(Members(data, KeyBy(f), k), YearOf)
  }

  /** The (key, year) cells of the keys `ks`: key by key, then year by year. */
  function KeyPairs(data: seq<Row>, f: Field, ks: seq<string>): seq<(string, int)>
    requires IsText(f)
  {
    if ks == [] then []
    else
      var k := ks[|ks| - 1];
      var ys := YearsOfKey(data, f, k);
      KeyPairs(data, f, ks[..|ks| - 1]) + seq(|ys|, j requires 0 <= j < |ys| => (k, ys[j]))
  }

  /** The cells in output order: group keys in first-seen order, and within each
      key its years in first-seen order. */
  function Pairs(data: seq<Row>, f: Field): seq<(string, int)>
    requires IsText(f)
  {
    KeyPairs(data, f, KeysOf(data, KeyBy(f)))
  }

  /** What a rolled-up row says about its cell. */
  ghost predicate RolledUp(o: Row, cell: seq<Row>, k: string, y: int) {
    && cell != []
    && o.name == k
    && o.year == y
    && o.continent == cell[0].continent
    && o.population == Sum(cell, PopulationOf)
    && o.gdp == Sum(cell, GdpOf)
    && (forall x :: x in cell ==> o.lifeExpectancy <= x.lifeExpectancy)
    && (exists x :: x in cell && o.lifeExpectancy == x.lifeExpectancy)
  }

  /** A cell holds exactly the input rows of its key and year, as often as they occur. */
  lemma CellRowsCount(data: seq<Row>, f: Field, k: string, y: int, x: Row)
    requires IsText(f)
    ensures multiset(CellRows(data, f, k, y))[x] ==
            if GroupKey(x, f) == k && x.year == y then multiset(data)[x] else 0
  {
    MembersOfMembers(data, f, k, y);
    MembersCount(data, KeyBy(f), k, x);
    MembersCount(Members(data, KeyBy(f), k), YearOf, y, x);
  }

  /** Grouping by key and then by year yields the cell. */
  lemma {:induction false} MembersOfMembers(data: seq<Row>, f: Field, k: string, y: int)
    requires IsText(f)
    ensures Members(Members(data, KeyBy(f), k), YearOf, y) == CellRows(data, f, k, y)
  {
    if data != [] {
      var init, last := data[..|data| - 1], data[|data| - 1];
      MembersOfMembers(init, f, k, y);
      var ms := Members(init, KeyBy(f), k);
      assert data[..|data| - 1] == init;
      if GroupKey(last, f) == k {
        assert Members(data, KeyBy(f), k) == ms + [last];
        assert (ms + [last])[..|ms|] == ms;
      } else {
        assert Members(data, KeyBy(f), k) == ms;
      }
    }
  }

  /** One group of the nest holds the years of key `k`, each with the rollup of its cell. */
  ghost predicate GroupShaped(g: Entry<string, seq<Entry<int, Row>>>, data: seq<Row>, f: Field, k: string)
    requires IsText(f)
  {
    && g.key == k
    && EntryKeys(g.value) == YearsOfKey(data, f, k)
    && forall j :: 0 <= j < |g.value| ==>
         && CellRows(data, f, k, g.value[j].key) != []
         && g.value[j].value == Rollup(CellRows(data, f, k, g.value[j].key), f)
  }

  /** How the nest lines up with the cells of the keys `ks`. */
  ghost predicate Shaped(n: Nested, data: seq<Row>, f: Field, ks: seq<string>)
    requires IsText(f)
  {
    |n| == |ks| && forall i :: 0 <= i < |n| ==> GroupShaped(n[i], data, f, ks[i])
  }

  lemma NestShaped(data: seq<Row>, f: Field)
    requires IsText(f)
    ensures Shaped(Nest(data, f), data, f, KeysOf(data, KeyBy(f)))
  {
    var n, ks := Nest(data, f), KeysOf(data, KeyBy(f));
    GroupByIsGrouped(data, KeyBy(f));
    forall i | 0 <= i < |n|
      ensures GroupShaped(n[i], data, f, ks[i])
    {
      var ms := Members(data, KeyBy(f), ks[i]);
      GroupByIsGrouped(ms, YearOf);
      KeysOfDistinct(ms, YearOf);
      var ys := KeysOf(ms, YearOf);
      forall j | 0 <= j < |n[i].value|
        ensures CellRows(data, f, ks[i], n[i].value[j].key) != []
        ensures n[i].value[j].value == Rollup(CellRows(data, f, ks[i], n[i].value[j].key), f)
      {
        MembersOfMembers(data, f, ks[i], ys[j]);
      }
    }
  }

  /** The rows of one shaped group are the rollups of its cells, in year order. */
  lemma GroupRows(g: Entry<string, seq<Entry<int, Row>>>, data: seq<Row>, f: Field, k: string)
    requires IsText(f) && GroupShaped(g, data, f, k)
    ensures var ys := YearsOfKey(data, f, k);
            && |Values(g.value)| == |ys|
            && forall j :: 0 <= j < |ys| ==>
                 && CellRows(data, f, k, ys[j]) != []
                 && Values(g.value)[j] == Rollup(CellRows(data, f, k, ys[j]), f)
  {
  }

  /** The facts of `FlattenShaped` for one position. */
  ghost predicate RowOfPair(rows: seq<Row>, ps: seq<(string, int)>, data: seq<Row>, f: Field, i: int)
    requires IsText(f) && 0 <= i < |rows| == |ps|
  {
    CellRows(data, f, ps[i].0, ps[i].1) != [] && rows[i] == Rollup(CellRows(data, f, ps[i].0, ps[i].1), f)
  }

  /** Concatenating two stretches of rows that match their pairs gives rows that
      match the concatenated pairs. */
  lemma RowsAppend(front: seq<Row>, frontPairs: seq<(string, int)>, vals: seq<Row>, block: seq<(string, int)>,
                   data: seq<Row>, f: Field)
    requires IsText(f) && |front| == |frontPairs| && |vals| == |block|
    requires forall i :: 0 <= i < |front| ==> RowOfPair(front, frontPairs, data, f, i)
    requires forall j :: 0 <= j < |vals| ==> RowOfPair(vals, block, data, f, j)
    ensures forall i :: 0 <= i < |front + vals| ==> RowOfPair(front + vals, frontPairs + block, data, f, i)
  {
    var rows, ps := front + vals, frontPairs + block;
    forall i | 0 <= i < |rows| ensures RowOfPair(rows, ps, data, f, i) {
      if i < |front| {
        assert RowOfPair(front, frontPairs, data, f, i);
        assert rows[i] == front[i] && ps[i] == frontPairs[i];
      } else {
        assert RowOfPair(vals, block, data, f, i - |front|);
        assert rows[i] == vals[i - |front|] && ps[i] == block[i - |front|];
      }
    }
  }

  lemma {:induction false} FlattenShaped(n: Nested, data: seq<Row>, f: Field, ks: seq<string>)
    requires IsText(f) && Shaped(n, data, f, ks)
    ensures |FlattenNest(n)| == |KeyPairs(data, f, ks)|
    ensures forall i :: 0 <= i < |FlattenNest(n)| ==> RowOfPair(FlattenNest(n), KeyPairs(data, f, ks), data, f, i)
  {
    if n != [] {
      var init, ksInit := n[..|n| - 1], ks[..|ks| - 1];
      assert Shaped(init, data, f, ksInit) by {
        forall i | 0 <= i < |init| ensures GroupShaped(init[i], data, f, ksInit[i]) {
          assert init[i] == n[i] && ksInit[i] == ks[i];
        }
      }
      FlattenShaped(init, data, f, ksInit);
      var k, last := ks[|ks| - 1], n[|n| - 1];
      assert GroupShaped(last, data, f, k);
      GroupRows(last, data, f, k);
      var ys := YearsOfKey(data, f, k);
      var vals := Values(last.value);
      var block := seq(|ys|, j requires 0 <= j < |ys| => (k, ys[j]));
      forall j | 0 <= j < |vals| ensures RowOfPair(vals, block, data, f, j) {
        assert block[j] == (k, ys[j]);
      }
      RowsAppend(FlattenNest(init), KeyPairs(data, f, ksInit), vals, block, data, f);
      assert FlattenNest(n) == FlattenNest(init) + vals;
      assert KeyPairs(data, f, ks) == KeyPairs(data, f, ksInit) + block;
    }
  }

  /** Every output row is the rollup of one cell, in the order of `Pairs`: it
      carries the group key and year of its cell, the continent of the cell's first
      member, the sums of population and gdp and the least life expectancy. */
  lemma AggregateCells(data: seq<Row>, f: Field)
    requires IsText(f)
    ensures |Aggregate(data, f)| == |Pairs(data, f)|
    ensures forall i :: 0 <= i < |Aggregate(data, f)| ==>
              var p := Pairs(data, f)[i];
              RolledUp(Aggregate(data, f)[i], CellRows(data, f, p.0, p.1), p.0, p.1)
  {
    NestShaped(data, f);
    FlattenShaped(Nest(data, f), data, f, KeysOf(data, KeyBy(f)));
    forall i | 0 <= i < |Aggregate(data, f)|
      ensures var p := Pairs(data, f)[i];
              RolledUp(Aggregate(data, f)[i], CellRows(data, f, p.0, p.1), p.0, p.1)
    {
      assert RowOfPair(Aggregate(data, f), Pairs(data, f), data, f, i);
      var p := Pairs(data, f)[i];
      var cell := CellRows(data, f, p.0, p.1);
      CellRowsCount(data, f, p.0, p.1, cell[0]);
      assert cell[0] in multiset(cell);
    }
  }

  /** The cells of the keys `ks` are pairwise different, and a pair is listed
      exactly when its key is among `ks` and its year among that key's years. */
  lemma {:induction false} KeyPairsDistinct(data: seq<Row>, f: Field, ks: seq<string>)
    requires IsText(f) && Distinct(ks)
    ensures Distinct(KeyPairs(data, f, ks))
    ensures forall p :: p in KeyPairs(data, f, ks) <==> p.0 in ks && p.1 in YearsOfKey(data, f, p.0)
  {
    if ks != [] {
      var ksInit, k := ks[..|ks| - 1], ks[|ks| - 1];
      KeyPairsDistinct(data, f, ksInit);
      var ys := YearsOfKey(data, f, k);
      KeysOfDistinct(Members(data, KeyBy(f), k), YearOf);
      var block := seq(|ys|, j requires 0 <= j < |ys| => (k, ys[j]));
      var front := KeyPairs(data, f, ksInit);
      assert KeyPairs(data, f, ks) == front + block;
      assert k !in ksInit;
      forall p | p in block ensures p.0 == k && p.1 in ys { }
      forall p: (string, int) | p.0 == k && p.1 in ys ensures p in block {
        var j :| 0 <= j < |ys| && ys[j] == p.1;
        assert block[j] == p;
      }
      forall p | p in ks ensures p in ksInit || p == k {
        var j :| 0 <= j < |ks| && ks[j] == p;
        if j < |ksInit| { assert ksInit[j] == p; }
      }
      var all := front + block;
      forall a, b | 0 <= a < b < |all| ensures all[a] != all[b] {
        if b < |front| {
          assert all[a] == front[a] && all[b] == front[b];
        } else if a >= |front| {
          assert all[a] == block[a - |front|] && all[b] == block[b - |front|];
        } else {
          assert all[a] in front && all[b] in block;
        }
      }
    }
  }

  /** The output cells are pairwise different, and they are exactly the non-empty
      (key, year) cells of the input: one row per distinct (key, year) pair. */
  lemma PairsAreCells(data: seq<Row>, f: Field)
    requires IsText(f)
    ensures Distinct(Pairs(data, f))
    ensures forall k, y :: (k, y) in Pairs(data, f) <==> CellRows(data, f, k, y) != []
  {
    KeysOfDistinct(data, KeyBy(f));
    KeyPairsDistinct(data, f, KeysOf(data, KeyBy(f)));
    forall k, y ensures (k, y) in Pairs(data, f) <==> CellRows(data, f, k, y) != [] {
      var ms := Members(data, KeyBy(f), k);
      KeysOfDistinct(ms, YearOf);
      MembersOfMembers(data, f, k, y);
      if ms == [] {
        assert Members(ms, YearOf, y) == [];
      }
    }
  }

  /** The rollup of a cell carries the sum of `p` over the cell. */
  ghost predicate RollupSums(p: Row -> real, f: Field)
    requires IsText(f)
  {
    forall l :: l != [] ==> p(Rollup(l, f)) == Sum(l, p)
  }

  /** A list whose `j`-th value stands, under `q`, for the sum of group `j` adds up
      to the total of the groups. */
  lemma {:induction false} SumMatchesTotal<T, K, U>(vs: seq<U>, groups: seq<Entry<K, seq<T>>>, q: U -> real, p: T -> real)
    requires |vs| == |groups|
    requires forall j :: 0 <= j < |vs| ==> q(vs[j]) == Sum(groups[j].value, p)
    ensures Sum(vs, q) == Total(groups, p)
  {
    if vs != [] {
      var vInit, gInit := vs[..|vs| - 1], groups[..|groups| - 1];
      forall j | 0 <= j < |vInit| ensures q(vInit[j]) == Sum(gInit[j].value, p) {
        assert vInit[j] == vs[j] && gInit[j] == groups[j];
      }
      SumMatchesTotal(vInit, gInit, q, p);
    }
  }

  lemma RollupYearsTotal(cells: seq<Entry<int, seq<Row>>>, f: Field, p: Row -> real)
    requires IsText(f) && RollupSums(p, f)
    requires forall j :: 0 <= j < |cells| ==> cells[j].value != []
    ensures Sum(Values(RollupYears(cells, f)), p) == Total(cells, p)
  {
    SumMatchesTotal(Values(RollupYears(cells, f)), cells, p, p);
  }

  /** Group `i` of the nest carries, summed over its rolled-up rows, the sum of its members. */
  lemma NestGroupTotal(data: seq<Row>, f: Field, p: Row -> real, i: nat)
    requires IsText(f) && RollupSums(p, f)
    requires i < |Nest(data, f)|
    ensures Sum(Values(Nest(data, f)[i].value), p) == Sum(GroupBy(data, KeyBy(f))[i].value, p)
  {
    var members := GroupBy(data, KeyBy(f))[i].value;
    assert Nest(data, f)[i].value == RollupYears(GroupBy(members, YearOf), f);
    RollupYearsTotal(GroupBy(members, YearOf), f, p);
    GroupByTotal(members, YearOf, p);
  }

  /** Flattening a nest whose groups each sum, under `p`, like the matching group of
      `groups` gives the total of all those groups. */
  lemma {:induction false} FlattenTotal(n: Nested, groups: seq<Entry<string, seq<Row>>>, p: Row -> real)
    requires |n| == |groups|
    requires forall i :: 0 <= i < |n| ==> Sum(Values(n[i].value), p) == Sum(groups[i].value, p)
    ensures Sum(FlattenNest(n), p) == Total(groups, p)
  {
    if n != [] {
      var nInit, gInit := n[..|n| - 1], groups[..|groups| - 1];
      forall i | 0 <= i < |nInit| ensures Sum(Values(nInit[i].value), p) == Sum(gInit[i].value, p) {
        assert nInit[i] == n[i] && gInit[i] == groups[i];
      }
      FlattenTotal(nInit, gInit, p);
      SumAppend(FlattenNest(nInit), Values(n[|n| - 1].value), p);
    }
  }

  /** Aggregation conserves the totals: the output's population and gdp add up to
      the input's. */
  lemma AggregateTotals(data: seq<Row>, f: Field)
    requires IsText(f)
    ensures Sum(Aggregate(data, f), PopulationOf) == Sum(data, PopulationOf)
    ensures Sum(Aggregate(data, f), GdpOf) == Sum(data, GdpOf)
  {
    var n, groups := Nest(data, f), GroupBy(data, KeyBy(f));
    forall i | 0 <= i < |n|
      ensures Sum(Values(n[i].value), PopulationOf) == Sum(groups[i].value, PopulationOf)
      ensures Sum(Values(n[i].value), GdpOf) == Sum(groups[i].value, GdpOf)
    {
      NestGroupTotal(data, f, PopulationOf, i);
      NestGroupTotal(data, f, GdpOf, i);
    }
    FlattenTotal(n, groups, PopulationOf);
    FlattenTotal(n, groups, GdpOf);
    GroupByTotal(data, KeyBy(f), PopulationOf);
    GroupByTotal(data, KeyBy(f), GdpOf);
  }

  /** The rollup of the cell in `TwoCountriesOneContinent`. */
  lemma TwoCountriesRollup(a: Row, b: Row)
    requires a == Row("A", "X", 10.0, 70.0, 100.0, 2000) && b == Row("B", "X", 20.0, 60.0, 200.0, 2000)
    ensures Rollup([a, b], Continent) == Row("X", "X", 30.0, 60.0, 300.0, 2000)
  {
    var data := [a, b];
    assert data[..1] == [a] && [a][..0] == [];
    assert Sum([a], PopulationOf) == Sum([a][..0], PopulationOf) + PopulationOf(a);
    assert Sum([a], GdpOf) == Sum([a][..0], GdpOf) + GdpOf(a);
    assert Sum(data, PopulationOf) == 300.0 && Sum(data, GdpOf) == 30.0;
    assert Min(data, LifeExpectancyOf) == 60.0;
  }

  /** Two countries of one continent in one year aggregate into a single row. */
  lemma TwoCountriesOneContinent()
    ensures Aggregate([Row("A", "X", 10.0, 70.0, 100.0, 2000), Row("B", "X", 20.0, 60.0, 200.0, 2000)], Continent)
            == [Row("X", "X", 30.0, 60.0, 300.0, 2000)]
  {
    var a, b := Row("A", "X", 10.0, 70.0, 100.0, 2000), Row("B", "X", 20.0, 60.0, 200.0, 2000);
    var data := [a, b];
    assert data[..1] == [a] && [a][..0] == [];
    assert KeyBy(Continent)(a) == "X" && KeyBy(Continent)(b) == "X";
    assert GroupBy([a], KeyBy(Continent)) == [Entry("X", [a])];
    assert GroupBy(data, KeyBy(Continent)) == [Entry("X", [a, b])] by {
      assert GroupBy(data, KeyBy(Continent)) == Place([Entry("X", [a])], "X", b);
      assert [a] + [b] == [a, b];
    }
    assert GroupBy([a], YearOf) == [Entry(2000, [a])];
    assert GroupBy(data, YearOf) == [Entry(2000, [a, b])] by {
      assert GroupBy(data, YearOf) == Place([Entry(2000, [a])], 2000, b);
      assert [a] + [b] == [a, b];
    }
    var rolled := Row("X", "X", 30.0, 60.0, 300.0, 2000);
    TwoCountriesRollup(a, b);
    var years := RollupYears([Entry(2000, data)], Continent);
    assert years == [Entry(2000, rolled)];
    var n := Nest(data, Continent);
    assert |n| == 1 && n[0] == Entry("X", years);
    assert n == [Entry("X", years)];
    assert Values(years) == [rolled];
    assert n[..0] == [];
  }
}
