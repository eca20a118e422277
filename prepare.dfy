/** `prepareData`: one flat row per (country, year) of the loaded dataset. */
module Prepare {
  import opened Rows

  /** The row pushed for `country` in year record `y`. */
  function MakeRow(c: Country, y: YearRecord): (r: Row)
    ensures Get(r, Name) == Str(c.name) && Get(r, Continent) == Str(c.continent)
    ensures Get(r, Gdp) == Num(y.gdp) && Get(r, LifeExpectancy) == Num(y.lifeExpectancy)
    ensures Get(r, Population) == Num(y.population) && Get(r, Year) == Num(y.year as real)
  {
    Row(c.name, c.continent, y.gdp, y.lifeExpectancy, y.population, y.year)
  }

  /** The rows of one country, in the order of its `years` list. */
  function CountryRows(c: Country): seq<Row> {
    seq(|c.years|, k requires 0 <= k < |c.years| => MakeRow(c, c.years[k]))
  }

  /** The whole flattening: countries in source order, each country's years in its own order. */
  function Flatten(raw: seq<Country>): seq<Row> {
    if raw == [] then [] else Flatten(raw[..|raw| - 1]) + CountryRows(raw[|raw| - 1])
  }

  /** Σ |country.years| over a prefix of the dataset. */
  function TotalYears(raw: seq<Country>): nat {
    if raw == [] then 0 else TotalYears(raw[..|raw| - 1]) + |raw[|raw| - 1].years|
  }

  /** `prepareData`: the nested `forEach` loops pushing one row per year record. */
  method PrepareData(raw: seq<Country>) returns (rows: seq<Row>)
    ensures rows == Flatten(raw)
  {
    rows := [];
    var i := 0;
    while i < |raw|
      invariant 0 <= i <= |raw|
      invariant rows == Flatten(raw[..i])
    {
      var country := raw[i];
      var j := 0;
      while j < |country.years|
        invariant 0 <= j <= |country.years|
        invariant rows == Flatten(raw[..i]) + CountryRows(country)[..j]
      {
        rows := rows + [MakeRow(country, country.years[j])];
        j := j + 1;
      }
      assert raw[..i + 1][..i] == raw[..i];
      i := i + 1;
    }
    assert raw[..|raw|] == raw;
  }

  /** There are exactly Σ |country.years| rows. */
  lemma {:induction false} FlattenLength(raw: seq<Country>)
    ensures |Flatten(raw)| == TotalYears(raw)
  {
    if raw != [] {
      FlattenLength(raw[..|raw| - 1]);
    }
  }

  /** Year record `yi` of country `ci` becomes the row at `TotalYears(raw[..ci]) + yi`,
      that is, country-major then year order, with every field copied. */
  lemma {:induction false} FlattenAt(raw: seq<Country>, ci: nat, yi: nat)
    requires ci < |raw| && yi < |raw[ci].years|
    ensures TotalYears(raw[..ci]) + yi < |Flatten(raw)|
    ensures Flatten(raw)[TotalYears(raw[..ci]) + yi] == MakeRow(raw[ci], raw[ci].years[yi])
  {
    var init := raw[..|raw| - 1];
    FlattenLength(init);
    if ci == |raw| - 1 {
      assert raw[..ci] == init;
    } else {
      assert init[..ci] == raw[..ci];
      FlattenAt(init, ci, yi);
    }
  }

  /** Every row comes from some (country, year record) pair: nothing is invented. */
  lemma {:induction false} FlattenOrigin(raw: seq<Country>, k: nat)
    requires k < |Flatten(raw)|
    ensures exists ci, yi :: 0 <= ci < |raw| && 0 <= yi < |raw[ci].years| &&
                             k == TotalYears(raw[..ci]) + yi &&
                             Flatten(raw)[k] == MakeRow(raw[ci], raw[ci].years[yi])
  {
    var init := raw[..|raw| - 1];
    FlattenLength(init);
    if k < |Flatten(init)| {
      FlattenOrigin(init, k);
      var ci, yi :| 0 <= ci < |init| && 0 <= yi < |init[ci].years| &&
                    k == TotalYears(init[..ci]) + yi &&
                    Flatten(init)[k] == MakeRow(init[ci], init[ci].years[yi]);
      assert init[..ci] == raw[..ci];
      assert raw[ci] == init[ci];
    } else {
      var ci, yi := |raw| - 1, k - |Flatten(init)|;
      assert raw[..ci] == init;
      assert Flatten(raw)[k] == MakeRow(raw[ci], raw[ci].years[yi]);
    }
  }
}
