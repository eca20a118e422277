/** The records the table works on: the nested per-country input, the flat
    per-(country, year) rows, and the values the sort comparator looks at. */
module Rows {

  datatype Option<T> = None | Some(value: T)

  /** The columns of a row, in the order `defaultColumns` lists them. */
  datatype Field = Name | Continent | Gdp | LifeExpectancy | Population | Year

  const DefaultColumns: seq<Field> := [Name, Continent, Gdp, LifeExpectancy, Population, Year]

  /** A row's value for a column as JavaScript sees it: a string or a number. */
  datatype Value = Str(s: string) | Num(n: real)

  /** One entry of a country's `years` list. */
  datatype YearRecord = YearRecord(year: int, gdp: real, lifeExpectancy: real, population: real)

  /** One country of the loaded dataset. */
  datatype Country = Country(name: string, continent: string, years: seq<YearRecord>)

  /** One flat row of the table: a country in one year, or an aggregated cell. */
  datatype Row = Row(name: string, continent: string, gdp: real, lifeExpectancy: real,
                     population: real, year: int)

  /** The columns whose values are strings; the others hold numbers. */
  predicate IsText(f: Field) {
    f == Name || f == Continent
  }

  /** `row[field]`: the value of a column, typed as the source's data holds it. */
  function Get(r: Row, f: Field): (v: Value)
    ensures v.Str? <==> IsText(f)
  {
    match f
    case Name => Str(r.name)
    case Continent => Str(r.continent)
    case Gdp => Num(r.gdp)
    case LifeExpectancy => Num(r.lifeExpectancy)
    case Population => Num(r.population)
    case Year => Num(r.year as real)
  }
}
