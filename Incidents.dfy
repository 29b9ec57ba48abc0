/** The two uploaded tables: incident rows and relation rows. A CSV cell that
    is empty (which d3's autoType turns into null) is the empty string here. */
module Incidents {

  /** The incident columns the dashboard reads as strings. */
  datatype Column = Site | TimeFrame | Group | Category | SubCat

  /** `filterKeys`, in the order the dropdowns are drawn. */
  const FilterKeys: seq<Column> := [Site, TimeFrame, Group, Category]

  lemma FilterKeysDistinct(i: nat)
    requires i < |FilterKeys|
    ensures forall j :: 0 <= j < |FilterKeys| && j != i ==> FilterKeys[j] != FilterKeys[i]
  {
  }

  /** One incident row. `Hours` is the average duration of the row's `Count`
      incidents, not their total. */
  datatype Incident = Incident(
    Site: string,
    TimeFrame: string,
    Group: string,
    Category: string,
    SubCat: string,
    Count: nat,
    Hours: real)

  /** One row of the relation table: an undirected edge between two names. */
  datatype Relation = Relation(Source: string, Target: string)

  /** The row's cell under a filter column. */
  function Field(row: Incident, col: Column): string {
    match col
    case Site => row.Site
    case TimeFrame => row.TimeFrame
    case Group => row.Group
    case Category => row.Category
    case SubCat => row.SubCat
  }

  /** The column's cells, one per row, in table order. */
  function ColumnValues(rows: seq<Incident>, col: Column): (vs: seq<string>)
    ensures |vs| == |rows|
    ensures forall i :: 0 <= i < |rows| ==> vs[i] == Field(rows[i], col)
  {
    seq(|rows|, i requires 0 <= i < |rows| => Field(rows[i], col))
  }
}
