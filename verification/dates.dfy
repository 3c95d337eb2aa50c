/**
 Date normalization of "Observation date". The day-first parsing heuristics
 belong to a date library outside this model, so the parser is a parameter:
 it maps a text to the date it denotes, or to `None` when it cannot read it.
 */
module Dates {
  import opened Tables

  const ObservationDate := "Observation date"

  /** The cell holds something the parser cannot turn into a date. */
  predicate Unparseable(parse: string -> Option<Value>, c: Cell) {
    c.Some? && (c.value.Num? || parse(c.value.text).None?)
  }

  /**
   Parse every present cell of column `name`; missing cells stay missing.
   Fails when the column is absent, or when some present cell is a number
   or a text the parser rejects (the source lets the parser's exception
   escape, so one bad date aborts the whole step).
   */
  function ParseDates(t: Table, name: string, parse: string -> Option<Value>): (r: Result<Table>)
    requires WellFormed(t)
    ensures r.Err? <==> (name !in t.header ||
              exists i | 0 <= i < |t.rows| :: Unparseable(parse, t.rows[i][Find(t.header, name).value]))
    ensures r.Err? ==> r.error == if name in t.header then UnparseableDate(name) else MissingColumn(name)
    ensures r.Ok? ==> KeepsValues(t, r.value)
    ensures r.Ok? ==> name in t.header && var j := Find(t.header, name).value;
              && SameExceptColumn(t, r.value, j)
              && (forall i | 0 <= i < |t.rows| :: r.value.rows[i][j].None? <==> t.rows[i][j].None?)
              && (forall i | 0 <= i < |t.rows| && t.rows[i][j].Some? ::
                    t.rows[i][j].value.Text? && Some(r.value.rows[i][j].value) == parse(t.rows[i][j].value.text))
  {
    match Find(t.header, name)
    case None => Err(MissingColumn(name))
    case Some(j) =>
      if exists i | 0 <= i < |t.rows| :: Unparseable(parse, t.rows[i][j]) then Err(UnparseableDate(name))
      else Ok(MapColumn(t, j, (c: Cell) => if c.Some? && c.value.Text? && parse(c.value.text).Some?
                                          then parse(c.value.text) else c))
  }
}
