/**
 Sign normalization: "Weight kg", "Body Length cm" and "Latitude" are
 replaced by their absolute values; "Longitude" keeps its sign.
 */
module Signs {
  import opened Tables

  const Weight := "Weight kg"
  const BodyLength := "Body Length cm"
  const Latitude := "Latitude"

  function AbsCell(c: Cell): Cell {
    if c.Some? && c.value.Num? && c.value.num < 0.0 then Some(Num(-c.value.num)) else c
  }

  /**
   Column `j` of `r` is column `j` of `t` with every number replaced by its
   absolute value: missing cells stay missing, and every present cell is a
   number whose replacement is non-negative and of the same magnitude.
   */
  predicate AbsOf(t: Table, r: Table, j: nat)
    requires WellFormed(t) && WellFormed(r) && j < |t.header| && j < |r.header| && |r.rows| == |t.rows|
  {
    && (forall i | 0 <= i < |t.rows| :: r.rows[i][j].None? <==> t.rows[i][j].None?)
    && (forall i | 0 <= i < |t.rows| && t.rows[i][j].Some? ::
          && t.rows[i][j].value.Num? && r.rows[i][j].value.Num?
          && var x, y := t.rows[i][j].value.num, r.rows[i][j].value.num;
             y >= 0.0 && (y == x || y == -x))
  }

  /**
   `Series.abs()` on column `name`. Fails when the column is absent, or
   holds text (pandas cannot take the absolute value of a string).
   Otherwise missing cells stay missing and every number is replaced by a
   non-negative number of the same magnitude; nothing else changes.
   */
  function AbsColumn(t: Table, name: string): (r: Result<Table>)
    requires WellFormed(t)
    ensures r.Err? <==> !NumericColumn(t, name)
    ensures r.Err? ==> r.error == if name in t.header then NotNumeric(name) else MissingColumn(name)
    ensures r.Ok? ==> KeepsValues(t, r.value)
    ensures r.Ok? ==> name in t.header && var j := Find(t.header, name).value;
              && SameExceptColumn(t, r.value, j)
              && Numeric(t, j)
              && Numeric(r.value, j)
              && AbsOf(t, r.value, j)
  {
    match Find(t.header, name)
    case None => Err(MissingColumn(name))
    case Some(j) =>
      if !Numeric(t, j) then Err(NotNumeric(name))
      else Ok(MapColumn(t, j, AbsCell))
  }

  /** Taking absolute values twice is taking them once. */
  lemma AbsColumnIdempotent(t: Table, name: string)
    requires WellFormed(t)
    ensures AbsColumn(t, name).Ok? ==> AbsColumn(AbsColumn(t, name).value, name) == AbsColumn(t, name)
  {
    if AbsColumn(t, name).Ok? {
      var r := AbsColumn(t, name).value;
      var r2 := AbsColumn(r, name).value;
      forall i | 0 <= i < |r.rows|
        ensures r2.rows[i] == r.rows[i]
      {
        assert forall k | 0 <= k < |r.header| :: r2.rows[i][k] == r.rows[i][k];
      }
      assert r2.rows == r.rows;
    }
  }

  /** The columns whose sign is dropped; "Longitude" keeps its sign. */
  const Signed := [Weight, BodyLength, Latitude]

  /**
   `s` is `t` after the sign repairs of the columns `done`: each of them is
   numeric in `t` and holds its absolute values in `s`, every column of
   another name is unchanged, and no value is lost.
   */
  predicate SignsRepaired(t: Table, s: Table, done: seq<string>)
    requires WellFormed(t)
  {
    && KeepsValues(t, s)
    && (forall i, k | 0 <= i < |t.rows| && 0 <= k < |t.header| && t.header[k] !in done :: s.rows[i][k] == t.rows[i][k])
    && (forall name | name in done :: NumericColumn(t, name) && AbsOf(t, s, Find(t.header, name).value))
  }

  /**
   One more sign repair: it fails exactly when the column is not numeric in
   the original table, and otherwise extends the repaired columns by one.
   */
  lemma AbsStep(t: Table, s: Table, done: seq<string>, name: string)
    requires WellFormed(t) && SignsRepaired(t, s, done) && name !in done
    ensures AbsColumn(s, name).Err? <==> !NumericColumn(t, name)
    ensures AbsColumn(s, name).Ok? ==> SignsRepaired(t, AbsColumn(s, name).value, done + [name])
  {
    if name in t.header {
      var j := Find(t.header, name).value;
      assert SameColumn(t, s, j);
      assert Numeric(s, j) == Numeric(t, j);
      if AbsColumn(s, name).Ok? {
        var r := AbsColumn(s, name).value;
        forall other | other in done
          ensures NumericColumn(t, other) && AbsOf(t, r, Find(t.header, other).value)
        {
          OtherColumnKept(s, r, j, other);
        }
        KeepsValuesTransitive(t, s, r);
      }
    }
  }

  /** The sign repairs of the columns `todo`, in order, after those of `done`; the first failure aborts. */
  function AbsEach(t: Table, s: Table, done: seq<string>, todo: seq<string>): (r: Result<Table>)
    requires WellFormed(t) && SignsRepaired(t, s, done)
    requires forall m | 0 <= m < |todo| :: todo[m] !in done
    requires forall a, b | 0 <= a < b < |todo| :: todo[a] != todo[b]
    ensures r.Err? <==> exists m | 0 <= m < |todo| :: !NumericColumn(t, todo[m])
    ensures r.Ok? ==> SignsRepaired(t, r.value, done + todo)
    decreases |todo|
  {
    if |todo| == 0 then
      assert done + todo == done;
      Ok(s)
    else
      AbsStep(t, s, done, todo[0]);
      var s1 :- AbsColumn(s, todo[0]);
      ShiftHead(done, todo);
      AbsEach(t, s1, done + [todo[0]], todo[1..])
  }

  /**
   The three sign repairs in a row. Fails exactly when one of the three
   columns is absent or holds text. On success each of them holds the
   absolute values of its numbers, with missing cells kept, and every other
   column, "Longitude" among them, is unchanged.
   */
  function NormalizeSigns(t: Table): (r: Result<Table>)
    requires WellFormed(t)
    ensures r.Err? <==> !NumericColumn(t, Weight) || !NumericColumn(t, BodyLength) || !NumericColumn(t, Latitude)
    ensures r.Ok? ==> KeepsValues(t, r.value)
    ensures r.Ok? ==> forall i, k | 0 <= i < |t.rows| && 0 <= k < |t.header| &&
              t.header[k] !in Signed :: r.value.rows[i][k] == t.rows[i][k]
    ensures r.Ok? ==> forall name | name in Signed ::
              NumericColumn(t, name) && AbsOf(t, r.value, Find(t.header, name).value)
  {
    assert SignsRepaired(t, t, []);
    assert [] + Signed == Signed;
    AbsEach(t, t, [], Signed)
  }

  /** The worked example: a weight of -12.5 becomes 12.5. */
  lemma AbsExample()
    ensures AbsCell(Some(Num(-12.5))) == Some(Num(12.5))
  {
  }
}
