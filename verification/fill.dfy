/**
 Filling missing categorical values: "Gender" with a fixed label, and
 "Animal type" and "Country" with the most frequent value of their column.
 */
module CategoricalFill {
  import opened Tables
  import Stats

  const Gender := "Gender"
  const NotDetermined := Text("not determined")

  /**
   `Series.fillna(v)` on column `name`. Fails when the column is absent.
   Otherwise the column has no missing cell afterwards: every missing
   cell holds `v` and every other cell keeps its value.
   */
  function FillMissing(t: Table, name: string, v: Value): (r: Result<Table>)
    requires WellFormed(t)
    ensures r.Err? <==> name !in t.header
    ensures r.Err? ==> r.error == MissingColumn(name)
    ensures r.Ok? ==> KeepsValues(t, r.value)
    ensures r.Ok? ==> name in t.header && var j := Find(t.header, name).value;
              && SameExceptColumn(t, r.value, j)
              && (forall i | 0 <= i < |t.rows| :: r.value.rows[i][j].Some?)
              && (forall i | 0 <= i < |t.rows| && t.rows[i][j].Some? :: r.value.rows[i][j] == t.rows[i][j])
              && (forall i | 0 <= i < |t.rows| && t.rows[i][j].None? :: r.value.rows[i][j] == Some(v))
  {
    match Find(t.header, name)
    case None => Err(MissingColumn(name))
    case Some(j) => Ok(FillColumn(t, j, v))
  }

  /** Filling a column again with any value changes nothing: it has no missing cell left. */
  lemma FillMissingIdempotent(t: Table, name: string, v: Value, w: Value)
    requires WellFormed(t)
    ensures FillMissing(t, name, v).Ok? ==>
              FillMissing(FillMissing(t, name, v).value, name, w) == FillMissing(t, name, v)
  {
    if name in t.header {
      var r := FillMissing(t, name, v).value;
      var r2 := FillMissing(r, name, w).value;
      forall i | 0 <= i < |r.rows|
        ensures r2.rows[i] == r.rows[i]
      {
        assert forall k | 0 <= k < |r.header| :: r2.rows[i][k] == r.rows[i][k];
      }
      assert r2.rows == r.rows;
    }
  }

  /** The values present in column `j`. */
  function ColumnValues(t: Table, j: nat): (vs: seq<Value>)
    requires WellFormed(t) && j < |t.header|
    ensures |vs| > 0 <==> HasValue(t, j)
  {
    var vs := Present(Column(t, j));
    ColumnValuesNonEmpty(t, j);
    vs
  }

  lemma ColumnValuesNonEmpty(t: Table, j: nat)
    requires WellFormed(t) && j < |t.header|
    ensures |Present(Column(t, j))| > 0 <==> HasValue(t, j)
  {
    var vs := Present(Column(t, j));
    if HasValue(t, j) {
      var i :| 0 <= i < |t.rows| && t.rows[i][j].Some?;
      assert Column(t, j)[i] == Some(t.rows[i][j].value);
      assert t.rows[i][j].value in vs;
    }
    if |vs| > 0 {
      assert Some(vs[0]) in Column(t, j);
      var i :| 0 <= i < |t.rows| && Column(t, j)[i] == Some(vs[0]);
      assert t.rows[i][j].Some?;
    }
  }

  /**
   Column `j` of `r` is column `j` of `t` filled with a mode: no cell is
   missing, present cells are kept, and every filled cell holds a value
   that occurs at least as often among the column's values as any other.
   */
  ghost predicate ModeFilled(t: Table, r: Table, j: nat)
    requires WellFormed(t) && WellFormed(r) && j < |t.header| && j < |r.header| && |r.rows| == |t.rows|
  {
    var vs := ColumnValues(t, j);
    && (forall i | 0 <= i < |t.rows| :: r.rows[i][j].Some?)
    && (forall i | 0 <= i < |t.rows| && t.rows[i][j].Some? :: r.rows[i][j] == t.rows[i][j])
    && (forall i, v | 0 <= i < |t.rows| && t.rows[i][j].None? ::
          Stats.Count(vs, v) <= Stats.Count(vs, r.rows[i][j].value))
  }

  /** Column `name` is present but holds no value, so it has no mode. */
  predicate HasNoMode(t: Table, name: string)
    requires WellFormed(t)
  {
    name in t.header && !HasValue(t, Find(t.header, name).value)
  }

  /**
   The categorical fill of one column (`fillna(mode()[0])`), applied only
   when the column exists; an absent column is skipped, as the source only
   visits the columns the table has. A column without any value has no mode
   and the step fails. Otherwise every missing cell receives the column's
   mode, a value of maximal frequency among the present values, and every
   present cell is kept.
   */
  function ModeFill(t: Table, name: string): (r: Result<Table>)
    requires WellFormed(t)
    ensures name !in t.header ==> r == Ok(t)
    ensures r.Err? <==> HasNoMode(t, name)
    ensures r.Err? ==> r.error == NoMode(name)
    ensures r.Ok? ==> KeepsValues(t, r.value) && NoneMissing(r.value, name)
    ensures r.Ok? && name in t.header ==>
              var j := Find(t.header, name).value;
              SameExceptColumn(t, r.value, j) && ModeFilled(t, r.value, j)
  {
    match Find(t.header, name)
    case None => Ok(t)
    case Some(j) =>
      var vs := ColumnValues(t, j);
      if |vs| == 0 then Err(NoMode(name))
      else
        var m := Stats.Mode(vs);
        Ok(FillColumn(t, j, m))
  }

  /**
   All missing cells of a column receive the same value, and it is one of
   the values already present in that column.
   */
  lemma ModeFillUsesPresentValue(t: Table, name: string)
    requires WellFormed(t) && name in t.header
    requires ModeFill(t, name).Ok?
    ensures var j := Find(t.header, name).value; var r := ModeFill(t, name).value;
              exists i0 :: 0 <= i0 < |t.rows| && t.rows[i0][j].Some? &&
                forall i | 0 <= i < |t.rows| && t.rows[i][j].None? :: r.rows[i][j] == t.rows[i0][j]
  {
    var j := Find(t.header, name).value;
    var vs := ColumnValues(t, j);
    var m := Stats.Mode(vs);
    assert m in vs;
    assert Some(m) in Column(t, j);
    var i0 :| 0 <= i0 < |t.rows| && Column(t, j)[i0] == Some(m);
    assert t.rows[i0][j] == Some(m);
  }

  /** The columns filled with their mode. */
  const Categorical := ["Animal type", "Country"]

  /** A mode fill judged against a table that agrees with `s` on column `j` is the same fill. */
  lemma ModeFilledTransfer(t: Table, s: Table, r: Table, j: nat)
    requires WellFormed(t) && WellFormed(s) && WellFormed(r) && j < |t.header|
    requires s.header == t.header && r.header == t.header && |r.rows| == |t.rows|
    requires SameColumn(t, s, j) && ModeFilled(s, r, j)
    ensures ModeFilled(t, r, j)
  {
    assert Column(s, j) == Column(t, j);
    assert ColumnValues(s, j) == ColumnValues(t, j);
  }

  /**
   `s` is `t` after the mode fills of the columns `done`: each of them that
   `t` has is filled with its mode, every column of another name is
   unchanged, and no value is lost.
   */
  ghost predicate CategoriesFilled(t: Table, s: Table, done: seq<string>)
    requires WellFormed(t)
  {
    && KeepsValues(t, s)
    && (forall i, k | 0 <= i < |t.rows| && 0 <= k < |t.header| && t.header[k] !in done :: s.rows[i][k] == t.rows[i][k])
    && (forall name | name in done && name in t.header :: ModeFilled(t, s, Find(t.header, name).value))
  }

  /**
   One more mode fill: it fails exactly when the column is present in the
   original table without any value, and otherwise extends the filled
   columns by one.
   */
  lemma ModeStep(t: Table, s: Table, done: seq<string>, name: string)
    requires WellFormed(t) && CategoriesFilled(t, s, done) && name !in done
    ensures ModeFill(s, name).Err? <==> HasNoMode(t, name)
    ensures ModeFill(s, name).Ok? ==> CategoriesFilled(t, ModeFill(s, name).value, done + [name])
  {
    if name in t.header {
      var j := Find(t.header, name).value;
      assert SameColumn(t, s, j);
      assert HasValue(s, j) == HasValue(t, j) by {
        if HasValue(t, j) {
          var i :| 0 <= i < |t.rows| && t.rows[i][j].Some?;
          assert s.rows[i][j].Some?;
        }
      }
      if ModeFill(s, name).Ok? {
        var r := ModeFill(s, name).value;
        ModeFilledTransfer(t, s, r, j);
        forall other | other in done && other in t.header
          ensures ModeFilled(t, r, Find(t.header, other).value)
        {
          OtherColumnKept(s, r, j, other);
        }
        KeepsValuesTransitive(t, s, r);
      }
    }
  }

  /** The mode fills of the columns `todo`, in order, after those of `done`; the first failure aborts. */
  function ModeEach(t: Table, s: Table, done: seq<string>, todo: seq<string>): (r: Result<Table>)
    requires WellFormed(t) && CategoriesFilled(t, s, done)
    requires forall m | 0 <= m < |todo| :: todo[m] !in done
    requires forall a, b | 0 <= a < b < |todo| :: todo[a] != todo[b]
    ensures r.Err? <==> exists m | 0 <= m < |todo| :: HasNoMode(t, todo[m])
    ensures r.Ok? ==> CategoriesFilled(t, r.value, done + todo)
    decreases |todo|
  {
    if |todo| == 0 then
      assert done + todo == done;
      Ok(s)
    else
      ModeStep(t, s, done, todo[0]);
      var s1 :- ModeFill(s, todo[0]);
      ShiftHead(done, todo);
      ModeEach(t, s1, done + [todo[0]], todo[1..])
  }

  /**
   Mode fill of "Animal type", then of "Country". Fails exactly when one
   of them is present without any value. On success each of them that the
   table has is filled with its mode (present cells kept, no cell missing),
   and every other column is unchanged.
   */
  function FillCategorical(t: Table): (r: Result<Table>)
    requires WellFormed(t)
    ensures r.Err? <==> HasNoMode(t, "Animal type") || HasNoMode(t, "Country")
    ensures r.Ok? ==> KeepsValues(t, r.value)
    ensures r.Ok? ==> forall i, k | 0 <= i < |t.rows| && 0 <= k < |t.header| &&
              t.header[k] !in Categorical :: r.value.rows[i][k] == t.rows[i][k]
    ensures r.Ok? ==> forall name | name in Categorical && name in t.header ::
              ModeFilled(t, r.value, Find(t.header, name).value)
    ensures r.Ok? ==> NoneMissing(r.value, "Animal type") && NoneMissing(r.value, "Country")
  {
    assert CategoriesFilled(t, t, []);
    assert [] + Categorical == Categorical;
    ModeEach(t, t, [], Categorical)
  }
}
