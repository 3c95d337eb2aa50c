/**
 Group-median imputation of the quantitative columns: a missing number is
 replaced by the median of the numbers present in the same column among the
 rows of its ("Animal type", "Country") group. A group without any number
 in that column leaves its missing cells missing.
 */
module GroupMedian {
  import opened Tables
  import Stats

  const AnimalType := "Animal type"
  const Country := "Country"
  const Quantitative := ["Weight kg", "Body Length cm", "Latitude", "Longitude"]

  /** Indices are in range for a key pair `ja`, `jc` and a value column `j`. */
  predicate Columns(t: Table, ja: nat, jc: nat, j: nat) {
    WellFormed(t) && ja < |t.header| && jc < |t.header| && j < |t.header|
  }

  /** Rows `i` and `i2` agree on both group-key columns. */
  predicate SameGroup(t: Table, ja: nat, jc: nat, i: nat, i2: nat)
    requires WellFormed(t) && ja < |t.header| && jc < |t.header| && i < |t.rows| && i2 < |t.rows|
  {
    t.rows[i][ja] == t.rows[i2][ja] && t.rows[i][jc] == t.rows[i2][jc]
  }

  /** Row `i` has the keys `ka` and `kc`. */
  predicate InGroup(t: Table, ja: nat, jc: nat, ka: Cell, kc: Cell, i: nat)
    requires WellFormed(t) && ja < |t.header| && jc < |t.header| && i < |t.rows|
  {
    t.rows[i][ja] == ka && t.rows[i][jc] == kc
  }

  /** The positions of the rows among the first `n` whose keys are `ka` and `kc`, in increasing order. */
  function GroupRows(t: Table, ja: nat, jc: nat, ka: Cell, kc: Cell, n: nat): (rows: seq<nat>)
    requires WellFormed(t) && ja < |t.header| && jc < |t.header| && n <= |t.rows|
    ensures forall a, b | 0 <= a < b < |rows| :: rows[a] < rows[b]
    ensures forall m | 0 <= m < |rows| :: rows[m] < n && InGroup(t, ja, jc, ka, kc, rows[m])
    ensures forall i | 0 <= i < n && InGroup(t, ja, jc, ka, kc, i) :: i in rows
  {
    if n == 0 then []
    else
      var front := GroupRows(t, ja, jc, ka, kc, n - 1);
      if InGroup(t, ja, jc, ka, kc, n - 1) then front + [n - 1] else front
  }

  /** The cells of column `j` among the first `n` rows whose keys are `ka` and `kc`, in row order. */
  function GroupCells(t: Table, ja: nat, jc: nat, j: nat, ka: Cell, kc: Cell, n: nat): (cs: seq<Cell>)
    requires Columns(t, ja, jc, j) && n <= |t.rows|
    ensures forall c :: c in cs <==> exists i | 0 <= i < n :: InGroup(t, ja, jc, ka, kc, i) && t.rows[i][j] == c
  {
    if n == 0 then []
    else
      var front := GroupCells(t, ja, jc, j, ka, kc, n - 1);
      if InGroup(t, ja, jc, ka, kc, n - 1) then front + [t.rows[n - 1][j]] else front
  }

  /**
   A group's list holds exactly one cell per row of the group, in row
   order, so a value occurs in it as often as the group's rows hold it (the
   median depends on these repetitions).
   */
  lemma {:induction false} GroupCellsPerRow(t: Table, ja: nat, jc: nat, j: nat, ka: Cell, kc: Cell, n: nat)
    requires Columns(t, ja, jc, j) && n <= |t.rows|
    ensures var cs, rows := GroupCells(t, ja, jc, j, ka, kc, n), GroupRows(t, ja, jc, ka, kc, n);
              |cs| == |rows| && forall m | 0 <= m < |cs| :: cs[m] == t.rows[rows[m]][j]
  {
    if n > 0 {
      GroupCellsPerRow(t, ja, jc, j, ka, kc, n - 1);
    }
  }

  /** The numbers of column `j` present in the group of row `i`. */
  function GroupNumbers(t: Table, ja: nat, jc: nat, j: nat, i: nat): (xs: seq<real>)
    requires Columns(t, ja, jc, j) && i < |t.rows|
  {
    Numbers(GroupCells(t, ja, jc, j, t.rows[i][ja], t.rows[i][jc], |t.rows|))
  }

  /** In a numeric column, a group has a number exactly when some row of the group has a value. */
  lemma GroupNumbersEmpty(t: Table, ja: nat, jc: nat, j: nat, i: nat)
    requires Columns(t, ja, jc, j) && i < |t.rows|
    requires Numeric(t, j)
    ensures |GroupNumbers(t, ja, jc, j, i)| == 0 <==>
              forall i2 | 0 <= i2 < |t.rows| && SameGroup(t, ja, jc, i, i2) :: t.rows[i2][j].None?
  {
    var cs := GroupCells(t, ja, jc, j, t.rows[i][ja], t.rows[i][jc], |t.rows|);
    var xs := GroupNumbers(t, ja, jc, j, i);
    if |xs| > 0 {
      assert xs[0] in xs;
      assert Some(Num(xs[0])) in cs;
      var i2 :| 0 <= i2 < |t.rows| && InGroup(t, ja, jc, t.rows[i][ja], t.rows[i][jc], i2) && t.rows[i2][j] == Some(Num(xs[0]));
      assert SameGroup(t, ja, jc, i, i2);
    } else {
      forall i2 | 0 <= i2 < |t.rows| && SameGroup(t, ja, jc, i, i2)
        ensures t.rows[i2][j].None?
      {
        assert InGroup(t, ja, jc, t.rows[i][ja], t.rows[i][jc], i2);
      }
    }
  }

  /** Fill the cell of column `j` in row `i` from its group, when it is missing. */
  function FillRow(t: Table, ja: nat, jc: nat, j: nat, i: nat): (row: Row)
    requires Columns(t, ja, jc, j) && i < |t.rows|
  {
    if t.rows[i][j].Some? then t.rows[i]
    else
      var xs := GroupNumbers(t, ja, jc, j, i);
      if |xs| == 0 then t.rows[i] else t.rows[i][j := Some(Num(Stats.Median(xs)))]
  }

  /** What filling does to one row. */
  lemma FillRowFacts(t: Table, ja: nat, jc: nat, j: nat, i: nat)
    requires Columns(t, ja, jc, j) && i < |t.rows| && Numeric(t, j)
    ensures var row := FillRow(t, ja, jc, j, i);
            && |row| == |t.header|
            && (forall k | 0 <= k < |row| && k != j :: row[k] == t.rows[i][k])
            && (t.rows[i][j].Some? ==> row[j] == t.rows[i][j])
            && (row[j].None? <==> forall i2 | 0 <= i2 < |t.rows| && SameGroup(t, ja, jc, i, i2) :: t.rows[i2][j].None?)
            && (t.rows[i][j].None? && row[j].Some? ==>
                  var xs := GroupNumbers(t, ja, jc, j, i);
                  |xs| > 0 && row[j] == Some(Num(Stats.Median(xs))))
  {
    GroupNumbersEmpty(t, ja, jc, j, i);
    assert SameGroup(t, ja, jc, i, i);
  }

  /**
   Column `j` of `r` is column `j` of `t` filled with group medians, the
   groups being keyed by columns `ja` and `jc` of `t`: present cells are
   kept, a cell stays missing exactly when its whole group misses the
   column, and a filled cell holds the median of its group's numbers.
   */
  predicate MedianFilled(t: Table, r: Table, ja: nat, jc: nat, j: nat)
    requires Columns(t, ja, jc, j) && WellFormed(r) && j < |r.header| && |r.rows| == |t.rows|
  {
    && (forall i | 0 <= i < |t.rows| && t.rows[i][j].Some? :: r.rows[i][j] == t.rows[i][j])
    && (forall i | 0 <= i < |t.rows| ::
          r.rows[i][j].None? <==>
            forall i2 | 0 <= i2 < |t.rows| && SameGroup(t, ja, jc, i, i2) :: t.rows[i2][j].None?)
    && (forall i | 0 <= i < |t.rows| && t.rows[i][j].None? && r.rows[i][j].Some? ::
          var xs := GroupNumbers(t, ja, jc, j, i);
          |xs| > 0 && r.rows[i][j] == Some(Num(Stats.Median(xs))))
  }

  /** The group-median fill of column `j`, once the three columns are located. */
  function GroupFill(t: Table, ja: nat, jc: nat, j: nat): (r: Table)
    requires Columns(t, ja, jc, j) && Numeric(t, j)
    ensures SameExceptColumn(t, r, j)
    ensures MedianFilled(t, r, ja, jc, j)
  {
    var r := Table(t.header, seq(|t.rows|, i requires 0 <= i < |t.rows| => FillRow(t, ja, jc, j, i)));
    forall i | 0 <= i < |t.rows| {
      FillRowFacts(t, ja, jc, j, i);
    }
    r
  }

  /**
   `groupby([AnimalType, Country])[name].transform(fillna(median))`. Fails
   when a key column or the column itself is absent, or when the column
   holds text. Otherwise only column `name` changes: present cells are
   kept, and a missing cell stays missing exactly when no row of its group
   has a number in that column; when filled it holds the group's median.
   */
  function MedianFill(t: Table, name: string): (r: Result<Table>)
    requires WellFormed(t)
    ensures r.Err? <==> (AnimalType !in t.header || Country !in t.header || !NumericColumn(t, name))
    ensures r.Err? && AnimalType !in t.header ==> r.error == MissingColumn(AnimalType)
    ensures r.Ok? ==> KeepsValues(t, r.value)
    ensures r.Ok? ==> (AnimalType in t.header && Country in t.header && name in t.header &&
              var ja, jc, j := Find(t.header, AnimalType).value, Find(t.header, Country).value, Find(t.header, name).value;
              SameExceptColumn(t, r.value, j) && MedianFilled(t, r.value, ja, jc, j))
  {
    match Find(t.header, AnimalType)
    case None => Err(MissingColumn(AnimalType))
    case Some(ja) =>
      match Find(t.header, Country)
      case None => Err(MissingColumn(Country))
      case Some(jc) =>
        match Find(t.header, name)
        case None => Err(MissingColumn(name))
        case Some(j) =>
          if !Numeric(t, j) then Err(NotNumeric(name))
          else Ok(GroupFill(t, ja, jc, j))
  }

  /** Every number of a group's list comes from a row of that group. */
  lemma GroupNumberSource(t: Table, ja: nat, jc: nat, j: nat, i: nat, x: real) returns (i1: nat)
    requires Columns(t, ja, jc, j) && i < |t.rows|
    requires x in GroupNumbers(t, ja, jc, j, i)
    ensures i1 < |t.rows| && SameGroup(t, ja, jc, i, i1) && t.rows[i1][j] == Some(Num(x))
  {
    var cs := GroupCells(t, ja, jc, j, t.rows[i][ja], t.rows[i][jc], |t.rows|);
    assert Some(Num(x)) in cs;
    i1 :| 0 <= i1 < |t.rows| && InGroup(t, ja, jc, t.rows[i][ja], t.rows[i][jc], i1) && t.rows[i1][j] == Some(Num(x));
  }

  /** `v` lies between two numbers of column `j` found in the group of row `i`. */
  predicate WithinGroupRange(t: Table, ja: nat, jc: nat, j: nat, i: nat, v: real)
    requires Columns(t, ja, jc, j) && i < |t.rows|
  {
    exists i1, i2 | 0 <= i1 < |t.rows| && 0 <= i2 < |t.rows| ::
      && SameGroup(t, ja, jc, i, i1) && SameGroup(t, ja, jc, i, i2)
      && t.rows[i1][j].Some? && t.rows[i1][j].value.Num?
      && t.rows[i2][j].Some? && t.rows[i2][j].value.Num?
      && t.rows[i1][j].value.num <= v <= t.rows[i2][j].value.num
  }

  /** The median of a non-empty group lies within the group's range. */
  lemma MedianWithinGroupRange(t: Table, ja: nat, jc: nat, j: nat, i: nat)
    requires Columns(t, ja, jc, j) && i < |t.rows|
    requires |GroupNumbers(t, ja, jc, j, i)| > 0
    ensures WithinGroupRange(t, ja, jc, j, i, Stats.Median(GroupNumbers(t, ja, jc, j, i)))
  {
    var xs := GroupNumbers(t, ja, jc, j, i);
    var m := Stats.Median(xs);
    var a, b :| a in xs && b in xs && a <= m <= b;
    var i1 := GroupNumberSource(t, ja, jc, j, i, a);
    var i2 := GroupNumberSource(t, ja, jc, j, i, b);
    assert t.rows[i1][j].value.num <= m <= t.rows[i2][j].value.num;
  }

  /**
   A filled value lies between two numbers of its own group: imputation
   never leaves the range the group already spans.
   */
  lemma FilledWithinGroupRange(t: Table, ja: nat, jc: nat, j: nat, i: nat)
    requires Columns(t, ja, jc, j) && Numeric(t, j) && i < |t.rows| && t.rows[i][j].None?
    requires exists i2 | 0 <= i2 < |t.rows| && SameGroup(t, ja, jc, i, i2) :: t.rows[i2][j].Some?
    ensures GroupFill(t, ja, jc, j).rows[i][j].Some? && GroupFill(t, ja, jc, j).rows[i][j].value.Num?
    ensures WithinGroupRange(t, ja, jc, j, i, GroupFill(t, ja, jc, j).rows[i][j].value.num)
  {
    MedianWithinGroupRange(t, ja, jc, j, i);
  }

  /** Two tables that agree on the key columns and on column `j` give every group the same list. */
  lemma {:induction false} GroupCellsAgree(t: Table, s: Table, ja: nat, jc: nat, j: nat, ka: Cell, kc: Cell, n: nat)
    requires Columns(t, ja, jc, j) && Columns(s, ja, jc, j) && n <= |t.rows|
    requires SameColumn(t, s, ja) && SameColumn(t, s, jc) && SameColumn(t, s, j)
    ensures GroupCells(s, ja, jc, j, ka, kc, n) == GroupCells(t, ja, jc, j, ka, kc, n)
  {
    if n > 0 {
      GroupCellsAgree(t, s, ja, jc, j, ka, kc, n - 1);
      assert InGroup(s, ja, jc, ka, kc, n - 1) == InGroup(t, ja, jc, ka, kc, n - 1);
    }
  }

  /** A group-median fill judged against a table that agrees with `s` on the columns it reads is the same fill. */
  lemma MedianFilledTransfer(t: Table, s: Table, r: Table, ja: nat, jc: nat, j: nat)
    requires Columns(t, ja, jc, j) && Columns(s, ja, jc, j) && WellFormed(r) && j < |r.header| && |r.rows| == |t.rows|
    requires SameColumn(t, s, ja) && SameColumn(t, s, jc) && SameColumn(t, s, j)
    requires MedianFilled(s, r, ja, jc, j)
    ensures MedianFilled(t, r, ja, jc, j)
  {
    forall i | 0 <= i < |t.rows|
      ensures GroupNumbers(s, ja, jc, j, i) == GroupNumbers(t, ja, jc, j, i)
      ensures forall i2 | 0 <= i2 < |t.rows| :: SameGroup(s, ja, jc, i, i2) == SameGroup(t, ja, jc, i, i2)
    {
      GroupCellsAgree(t, s, ja, jc, j, t.rows[i][ja], t.rows[i][jc], |t.rows|);
    }
  }

  /** A fill stays in place when a later step leaves its column alone. */
  lemma MedianFilledKept(t: Table, s: Table, r: Table, ja: nat, jc: nat, j: nat)
    requires Columns(t, ja, jc, j) && WellFormed(s) && WellFormed(r) && j < |s.header| && j < |r.header|
    requires |s.rows| == |t.rows| && SameColumn(s, r, j)
    requires MedianFilled(t, s, ja, jc, j)
    ensures MedianFilled(t, r, ja, jc, j)
  {
  }

  /**
   `s` is `t` after the group-median fills of the columns `done`: both key
   columns exist, each filled column is numeric in `t` and filled from the
   groups of `t`, every column of another name is unchanged, and no value
   is lost.
   */
  predicate QuantitiesFilled(t: Table, s: Table, done: seq<string>)
    requires WellFormed(t)
  {
    && AnimalType in t.header && Country in t.header
    && KeepsValues(t, s)
    && (forall i, k | 0 <= i < |t.rows| && 0 <= k < |t.header| && t.header[k] !in done :: s.rows[i][k] == t.rows[i][k])
    && (forall name | name in done ::
          && NumericColumn(t, name)
          && MedianFilled(t, s, Find(t.header, AnimalType).value, Find(t.header, Country).value, Find(t.header, name).value))
  }

  /**
   One more group-median fill: it fails exactly when the column is not
   numeric in the original table, and otherwise extends the filled columns
   by one, with the groups still those of the original table.
   */
  lemma MedianStep(t: Table, s: Table, done: seq<string>, name: string)
    requires WellFormed(t) && QuantitiesFilled(t, s, done) && name !in done
    requires AnimalType !in done && Country !in done && name != AnimalType && name != Country
    ensures MedianFill(s, name).Err? <==> !NumericColumn(t, name)
    ensures MedianFill(s, name).Ok? ==> QuantitiesFilled(t, MedianFill(s, name).value, done + [name])
  {
    var ja, jc := Find(t.header, AnimalType).value, Find(t.header, Country).value;
    if name in t.header {
      var j := Find(t.header, name).value;
      assert SameColumn(t, s, j) && SameColumn(t, s, ja) && SameColumn(t, s, jc);
      assert Numeric(s, j) == Numeric(t, j);
      if MedianFill(s, name).Ok? {
        var r := MedianFill(s, name).value;
        MedianFilledTransfer(t, s, r, ja, jc, j);
        forall other | other in done
          ensures NumericColumn(t, other) && MedianFilled(t, r, ja, jc, Find(t.header, other).value)
        {
          OtherColumnKept(s, r, j, other);
          MedianFilledKept(t, s, r, ja, jc, Find(t.header, other).value);
        }
        KeepsValuesTransitive(t, s, r);
      }
    }
  }

  /** The group-median fills of the columns `todo`, in order, after those of `done`; the first failure aborts. */
  function MedianEach(t: Table, s: Table, done: seq<string>, todo: seq<string>): (r: Result<Table>)
    requires WellFormed(t) && QuantitiesFilled(t, s, done)
    requires AnimalType !in done && Country !in done
    requires forall m | 0 <= m < |todo| :: todo[m] !in done && todo[m] != AnimalType && todo[m] != Country
    requires forall a, b | 0 <= a < b < |todo| :: todo[a] != todo[b]
    ensures r.Err? <==> exists m | 0 <= m < |todo| :: !NumericColumn(t, todo[m])
    ensures r.Ok? ==> QuantitiesFilled(t, r.value, done + todo)
    decreases |todo|
  {
    if |todo| == 0 then
      assert done + todo == done;
      Ok(s)
    else
      MedianStep(t, s, done, todo[0]);
      var s1 :- MedianFill(s, todo[0]);
      ShiftHead(done, todo);
      MedianEach(t, s1, done + [todo[0]], todo[1..])
  }

  /**
   The four group-median fills in a row. Fails exactly when a key column
   is absent or one of the four columns is absent or holds text. On
   success each of the four is filled with the medians of the groups of
   the original table (the keys and the other columns do not change in
   between), and every other column is unchanged.
   */
  function FillQuantitative(t: Table): (r: Result<Table>)
    requires WellFormed(t)
    ensures r.Err? <==> (|| AnimalType !in t.header || Country !in t.header
                         || exists m | 0 <= m < |Quantitative| :: !NumericColumn(t, Quantitative[m]))
    ensures r.Ok? ==> KeepsValues(t, r.value)
    ensures r.Ok? ==> forall i, k | 0 <= i < |t.rows| && 0 <= k < |t.header| && t.header[k] !in Quantitative ::
              r.value.rows[i][k] == t.rows[i][k]
    ensures r.Ok? ==> (&& AnimalType in t.header && Country in t.header
                       && forall name | name in Quantitative ::
                            && NumericColumn(t, name)
                            && MedianFilled(t, r.value, Find(t.header, AnimalType).value, Find(t.header, Country).value,
                                            Find(t.header, name).value))
  {
    if AnimalType in t.header && Country in t.header then
      assert QuantitiesFilled(t, t, []);
      assert [] + Quantitative == Quantitative;
      var r := MedianEach(t, t, [], Quantitative);
      AllQuantitiesFilled(t, r);
      r
    else
      MedianFill(t, Quantitative[0])
  }

  /** What `QuantitiesFilled` says once all four columns are done. */
  lemma AllQuantitiesFilled(t: Table, r: Result<Table>)
    requires WellFormed(t) && (r.Ok? ==> QuantitiesFilled(t, r.value, Quantitative))
    ensures r.Ok? ==> KeepsValues(t, r.value)
    ensures r.Ok? ==> forall i, k | 0 <= i < |t.rows| && 0 <= k < |t.header| && t.header[k] !in Quantitative ::
              r.value.rows[i][k] == t.rows[i][k]
    ensures r.Ok? ==> (&& AnimalType in t.header && Country in t.header
                       && forall name | name in Quantitative ::
                            && NumericColumn(t, name)
                            && MedianFilled(t, r.value, Find(t.header, AnimalType).value, Find(t.header, Country).value,
                                            Find(t.header, name).value))
  {
  }
}
