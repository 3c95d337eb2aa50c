/**
 Outlier capping of "Weight kg" and "Body Length cm" with Tukey's fences:
 with the quartiles `q1` and `q3` of the column and `iqr = q3 - q1`, every
 number below `q1 - 1.5 iqr` is raised to that bound and every number above
 `q3 + 1.5 iqr` is lowered to that bound.
 */
module Outliers {
  import opened Tables
  import Stats

  const Capped := ["Weight kg", "Body Length cm"]

  /** The lower and upper bound a number is capped to. */
  datatype Fences = Fences(lo: real, hi: real)

  /**
   Tukey's fences around the quartiles `q1 <= q3`. They enclose the
   interquartile range and stand at the same distance outside it on both
   sides; together they span four interquartile ranges, so each stands one
   and a half ranges beyond its quartile.
   */
  function TukeyFences(q1: real, q3: real): (f: Fences)
    requires q1 <= q3
    ensures f.lo <= q1 <= q3 <= f.hi
    ensures q1 - f.lo == f.hi - q3 >= 0.0
    ensures f.hi - f.lo == 4.0 * (q3 - q1)
    ensures q1 == q3 ==> f.lo == q1 && f.hi == q3
  {
    var iqr := q3 - q1;
    Fences(q1 - 1.5 * iqr, q3 + 1.5 * iqr)
  }

  /**
   The fences of a sample: its quartiles by linear interpolation, then
   Tukey's fences. An empty sample has no quartiles (pandas yields NaN) and
   hence no fences.
   */
  function SampleFences(xs: seq<real>): (f: Option<Fences>)
    ensures f.None? <==> |xs| == 0
    ensures f.Some? ==> f.value.lo <= f.value.hi
  {
    if |xs| == 0 then None
    else
      var ss := Stats.Sort(xs);
      Stats.QuantileMonotone(ss, 0.25, 0.75);
      Some(TukeyFences(Stats.Quantile(ss, 0.25), Stats.Quantile(ss, 0.75)))
  }

  /** The fences enclose the sample's quartiles, hence its middle half. */
  lemma SampleFencesEncloseQuartiles(xs: seq<real>)
    requires |xs| > 0
    ensures var ss := Stats.Sort(xs);
            SampleFences(xs).value.lo <= Stats.Quantile(ss, 0.25) <= Stats.Quantile(ss, 0.75) <= SampleFences(xs).value.hi
  {
    Stats.QuantileMonotone(Stats.Sort(xs), 0.25, 0.75);
  }

  /**
   The two `np.where` passes on one number: first raise what is below
   `lo`, then lower what is above `hi`. The result is the number moved to
   the nearest point of `[lo, hi]`.
   */
  function CapValue(x: real, f: Fences): (y: real)
    requires f.lo <= f.hi
    ensures f.lo <= y <= f.hi
    ensures f.lo <= x <= f.hi ==> y == x
    ensures x < f.lo ==> y == f.lo
    ensures x > f.hi ==> y == f.hi
  {
    var raised := if x < f.lo then f.lo else x;
    if raised > f.hi then f.hi else raised
  }

  /**
   `y` is `x` capped to `f`: within the fences, equal to `x` when `x` was
   within them, and equal to the fence `x` fell outside of otherwise.
   */
  predicate CappedTo(x: real, y: real, f: Fences) {
    && f.lo <= y <= f.hi
    && (f.lo <= x <= f.hi ==> y == x)
    && (x < f.lo ==> y == f.lo)
    && (x > f.hi ==> y == f.hi)
  }

  /** Capping keeps the order of numbers (ties may appear, inversions never do). */
  lemma CapValueMonotone(x: real, x': real, f: Fences)
    requires f.lo <= f.hi && x <= x'
    ensures CapValue(x, f) <= CapValue(x', f)
  {
  }

  /** Capping to the same fences twice is capping once. */
  lemma CapValueIdempotent(x: real, f: Fences)
    requires f.lo <= f.hi
    ensures CapValue(CapValue(x, f), f) == CapValue(x, f)
  {
  }

  /** One cell: numbers are capped; missing cells stay missing, as comparisons with NaN are false. */
  function CapCell(c: Cell, f: Fences): Cell
    requires f.lo <= f.hi
  {
    if c.Some? && c.value.Num? then Some(Num(CapValue(c.value.num, f))) else c
  }

  /** Cap column `j` to the fences `f`. */
  function CapColumn(t: Table, j: nat, f: Fences): (r: Table)
    requires WellFormed(t) && j < |t.header| && f.lo <= f.hi
    ensures SameExceptColumn(t, r, j)
    ensures forall i | 0 <= i < |t.rows| :: r.rows[i][j].None? <==> t.rows[i][j].None?
    ensures forall i | 0 <= i < |t.rows| && t.rows[i][j].Some? && t.rows[i][j].value.Num? ::
              r.rows[i][j].Some? && r.rows[i][j].value.Num? &&
              CappedTo(t.rows[i][j].value.num, r.rows[i][j].value.num, f)
    ensures forall i | 0 <= i < |t.rows| && t.rows[i][j].Some? && t.rows[i][j].value.Num? ::
              r.rows[i][j] == Some(Num(CapValue(t.rows[i][j].value.num, f)))
  {
    MapColumn(t, j, (c: Cell) => CapCell(c, f))
  }

  /** Capping a column again with the same fences changes nothing. */
  lemma CapColumnIdempotent(t: Table, j: nat, f: Fences)
    requires WellFormed(t) && j < |t.header| && f.lo <= f.hi && Numeric(t, j)
    ensures CapColumn(CapColumn(t, j, f), j, f) == CapColumn(t, j, f)
  {
    var r := CapColumn(t, j, f);
    var r2 := CapColumn(r, j, f);
    forall i | 0 <= i < |r.rows|
      ensures r2.rows[i] == r.rows[i]
    {
      if t.rows[i][j].Some? {
        CapValueIdempotent(t.rows[i][j].value.num, f);
      }
      assert forall k | 0 <= k < |r.header| :: r2.rows[i][k] == r.rows[i][k];
    }
    assert r2.rows == r.rows;
  }

  /**
   The fences of column `j`, computed from the numbers it holds: none when
   it holds no number (NaN quartiles), and otherwise a pair of bounds with
   the lower one not above the upper one.
   */
  function ColumnFences(t: Table, j: nat): (f: Option<Fences>)
    requires WellFormed(t) && j < |t.header|
    ensures f.None? <==> forall i | 0 <= i < |t.rows| :: !(t.rows[i][j].Some? && t.rows[i][j].value.Num?)
    ensures f.Some? ==> f.value.lo <= f.value.hi
  {
    ColumnWithoutNumbers(t, j);
    SampleFences(Numbers(Column(t, j)))
  }

  /**
   The fences of a column with numbers are Tukey's fences of its quartiles:
   they enclose both quartiles and span four interquartile ranges.
   */
  lemma ColumnFencesAroundQuartiles(t: Table, j: nat)
    requires WellFormed(t) && j < |t.header| && ColumnFences(t, j).Some?
    ensures var ss, f := Stats.Sort(Numbers(Column(t, j))), ColumnFences(t, j).value;
              && |ss| > 0
              && f.lo <= Stats.Quantile(ss, 0.25) <= Stats.Quantile(ss, 0.75) <= f.hi
              && f.hi - f.lo == 4.0 * (Stats.Quantile(ss, 0.75) - Stats.Quantile(ss, 0.25))
  {
    SampleFencesEncloseQuartiles(Numbers(Column(t, j)));
  }

  /** A column contributes no number exactly when none of its cells is a number. */
  lemma ColumnWithoutNumbers(t: Table, j: nat)
    requires WellFormed(t) && j < |t.header|
    ensures |Numbers(Column(t, j))| == 0 <==> forall i | 0 <= i < |t.rows| :: !(t.rows[i][j].Some? && t.rows[i][j].value.Num?)
  {
    var xs := Numbers(Column(t, j));
    if |xs| > 0 {
      assert xs[0] in xs;
      assert Some(Num(xs[0])) in Column(t, j);
    } else {
      forall i | 0 <= i < |t.rows|
        ensures !(t.rows[i][j].Some? && t.rows[i][j].value.Num?)
      {
        assert Column(t, j)[i] == t.rows[i][j];
      }
    }
  }

  /**
   Column `j` of `r` is column `j` of `t` capped to the fences of column
   `j` of `t`: missing cells stay missing, a column without numbers is
   kept, and otherwise every present cell is a number capped to the fences.
   */
  predicate CappedColumn(t: Table, r: Table, j: nat)
    requires WellFormed(t) && WellFormed(r) && j < |t.header| && j < |r.header| && |r.rows| == |t.rows|
  {
    && (forall i | 0 <= i < |t.rows| :: r.rows[i][j].None? <==> t.rows[i][j].None?)
    && (ColumnFences(t, j).None? ==> forall i | 0 <= i < |t.rows| :: r.rows[i][j] == t.rows[i][j])
    && (ColumnFences(t, j).Some? ==> var f := ColumnFences(t, j).value;
          forall i | 0 <= i < |t.rows| && t.rows[i][j].Some? ::
            && t.rows[i][j].value.Num? && r.rows[i][j].value.Num?
            && CappedTo(t.rows[i][j].value.num, r.rows[i][j].value.num, f))
  }

  /**
   Cap column `name` to its own fences. Fails when the column is absent or
   holds text. A column without numbers has NaN quartiles and is left as
   it is. Otherwise only that column changes: missing cells stay missing,
   every number ends up within the fences, numbers within the fences are
   kept, and numbers outside are moved to the nearer fence.
   */
  function CapOutliers(t: Table, name: string): (r: Result<Table>)
    requires WellFormed(t)
    ensures r.Err? <==> !NumericColumn(t, name)
    ensures r.Err? ==> r.error == if name in t.header then NotNumeric(name) else MissingColumn(name)
    ensures r.Ok? ==> KeepsValues(t, r.value)
    ensures r.Ok? ==> name in t.header && var j := Find(t.header, name).value;
              && SameExceptColumn(t, r.value, j)
              && (ColumnFences(t, j).None? ==> r.value == t)
              && CappedColumn(t, r.value, j)
  {
    match Find(t.header, name)
    case None => Err(MissingColumn(name))
    case Some(j) =>
      if !Numeric(t, j) then Err(NotNumeric(name))
      else
        match ColumnFences(t, j)
        case None => Ok(t)
        case Some(f) => Ok(CapColumn(t, j, f))
  }

  /**
   Within one run the capping keeps the order of the column: a number
   that was not larger than another is still not larger after capping.
   */
  lemma CapOutliersKeepsOrder(t: Table, name: string, i: nat, i': nat)
    requires WellFormed(t) && name in t.header && Numeric(t, Find(t.header, name).value)
    requires i < |t.rows| && i' < |t.rows|
    requires var j := Find(t.header, name).value;
             t.rows[i][j].Some? && t.rows[i'][j].Some? && t.rows[i][j].value.num <= t.rows[i'][j].value.num
    ensures CapOutliers(t, name).Ok?
    ensures var j := Find(t.header, name).value; var r := CapOutliers(t, name).value;
            r.rows[i][j].value.num <= r.rows[i'][j].value.num
  {
    var j := Find(t.header, name).value;
    if ColumnFences(t, j).Some? {
      CapValueMonotone(t.rows[i][j].value.num, t.rows[i'][j].value.num, ColumnFences(t, j).value);
    }
  }

  /** The worked example: with quartiles 10 and 20 a weight of 50 is lowered to 35. */
  lemma CapExample()
    ensures TukeyFences(10.0, 20.0) == Fences(-5.0, 35.0)
    ensures CapValue(50.0, TukeyFences(10.0, 20.0)) == 35.0
  {
  }

  /**
   Capping with fences recomputed from the capped data is not idempotent:
   on the sample -1000, 0, 0, 0 the fences are -625 and 375, and once the
   sample is capped to -625, 0, 0, 0 its new lower fence is -390.625, so a
   second run would move the capped value again.
   */
  lemma RecomputedFencesMove()
    ensures SampleFences([-1000.0, 0.0, 0.0, 0.0]) == Some(Fences(-625.0, 375.0))
    ensures CapValue(-1000.0, Fences(-625.0, 375.0)) == -625.0
    ensures SampleFences([-625.0, 0.0, 0.0, 0.0]) == Some(Fences(-390.625, 234.375))
  {
    FencesOfFour(-1000.0);
    FencesOfFour(-625.0);
  }

  /** The fences of the sample `a, 0, 0, 0` with `a <= 0`. */
  lemma FencesOfFour(a: real)
    requires a <= 0.0
    ensures SampleFences([a, 0.0, 0.0, 0.0]) == Some(TukeyFences(0.25 * a, 0.0))
  {
    var xs := [a, 0.0, 0.0, 0.0];
    assert Stats.Sorted(xs);
    SortedIsSort(xs);
    LowerQuartileOfFour(a);
    UpperQuartileOfFour(a);
    SampleFencesOfSorted(xs);
  }

  /** The fences of a sorted sample are Tukey's fences of its own quartiles. */
  lemma SampleFencesOfSorted(xs: seq<real>)
    requires |xs| > 0 && Stats.Sorted(xs) && Stats.Sort(xs) == xs
    ensures Stats.Quantile(xs, 0.25) <= Stats.Quantile(xs, 0.75)
    ensures SampleFences(xs) == Some(TukeyFences(Stats.Quantile(xs, 0.25), Stats.Quantile(xs, 0.75)))
  {
    Stats.QuantileMonotone(xs, 0.25, 0.75);
  }

  lemma LowerQuartileOfFour(a: real)
    requires a <= 0.0
    ensures Stats.Quantile([a, 0.0, 0.0, 0.0], 0.25) == 0.25 * a
  {
    assert Stats.QuantilePosition(4, 0.25) == 0.75;
    assert (0.75).Floor == 0;
    assert Stats.Interpolate(a, 0.0, 0.75) == a + 0.75 * (0.0 - a);
  }

  lemma UpperQuartileOfFour(a: real)
    requires a <= 0.0
    ensures Stats.Quantile([a, 0.0, 0.0, 0.0], 0.75) == 0.0
  {
    assert Stats.QuantilePosition(4, 0.75) == 2.25;
    assert (2.25).Floor == 2;
  }

  /** Sorting an already sorted sample leaves it as it is. */
  lemma {:induction false} SortedIsSort(xs: seq<real>)
    requires Stats.Sorted(xs)
    ensures Stats.Sort(xs) == xs
  {
    if |xs| > 0 {
      SortedTail(xs);
      SortedIsSort(xs[1..]);
      InsertAtFront(xs[0], xs[1..]);
      assert xs == [xs[0]] + xs[1..];
    }
  }

  /** Inserting a number not above the head of a sorted sequence puts it in front. */
  lemma InsertAtFront(x: real, s: seq<real>)
    requires Stats.Sorted(s) && (|s| == 0 || x <= s[0])
    ensures Stats.Insert(x, s) == [x] + s
  {
  }

  /** The tail of a sorted sequence is sorted. */
  lemma SortedTail(s: seq<real>)
    requires Stats.Sorted(s) && |s| > 0
    ensures Stats.Sorted(s[1..])
  {
    assert forall a | 0 <= a < |s| - 1 :: s[1..][a] == s[a + 1];
  }

  /** Capping judged against a table that agrees with `s` on column `j` is the same capping. */
  lemma CappedColumnTransfer(t: Table, s: Table, r: Table, j: nat)
    requires WellFormed(t) && WellFormed(s) && WellFormed(r) && j < |t.header| && j < |s.header| && j < |r.header|
    requires |r.rows| == |t.rows| && SameColumn(t, s, j) && CappedColumn(s, r, j)
    ensures CappedColumn(t, r, j)
  {
    assert Column(s, j) == Column(t, j);
    assert ColumnFences(s, j) == ColumnFences(t, j);
  }

  /**
   `s` is `t` after the cappings of the columns `done`: each of them is
   numeric in `t` and capped to the fences `t` gives it, every column of
   another name is unchanged, and no value is lost.
   */
  predicate CapsApplied(t: Table, s: Table, done: seq<string>)
    requires WellFormed(t)
  {
    && KeepsValues(t, s)
    && (forall i, k | 0 <= i < |t.rows| && 0 <= k < |t.header| && t.header[k] !in done :: s.rows[i][k] == t.rows[i][k])
    && (forall name | name in done :: NumericColumn(t, name) && CappedColumn(t, s, Find(t.header, name).value))
  }

  /**
   One more capping: it fails exactly when the column is not numeric in the
   original table, and otherwise extends the capped columns by one, with
   the fences still those of the original table.
   */
  lemma CapStep(t: Table, s: Table, done: seq<string>, name: string)
    requires WellFormed(t) && CapsApplied(t, s, done) && name !in done
    ensures CapOutliers(s, name).Err? <==> !NumericColumn(t, name)
    ensures CapOutliers(s, name).Ok? ==> CapsApplied(t, CapOutliers(s, name).value, done + [name])
  {
    if name in t.header {
      var j := Find(t.header, name).value;
      assert SameColumn(t, s, j);
      assert Numeric(s, j) == Numeric(t, j);
      if CapOutliers(s, name).Ok? {
        CapStepExtends(t, s, CapOutliers(s, name).value, done, name, j);
      }
    }
  }

  /** The successful case of `CapStep`, stated about the capped table alone. */
  lemma CapStepExtends(t: Table, s: Table, r: Table, done: seq<string>, name: string, j: nat)
    requires WellFormed(t) && CapsApplied(t, s, done) && name !in done && NumericColumn(t, name)
    requires j == Find(t.header, name).value && KeepsValues(s, r) && SameExceptColumn(s, r, j)
    requires CappedColumn(s, r, j)
    ensures CapsApplied(t, r, done + [name])
  {
    KeepsValuesTransitive(t, s, r);
    UncappedKept(t, s, r, done, name, j);
    CapsExtended(t, s, r, done, name, j);
  }

  /** The columns named neither in `done` nor `name` are still those of `t`. */
  lemma UncappedKept(t: Table, s: Table, r: Table, done: seq<string>, name: string, j: nat)
    requires WellFormed(t) && CapsApplied(t, s, done) && j < |t.header| && t.header[j] == name
    requires SameExceptColumn(s, r, j)
    ensures forall i, k | 0 <= i < |t.rows| && 0 <= k < |t.header| && t.header[k] !in done + [name] ::
      r.rows[i][k] == t.rows[i][k]
  {
    forall i, k | 0 <= i < |t.rows| && 0 <= k < |t.header| && t.header[k] !in done + [name]
      ensures r.rows[i][k] == t.rows[i][k]
    {
      assert t.header[k] !in done && k != j;
    }
  }

  /** Every column named in `done` or `name` is numeric in `t` and capped in `r`. */
  lemma CapsExtended(t: Table, s: Table, r: Table, done: seq<string>, name: string, j: nat)
    requires WellFormed(t) && CapsApplied(t, s, done) && name !in done && NumericColumn(t, name)
    requires j == Find(t.header, name).value && KeepsValues(s, r) && SameExceptColumn(s, r, j)
    requires CappedColumn(s, r, j)
    ensures forall other | other in done + [name] :: NumericColumn(t, other) && CappedColumn(t, r, Find(t.header, other).value)
  {
    forall other | other in done + [name]
      ensures NumericColumn(t, other) && CappedColumn(t, r, Find(t.header, other).value)
    {
      if other == name {
        assert SameColumn(t, s, j);
        CappedColumnTransfer(t, s, r, j);
      } else {
        assert other in done;
        OtherColumnKept(s, r, j, other);
        CappedColumnKept(t, s, r, Find(t.header, other).value);
      }
    }
  }

  /** A capping stays in place when a later step leaves its column alone. */
  lemma CappedColumnKept(t: Table, s: Table, r: Table, j: nat)
    requires WellFormed(t) && WellFormed(s) && WellFormed(r) && j < |t.header| && j < |s.header| && j < |r.header|
    requires |s.rows| == |t.rows| && SameColumn(s, r, j) && CappedColumn(t, s, j)
    ensures CappedColumn(t, r, j)
  {
  }

  /** The cappings of the columns `todo`, in order, after those of `done`; the first failure aborts. */
  function CapEach(t: Table, s: Table, done: seq<string>, todo: seq<string>): (r: Result<Table>)
    requires WellFormed(t) && CapsApplied(t, s, done)
    requires forall m | 0 <= m < |todo| :: todo[m] !in done
    requires forall a, b | 0 <= a < b < |todo| :: todo[a] != todo[b]
    ensures r.Err? <==> exists m | 0 <= m < |todo| :: !NumericColumn(t, todo[m])
    ensures r.Ok? ==> CapsApplied(t, r.value, done + todo)
    decreases |todo|
  {
    if |todo| == 0 then
      assert done + todo == done;
      Ok(s)
    else
      CapStep(t, s, done, todo[0]);
      var s1 :- CapOutliers(s, todo[0]);
      ShiftHead(done, todo);
      CapEach(t, s1, done + [todo[0]], todo[1..])
  }

  /**
   Capping of "Weight kg", then of "Body Length cm". Fails exactly when
   one of them is absent or holds text. On success each of them is capped
   to the fences of its own numbers in the input (the first capping does
   not move the second column), and every other column is unchanged.
   */
  function CapAll(t: Table): (r: Result<Table>)
    requires WellFormed(t)
    ensures r.Err? <==> !NumericColumn(t, Capped[0]) || !NumericColumn(t, Capped[1])
    ensures r.Ok? ==> KeepsValues(t, r.value)
    ensures r.Ok? ==> forall i, k | 0 <= i < |t.rows| && 0 <= k < |t.header| && t.header[k] !in Capped ::
              r.value.rows[i][k] == t.rows[i][k]
    ensures r.Ok? ==> forall name | name in Capped ::
              NumericColumn(t, name) && CappedColumn(t, r.value, Find(t.header, name).value)
  {
    assert CapsApplied(t, t, []);
    assert [] + Capped == Capped;
    CapEach(t, t, [], Capped)
  }
}
