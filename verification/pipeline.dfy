/**
 The whole cleaning pass of `DatasetCleaner`, the steps in the order the
 cleaner runs them. The first step that fails aborts the pass with its
 error. The date parser is a parameter (see module `Dates`).
 */
module Pipeline {
  import opened Tables
  import Prune
  import Substitution
  import CategoricalFill
  import Dates
  import Signs
  import GroupMedian
  import Outliers
  import Dedup
  import Rename

  /**
   The value repairs of the categorical columns and of the dates. Fails
   exactly when one of the four columns it works on is absent or the parser
   rejects a date of the input (the earlier repairs do not touch the dates).
   */
  function RepairLabels(t: Table, parse: string -> Option<Value>): (r: Result<Table>)
    requires WellFormed(t)
    ensures r.Err? <==> (|| Substitution.AnimalType !in t.header || Substitution.Country !in t.header
                         || CategoricalFill.Gender !in t.header || Dates.ObservationDate !in t.header
                         || exists i | 0 <= i < |t.rows| ::
                              Dates.Unparseable(parse, t.rows[i][Find(t.header, Dates.ObservationDate).value]))
    ensures r.Ok? ==> KeepsValues(t, r.value)
    ensures r.Ok? ==> NoneMissing(r.value, CategoricalFill.Gender)
  {
    var t1 :- Substitution.Substitute(t, Substitution.AnimalType, Substitution.AnimalTypeMapping);
    var t2 :- Substitution.Substitute(t1, Substitution.Country, Substitution.CountryMapping);
    var t3 :- CategoricalFill.FillMissing(t2, CategoricalFill.Gender, CategoricalFill.NotDetermined);
    DatesUntouched(t, t1, t2, t3);
    var t4 :- Dates.ParseDates(t3, Dates.ObservationDate, parse);
    KeepsValuesTransitive(t, t1, t2);
    KeepsValuesTransitive(t, t2, t3);
    KeepsValuesTransitive(t, t3, t4);
    KeepsValuesNoneMissing(t3, t4, CategoricalFill.Gender);
    Ok(t4)
  }

  /** The label repairs leave the date column as it was. */
  lemma DatesUntouched(t: Table, t1: Table, t2: Table, t3: Table)
    requires WellFormed(t) && Substitution.AnimalType in t.header && Substitution.Country in t.header
    requires CategoricalFill.Gender in t.header
    requires SameExceptColumn(t, t1, Find(t.header, Substitution.AnimalType).value)
    requires SameExceptColumn(t1, t2, Find(t.header, Substitution.Country).value)
    requires SameExceptColumn(t2, t3, Find(t.header, CategoricalFill.Gender).value)
    ensures WellFormed(t3) && t3.header == t.header
    ensures Dates.ObservationDate in t.header ==> SameColumn(t, t3, Find(t.header, Dates.ObservationDate).value)
  {
    OtherColumnKept(t, t1, Find(t.header, Substitution.AnimalType).value, Dates.ObservationDate);
    OtherColumnKept(t1, t2, Find(t.header, Substitution.Country).value, Dates.ObservationDate);
    OtherColumnKept(t2, t3, Find(t.header, CategoricalFill.Gender).value, Dates.ObservationDate);
  }

  /**
   The numeric repairs: signs, mode fills, group-median imputation and
   outlier capping. Fails when a column whose sign is normalized is absent
   or holds text; on success the four quantitative columns were numeric,
   the grouping keys are complete, and no value is lost.
   */
  function RepairNumbers(t: Table): (r: Result<Table>)
    requires WellFormed(t)
    ensures (exists name | name in Signs.Signed :: !NumericColumn(t, name)) ==> r.Err?
    ensures r.Ok? ==> KeepsValues(t, r.value)
    ensures r.Ok? ==> forall name | name in GroupMedian.Quantitative :: NumericColumn(t, name)
    ensures r.Ok? ==> NoneMissing(r.value, GroupMedian.AnimalType) && NoneMissing(r.value, GroupMedian.Country)
  {
    var t5 :- Signs.NormalizeSigns(t);
    var t6 :- CategoricalFill.FillCategorical(t5);
    LongitudeUntouched(t, t5, t6);
    KeepsValuesTransitive(t, t5, t6);
    var t8 :- ImputeAndCap(t6);
    KeepsValuesTransitive(t, t6, t8);
    Ok(t8)
  }

  /** Group-median imputation followed by outlier capping. */
  function ImputeAndCap(t: Table): (r: Result<Table>)
    requires WellFormed(t)
    ensures r.Ok? ==> KeepsValues(t, r.value)
    ensures r.Ok? ==> forall name | name in GroupMedian.Quantitative :: NumericColumn(t, name)
    ensures r.Ok? && NoneMissing(t, GroupMedian.AnimalType) ==> NoneMissing(r.value, GroupMedian.AnimalType)
    ensures r.Ok? && NoneMissing(t, GroupMedian.Country) ==> NoneMissing(r.value, GroupMedian.Country)
  {
    var t7 :- GroupMedian.FillQuantitative(t);
    var t8 :- Outliers.CapAll(t7);
    KeepsValuesTransitive(t, t7, t8);
    Ok(t8)
  }

  /** Neither sign normalization nor the mode fills touch "Longitude". */
  lemma LongitudeUntouched(t: Table, t5: Table, t6: Table)
    requires WellFormed(t) && KeepsValues(t, t5) && KeepsValues(t5, t6)
    requires forall i, k | 0 <= i < |t.rows| && 0 <= k < |t.header| && t.header[k] !in Signs.Signed ::
               t5.rows[i][k] == t.rows[i][k]
    requires forall i, k | 0 <= i < |t5.rows| && 0 <= k < |t5.header| && t5.header[k] !in CategoricalFill.Categorical ::
               t6.rows[i][k] == t5.rows[i][k]
    ensures NumericColumn(t6, "Longitude") ==> NumericColumn(t, "Longitude")
  {
    if NumericColumn(t6, "Longitude") {
      var j := Find(t.header, "Longitude").value;
      assert t.header[j] !in Signs.Signed && t.header[j] !in CategoricalFill.Categorical;
      forall i | 0 <= i < |t.rows|
        ensures !t.rows[i][j].Some? || t.rows[i][j].value.Num?
      {
        assert t6.rows[i][j] == t.rows[i][j];
      }
    }
  }

  /**
   Every step up to outlier capping: columns are pruned, then cells are
   repaired. Repairs only ever fill or rewrite values, so the pruned
   columns keep a value each and "Gender" stays complete.
   */
  function RepairCells(t: Table, parse: string -> Option<Value>): (r: Result<Table>)
    requires WellFormed(t)
    ensures r.Ok? ==> WellFormed(r.value) && NoEmptyColumn(r.value) && |r.value.rows| == |t.rows|
    ensures r.Ok? ==> Prune.AnimalName !in r.value.header
    ensures r.Ok? ==> CategoricalFill.Gender in r.value.header && NoneMissing(r.value, CategoricalFill.Gender)
    ensures (forall k | 0 <= k < |t.header| && t.header[k] == Prune.AnimalName :: !HasValue(t, k)) ==> r.Err?
  {
    var t0 :- Prune.PruneColumns(t);
    var t4 :- RepairLabels(t0, parse);
    var t8 :- RepairNumbers(t4);
    KeepsValuesTransitive(t0, t4, t8);
    KeepsValuesNoEmptyColumn(t0, t8);
    KeepsValuesNoneMissing(t4, t8, CategoricalFill.Gender);
    Ok(t8)
  }

  /**
   `DatasetCleaner.sistemazione`. Fails when the table has no "Animal
   name" column with a value (it cannot be dropped), and otherwise with the
   first failing step. On success no row occurs twice, no row was added,
   every column holds at least one value, and no column carries one of the
   old labels the cleaner renames.
   */
  function Clean(t: Table, parse: string -> Option<Value>): (r: Result<Table>)
    requires WellFormed(t)
    ensures (forall k | 0 <= k < |t.header| && t.header[k] == Prune.AnimalName :: !HasValue(t, k)) ==> r.Err?
    ensures r.Ok? ==> WellFormed(r.value)
    ensures r.Ok? ==> Dedup.NoDuplicates(r.value.rows) && |r.value.rows| <= |t.rows|
    ensures r.Ok? ==> NoEmptyColumn(r.value)
    ensures r.Ok? ==> forall k | 0 <= k < |r.value.header| :: r.value.header[k] !in Rename.RenameMap
    ensures r.Ok? ==> Prune.AnimalName !in r.value.header
  {
    var repaired :- RepairCells(t, parse);
    var unique := Dedup.DropDuplicates(repaired);
    var renamed := Rename.Relabel(unique, Rename.RenameMap);
    DropDuplicatesNoEmptyColumn(repaired);
    Rename.RelabelLeavesNoOldLabel(unique);
    NoNewAnimalName(unique);
    RelabelNoEmptyColumn(unique);
    Ok(renamed)
  }

  /** Dropping duplicate rows keeps every distinct row, so it cannot empty a column. */
  lemma DropDuplicatesNoEmptyColumn(t: Table)
    requires WellFormed(t) && NoEmptyColumn(t)
    ensures NoEmptyColumn(Dedup.DropDuplicates(t))
  {
    var r := Dedup.DropDuplicates(t);
    forall k | 0 <= k < |r.header|
      ensures HasValue(r, k)
    {
      assert HasValue(t, k);
      var i :| 0 <= i < |t.rows| && t.rows[i][k].Some?;
      assert t.rows[i] in r.rows;
      var i' :| 0 <= i' < |r.rows| && r.rows[i'] == t.rows[i];
      assert r.rows[i'][k].Some?;
    }
  }

  /** Relabelling leaves the cells alone, so it cannot empty a column. */
  lemma RelabelNoEmptyColumn(t: Table)
    requires WellFormed(t) && NoEmptyColumn(t)
    ensures var r := Rename.Relabel(t, Rename.RenameMap); WellFormed(r) && NoEmptyColumn(r)
  {
    var r := Rename.Relabel(t, Rename.RenameMap);
    forall k | 0 <= k < |r.header|
      ensures HasValue(r, k)
    {
      assert HasValue(t, k);
    }
  }

  /** Relabelling cannot bring back the dropped "Animal name" column. */
  lemma NoNewAnimalName(t: Table)
    requires Prune.AnimalName !in t.header
    ensures Prune.AnimalName !in Rename.Relabel(t, Rename.RenameMap).header
  {
    var r := Rename.Relabel(t, Rename.RenameMap);
    forall k | 0 <= k < |r.header|
      ensures r.header[k] != Prune.AnimalName
    {
      assert t.header[k] != Prune.AnimalName;
    }
  }
}
