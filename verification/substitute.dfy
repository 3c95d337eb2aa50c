/**
 Value normalization: fixed tables that collapse misspelled or abbreviated
 labels of the "Animal type" and "Country" columns onto one canonical label.
 A cell is rewritten only when it is exactly a key of the table.
 */
module Substitution {
  import opened Tables

  const AnimalType := "Animal type"
  const Country := "Country"

  const AnimalTypeMapping: map<string, string> := map[
    "European bison™" := "European bison",
    "European bisson" := "European bison",
    "European buster" := "European bison",
    "lynx?" := "lynx",
    "red squirel" := "red squirrel",
    "red squirrell" := "red squirrel",
    "wedgehod" := "hedgehog",
    "ledgehod" := "hedgehog"
  ]

  const CountryMapping: map<string, string> := map[
    "PL" := "Poland",
    "HU" := "Hungary",
    "Hungry" := "Hungary",
    "DE" := "Germany",
    "Czech" := "Czech Republic",
    "CZ" := "Czech Republic",
    "CC" := "Austria",
    "Australia" := "Austria"
  ]

  /** No canonical label is itself a variant the table rewrites. */
  predicate Canonical(m: map<string, string>) {
    forall k | k in m :: m[k] !in m
  }

  /** The cell holds text that the table rewrites. */
  predicate IsVariant(m: map<string, string>, c: Cell) {
    c.Some? && c.value.Text? && c.value.text in m
  }

  /** `Series.replace(m)` on one cell: exact matches are rewritten, anything else passes through. */
  function SubstituteCell(m: map<string, string>, c: Cell): (r: Cell)
    ensures IsVariant(m, c) ==> r == Some(Text(m[c.value.text]))
    ensures !IsVariant(m, c) ==> r == c
  {
    if IsVariant(m, c) then Some(Text(m[c.value.text])) else c
  }

  /**
   Rewrite column `name` with the table `m`. Fails when the column is
   absent. Otherwise only that column changes: a cell that is exactly a
   key becomes the key's canonical label and every other cell (other
   text, numbers, missing cells) is kept.
   */
  function Substitute(t: Table, name: string, m: map<string, string>): (r: Result<Table>)
    requires WellFormed(t)
    ensures r.Err? <==> name !in t.header
    ensures r.Err? ==> r.error == MissingColumn(name)
    ensures r.Ok? ==> KeepsValues(t, r.value)
    ensures r.Ok? ==> name in t.header && var j := Find(t.header, name).value;
              && SameExceptColumn(t, r.value, j)
              && (forall i | 0 <= i < |t.rows| && IsVariant(m, t.rows[i][j]) ::
                    r.value.rows[i][j] == Some(Text(m[t.rows[i][j].value.text])))
              && (forall i | 0 <= i < |t.rows| && !IsVariant(m, t.rows[i][j]) ::
                    r.value.rows[i][j] == t.rows[i][j])
  {
    match Find(t.header, name)
    case None => Err(MissingColumn(name))
    case Some(j) => Ok(MapColumn(t, j, c => SubstituteCell(m, c)))
  }

  /** With a canonical table, no variant is left in the rewritten column. */
  lemma SubstituteLeavesNoVariant(t: Table, name: string, m: map<string, string>)
    requires WellFormed(t) && Canonical(m) && name in t.header
    ensures Substitute(t, name, m).Ok?
    ensures var r := Substitute(t, name, m).value; var j := Find(t.header, name).value;
              forall i | 0 <= i < |r.rows| :: !IsVariant(m, r.rows[i][j])
  {
  }

  /** With a canonical table, substituting twice is substituting once. */
  lemma SubstituteIdempotent(t: Table, name: string, m: map<string, string>)
    requires WellFormed(t) && Canonical(m)
    ensures Substitute(t, name, m).Ok? ==>
              Substitute(Substitute(t, name, m).value, name, m) == Substitute(t, name, m)
  {
    if name in t.header {
      var r := Substitute(t, name, m).value;
      var j := Find(t.header, name).value;
      var r2 := Substitute(r, name, m).value;
      assert |r2.rows| == |r.rows|;
      forall i | 0 <= i < |r.rows|
        ensures r2.rows[i] == r.rows[i]
      {
        assert !IsVariant(m, r.rows[i][j]);
        assert forall k | 0 <= k < |r.header| :: r2.rows[i][k] == r.rows[i][k];
      }
      assert r2.rows == r.rows;
    }
  }

  /** Both fixed tables of the cleaner are canonical. */
  lemma MappingsCanonical()
    ensures Canonical(AnimalTypeMapping)
    ensures Canonical(CountryMapping)
  {
  }

  /** The worked examples: a trademark sign and a country code are normalized. */
  lemma SubstitutionExamples()
    ensures SubstituteCell(AnimalTypeMapping, Some(Text("European bison™"))) == Some(Text("European bison"))
    ensures SubstituteCell(CountryMapping, Some(Text("PL"))) == Some(Text("Poland"))
    ensures SubstituteCell(CountryMapping, Some(Text("Poland"))) == Some(Text("Poland"))
    ensures SubstituteCell(CountryMapping, None) == None
  {
  }
}
