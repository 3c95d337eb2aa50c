/**
 Relabelling of the columns to snake_case names. Labels that the table
 does not know are kept, and keys the header does not contain are ignored,
 so relabelling never fails. The cells are not touched.
 */
module Rename {
  import opened Tables

  const RenameMap: map<string, string> := map[
    "Animal type" := "animal_type",
    "Country" := "country",
    "Weight kg" := "weight_kg",
    "Body Length cm" := "body_length_cm",
    "Gender" := "gender",
    "Latitude" := "latitude",
    "Longitude" := "longitude",
    "Observation date" := "observation_date",
    "Data compiled by" := "data_compiled_by"
  ]

  /** The old label of every new one: `RenameMap` read backwards. */
  const RestoreMap: map<string, string> := map[
    "animal_type" := "Animal type",
    "country" := "Country",
    "weight_kg" := "Weight kg",
    "body_length_cm" := "Body Length cm",
    "gender" := "Gender",
    "latitude" := "Latitude",
    "longitude" := "Longitude",
    "observation_date" := "Observation date",
    "data_compiled_by" := "Data compiled by"
  ]

  /** One label: renamed when it is a key of `m`, kept otherwise. */
  function RenameLabel(m: map<string, string>, name: string): string {
    if name in m then m[name] else name
  }

  /**
   `DataFrame.rename(columns=m)`: every column label that is a key of `m`
   gets the label `m` gives it, every other label is kept, and the rows
   are unchanged.
   */
  function Relabel(t: Table, m: map<string, string>): (r: Table)
    ensures r.rows == t.rows
    ensures |r.header| == |t.header|
    ensures forall k | 0 <= k < |t.header| && t.header[k] in m :: r.header[k] == m[t.header[k]]
    ensures forall k | 0 <= k < |t.header| && t.header[k] !in m :: r.header[k] == t.header[k]
  {
    Table(seq(|t.header|, k requires 0 <= k < |t.header| => RenameLabel(m, t.header[k])), t.rows)
  }

  /** No two keys share a target label. */
  predicate Injective(m: map<string, string>) {
    forall a, b | a in m && b in m && a != b :: m[a] != m[b]
  }

  /** `back` undoes `m`: its keys are exactly the targets of `m`, each mapped to its source. */
  predicate InverseOf(back: map<string, string>, m: map<string, string>) {
    && (forall a | a in m :: m[a] in back && back[m[a]] == a)
    && (forall b | b in back :: back[b] in m && m[back[b]] == b)
  }

  /** A map with an inverse is injective. */
  lemma InverseInjective(back: map<string, string>, m: map<string, string>)
    requires InverseOf(back, m)
    ensures Injective(m)
  {
  }

  /** The relabelling of the cleaner is undone by `RestoreMap`, so it is injective. */
  lemma RestoreMapInverts()
    ensures InverseOf(RestoreMap, RenameMap)
    ensures Injective(RenameMap)
  {
    assert forall a | a in RenameMap :: RenameMap[a] in RestoreMap && RestoreMap[RenameMap[a]] == a;
    assert forall b | b in RestoreMap :: RestoreMap[b] in RenameMap && RenameMap[RestoreMap[b]] == b;
    InverseInjective(RestoreMap, RenameMap);
  }

  /**
   Relabelling with `m` and then with its inverse gives the table back,
   provided no label of the table already is a new label without being an
   old one (such a label would be "restored" to something it never was).
   */
  lemma RelabelRoundTrip(t: Table, m: map<string, string>, back: map<string, string>)
    requires InverseOf(back, m)
    requires forall k | 0 <= k < |t.header| :: t.header[k] in m || t.header[k] !in back
    ensures Relabel(Relabel(t, m), back) == t
  {
    var r := Relabel(t, m);
    var r2 := Relabel(r, back);
    forall k | 0 <= k < |t.header|
      ensures r2.header[k] == t.header[k]
    {
      if t.header[k] in m {
        assert r.header[k] == m[t.header[k]];
      } else {
        assert r.header[k] == t.header[k];
      }
    }
    assert r2.header == t.header;
  }

  /**
   After the cleaner's relabelling no old label is left: every new label is
   in snake_case and none of them is itself a key.
   */
  lemma RelabelLeavesNoOldLabel(t: Table)
    ensures forall k | 0 <= k < |t.header| :: Relabel(t, RenameMap).header[k] !in RenameMap
  {
    var r := Relabel(t, RenameMap);
    forall k | 0 <= k < |t.header|
      ensures r.header[k] !in RenameMap
    {
      if t.header[k] in RenameMap {
        assert r.header[k] in RestoreMap by {
          RestoreMapInverts();
        }
      }
    }
  }

  /** The worked example: "Weight kg" becomes "weight_kg" and an unknown label is kept. */
  lemma RenameExample()
    ensures Relabel(Table(["Weight kg", "Notes"], []), RenameMap).header == ["weight_kg", "Notes"]
  {
  }
}
