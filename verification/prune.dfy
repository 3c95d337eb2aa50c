/**
 Column pruning, the first step of the pipeline: columns with no value in
 any row are dropped, and then the identifier column "Animal name" is
 dropped by name. Dropping a column by name fails when it is absent.
 */
module Prune {
  import opened Tables

  const AnimalName := "Animal name"

  predicate Increasing(keep: seq<nat>) {
    forall a, b | 0 <= a < b < |keep| :: keep[a] < keep[b]
  }

  /** `r` consists of the columns `keep` of `t`, in that order, each with its name and its cells untouched. */
  predicate SelectionOf(t: Table, r: Table, keep: seq<nat>)
    requires WellFormed(t)
  {
    && WellFormed(r)
    && |keep| == |r.header|
    && Increasing(keep)
    && (forall m | 0 <= m < |keep| :: keep[m] < |t.header| && r.header[m] == t.header[keep[m]])
    && |r.rows| == |t.rows|
    && (forall i, m | 0 <= i < |r.rows| && 0 <= m < |keep| :: r.rows[i][m] == t.rows[i][keep[m]])
  }

  /** The positions below `n` that satisfy `p`, in increasing order. */
  function IndicesWhere(n: nat, p: nat -> bool): (keep: seq<nat>)
    ensures Increasing(keep)
    ensures forall m | 0 <= m < |keep| :: keep[m] < n && p(keep[m])
    ensures forall k | 0 <= k < n :: p(k) ==> k in keep
  {
    if n == 0 then []
    else
      var front := IndicesWhere(n - 1, p);
      if p(n - 1) then front + [n - 1] else front
  }

  /** Keep the columns at positions `keep`. */
  function Select(t: Table, keep: seq<nat>): (r: Table)
    requires WellFormed(t) && Increasing(keep)
    requires forall m | 0 <= m < |keep| :: keep[m] < |t.header|
    ensures SelectionOf(t, r, keep)
  {
    Table(seq(|keep|, m requires 0 <= m < |keep| => t.header[keep[m]]),
          seq(|t.rows|, i requires 0 <= i < |t.rows| =>
                seq(|keep|, m requires 0 <= m < |keep| => t.rows[i][keep[m]])))
  }

  /** Positions of the columns that hold at least one value. */
  function NonEmptyColumns(t: Table): (keep: seq<nat>)
    requires WellFormed(t)
    ensures Increasing(keep)
    ensures forall m | 0 <= m < |keep| :: keep[m] < |t.header|
    ensures forall k | 0 <= k < |t.header| :: k in keep <==> HasValue(t, k)
  {
    var keep := IndicesWhere(|t.header|, (k: nat) => k < |t.header| && HasValue(t, k));
    assert forall k | 0 <= k < |t.header| && k in keep :: HasValue(t, k) by {
      forall k | 0 <= k < |t.header| && k in keep
        ensures HasValue(t, k)
      {
        var m :| 0 <= m < |keep| && keep[m] == k;
      }
    }
    keep
  }

  /** Positions of the columns not called `name`. */
  function ColumnsNotNamed(t: Table, name: string): (keep: seq<nat>)
    ensures Increasing(keep)
    ensures forall m | 0 <= m < |keep| :: keep[m] < |t.header|
    ensures forall k | 0 <= k < |t.header| :: k in keep <==> t.header[k] != name
  {
    var keep := IndicesWhere(|t.header|, (k: nat) => k < |t.header| && t.header[k] != name);
    assert forall k | 0 <= k < |t.header| && k in keep :: t.header[k] != name by {
      forall k | 0 <= k < |t.header| && k in keep
        ensures t.header[k] != name
      {
        var m :| 0 <= m < |keep| && keep[m] == k;
      }
    }
    keep
  }

  /** `dropna(axis=1, how="all")`: drop every column that has no value in any row. */
  function DropAllMissing(t: Table): (r: Table)
    requires WellFormed(t)
    ensures WellFormed(r)
    ensures exists keep ::
              SelectionOf(t, r, keep) && forall k | 0 <= k < |t.header| :: k in keep <==> HasValue(t, k)
    ensures forall m | 0 <= m < |r.header| :: HasValue(r, m)
  {
    var keep := NonEmptyColumns(t);
    var r := Select(t, keep);
    SelectionHasValue(t, r, keep);
    r
  }

  /** `drop([name], axis=1)`: drop every column called `name`; an absent name is an error. */
  function DropColumn(t: Table, name: string): (r: Result<Table>)
    requires WellFormed(t)
    ensures r.Err? <==> name !in t.header
    ensures r.Err? ==> r.error == MissingColumn(name)
    ensures r.Ok? ==> name !in r.value.header
    ensures r.Ok? ==> WellFormed(r.value)
    ensures r.Ok? ==> exists keep ::
              SelectionOf(t, r.value, keep) && forall k | 0 <= k < |t.header| :: k in keep <==> t.header[k] != name
  {
    if name !in t.header then Err(MissingColumn(name))
    else Ok(Select(t, ColumnsNotNamed(t, name)))
  }

  /** Position `n` of the composed selection is position `keep2[n]` of the first one. */
  function Compose(keep1: seq<nat>, keep2: seq<nat>): (keep: seq<nat>)
    requires forall n | 0 <= n < |keep2| :: keep2[n] < |keep1|
  {
    seq(|keep2|, n requires 0 <= n < |keep2| => keep1[keep2[n]])
  }

  /** A selection of a selection is a selection of the original table. */
  lemma SelectionCompose(t: Table, s: Table, r: Table, keep1: seq<nat>, keep2: seq<nat>)
    requires WellFormed(t) && WellFormed(s)
    requires SelectionOf(t, s, keep1) && SelectionOf(s, r, keep2)
    ensures SelectionOf(t, r, Compose(keep1, keep2))
  {
    var keep := Compose(keep1, keep2);
    forall a, b | 0 <= a < b < |keep|
      ensures keep[a] < keep[b]
    {
      assert keep2[a] < keep2[b];
    }
  }

  /** The header fact behind the error case of `PruneColumns`. */
  lemma PruneFails(t: Table, s: Table, keep1: seq<nat>)
    requires WellFormed(t) && WellFormed(s)
    requires SelectionOf(t, s, keep1)
    requires forall k | 0 <= k < |t.header| :: k in keep1 <==> HasValue(t, k)
    ensures AnimalName !in s.header <==>
              forall k | 0 <= k < |t.header| && t.header[k] == AnimalName :: !HasValue(t, k)
  {
    if AnimalName in s.header {
      var m :| 0 <= m < |s.header| && s.header[m] == AnimalName;
      assert t.header[keep1[m]] == AnimalName && HasValue(t, keep1[m]) by {
        assert keep1[m] in keep1;
      }
    }
  }

  /** The columns surviving both drops are those with a value not called "Animal name". */
  lemma PruneKeeps(t: Table, s: Table, r: Table, keep1: seq<nat>, keep2: seq<nat>)
    requires WellFormed(t) && WellFormed(s)
    requires SelectionOf(t, s, keep1)
    requires forall k | 0 <= k < |t.header| :: k in keep1 <==> HasValue(t, k)
    requires SelectionOf(s, r, keep2)
    requires forall k | 0 <= k < |s.header| :: k in keep2 <==> s.header[k] != AnimalName
    ensures SelectionOf(t, r, Compose(keep1, keep2))
    ensures forall k | 0 <= k < |t.header| ::
              k in Compose(keep1, keep2) <==> HasValue(t, k) && t.header[k] != AnimalName
  {
    SelectionCompose(t, s, r, keep1, keep2);
    var keep := Compose(keep1, keep2);
    forall k | 0 <= k < |t.header|
      ensures k in keep <==> HasValue(t, k) && t.header[k] != AnimalName
    {
      if HasValue(t, k) && t.header[k] != AnimalName {
        var m :| 0 <= m < |keep1| && keep1[m] == k;
        assert s.header[m] != AnimalName;
        var n :| 0 <= n < |keep2| && keep2[n] == m;
        assert keep[n] == k;
      }
      if k in keep {
        var n :| 0 <= n < |keep| && keep[n] == k;
        assert keep1[keep2[n]] in keep1;
      }
    }
  }

  /** A selection from a table without all-missing columns has none either. */
  lemma SelectionHasValue(s: Table, r: Table, keep: seq<nat>)
    requires WellFormed(s) && SelectionOf(s, r, keep)
    requires forall m | 0 <= m < |keep| :: HasValue(s, keep[m])
    ensures forall m | 0 <= m < |r.header| :: HasValue(r, m)
  {
    forall m | 0 <= m < |r.header|
      ensures HasValue(r, m)
    {
      assert HasValue(s, keep[m]);
      var i :| 0 <= i < |s.rows| && s.rows[i][keep[m]].Some?;
      assert r.rows[i][m].Some?;
    }
  }

  /**
   Drop the all-missing columns, then "Animal name". The step fails exactly
   when no "Animal name" column with a value exists; otherwise the surviving
   columns are exactly those with a value that are not "Animal name", in
   their original order and with their cells untouched.
   */
  function PruneColumns(t: Table): (r: Result<Table>)
    requires WellFormed(t)
    ensures r.Err? <==> forall k | 0 <= k < |t.header| && t.header[k] == AnimalName :: !HasValue(t, k)
    ensures r.Ok? ==> WellFormed(r.value)
    ensures r.Ok? ==> AnimalName !in r.value.header
    ensures r.Ok? ==> forall m | 0 <= m < |r.value.header| :: HasValue(r.value, m)
    ensures r.Ok? ==> exists keep ::
              && SelectionOf(t, r.value, keep)
              && forall k | 0 <= k < |t.header| :: k in keep <==> HasValue(t, k) && t.header[k] != AnimalName
  {
    var s := DropAllMissing(t);
    var keep1 := NonEmptyColumns(t);
    PruneFails(t, s, keep1);
    var r := DropColumn(s, AnimalName);
    if r.Ok? then
      var keep2 := ColumnsNotNamed(s, AnimalName);
      PruneKeeps(t, s, r.value, keep1, keep2);
      SelectionHasValue(t, r.value, Compose(keep1, keep2));
      r
    else
      r
  }
}
