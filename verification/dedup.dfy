/**
 Removal of duplicate rows: when some row repeats an earlier one, only the
 first occurrence of each distinct row is kept, in the original order, and
 the rows are renumbered. Two rows are duplicates when every cell agrees,
 missing cells included.
 */
module Dedup {
  import opened Tables

  /** No element occurs twice. */
  predicate NoDuplicates<T(==)>(s: seq<T>) {
    forall a, b | 0 <= a < b < |s| :: s[a] != s[b]
  }

  /** The position of the first occurrence of `x` in `s`. */
  function IndexOf<T(==)>(s: seq<T>, x: T): (k: nat)
    requires x in s
    ensures k < |s| && s[k] == x && x !in s[..k]
  {
    if s[0] == x then 0
    else
      var k := IndexOf(s[1..], x);
      assert s[1..][..k] == s[1..k + 1];
      k + 1
  }

  /**
   The first occurrence of every element of `s`, in the order of `s`
   (`drop_duplicates(keep="first")`).
   */
  function Distinct<T(==)>(s: seq<T>): (r: seq<T>)
    ensures NoDuplicates(r)
    ensures forall i | 0 <= i < |r| :: r[i] in s
    ensures forall i | 0 <= i < |s| :: s[i] in r
    ensures |r| <= |s|
  {
    if |s| == 0 then []
    else
      var front := Distinct(s[..|s| - 1]);
      assert forall i | 0 <= i < |s| - 1 :: s[i] == s[..|s| - 1][i];
      if s[|s| - 1] in front then front else front + [s[|s| - 1]]
  }

  /** An element of the prefix is first found where the prefix first has it. */
  lemma PrefixIndexOf<T>(s: seq<T>, x: T)
    requires |s| > 0 && x in s[..|s| - 1]
    ensures IndexOf(s, x) == IndexOf(s[..|s| - 1], x)
  {
    var k, k' := IndexOf(s, x), IndexOf(s[..|s| - 1], x);
    assert s[..|s| - 1][..k'] == s[..k'];
  }

  /** Distinct elements appear in the order of their first occurrence in `s`. */
  lemma {:induction false} DistinctKeepsFirstOrder<T>(s: seq<T>)
    ensures forall a, b | 0 <= a < b < |Distinct(s)| :: IndexOf(s, Distinct(s)[a]) < IndexOf(s, Distinct(s)[b])
  {
    if |s| > 0 {
      var s', last := s[..|s| - 1], s[|s| - 1];
      var front, r := Distinct(s'), Distinct(s);
      DistinctKeepsFirstOrder(s');
      forall x | x in front
        ensures IndexOf(s, x) == IndexOf(s', x) < |s'|
      {
        PrefixIndexOf(s, x);
      }
      if last !in front {
        assert last !in s';
        assert IndexOf(s, last) == |s| - 1;
        assert r == front + [last];
        forall a, b | 0 <= a < b < |r|
          ensures IndexOf(s, r[a]) < IndexOf(s, r[b])
        {
          assert r[a] == front[a];
          if b < |front| {
            assert r[b] == front[b];
          }
        }
      }
    }
  }

  /** A sequence without duplicates is its own distinct part. */
  lemma {:induction false} DistinctOfNoDuplicates<T>(s: seq<T>)
    requires NoDuplicates(s)
    ensures Distinct(s) == s
  {
    if |s| > 0 {
      var s' := s[..|s| - 1];
      assert NoDuplicates(s');
      DistinctOfNoDuplicates(s');
      assert s[|s| - 1] !in s';
      assert s == s' + [s[|s| - 1]];
    }
  }

  /** Removing duplicates twice is removing them once. */
  lemma DistinctIdempotent<T>(s: seq<T>)
    ensures Distinct(Distinct(s)) == Distinct(s)
  {
    DistinctOfNoDuplicates(Distinct(s));
  }

  /** Something is removed exactly when some element repeats. */
  lemma {:induction false} DistinctShorter<T>(s: seq<T>)
    ensures |Distinct(s)| == |s| <==> NoDuplicates(s)
  {
    if NoDuplicates(s) {
      DistinctOfNoDuplicates(s);
    } else if |s| > 0 {
      var s', last := s[..|s| - 1], s[|s| - 1];
      DistinctShorter(s');
      if NoDuplicates(s') {
        var a, b :| 0 <= a < b < |s| && s[a] == s[b];
        assert b == |s| - 1 && s'[a] == last;
        assert last in Distinct(s');
      }
    }
  }

  /**
   `if duplicated().any(): drop_duplicates().reset_index(drop=True)`. The
   header is kept; no row occurs twice afterwards; the same rows occur as
   before, in the order of their first occurrence; and the row count falls
   exactly when the table had a repeated row.
   */
  function DropDuplicates(t: Table): (r: Table)
    requires WellFormed(t)
    ensures WellFormed(r) && r.header == t.header
    ensures NoDuplicates(r.rows)
    ensures forall i | 0 <= i < |r.rows| :: r.rows[i] in t.rows
    ensures forall i | 0 <= i < |t.rows| :: t.rows[i] in r.rows
    ensures forall a, b | 0 <= a < b < |r.rows| :: IndexOf(t.rows, r.rows[a]) < IndexOf(t.rows, r.rows[b])
    ensures |r.rows| <= |t.rows|
    ensures |r.rows| == |t.rows| <==> NoDuplicates(t.rows)
  {
    DistinctKeepsFirstOrder(t.rows);
    DistinctShorter(t.rows);
    if NoDuplicates(t.rows) then
      DistinctOfNoDuplicates(t.rows);
      t
    else
      Table(t.header, Distinct(t.rows))
  }

  /** Dropping duplicates of a table without duplicates changes nothing. */
  lemma DropDuplicatesIdempotent(t: Table)
    requires WellFormed(t)
    ensures DropDuplicates(DropDuplicates(t)) == DropDuplicates(t)
  {
  }
}
