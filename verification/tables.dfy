/**
 The in-memory dataset the cleaning pipeline works on: a header of column
 names and a sequence of rows, each row holding one optional cell per column.
 `None` stands for a missing value (pandas NaN).
 */
module Tables {

  datatype Option<+T> = None | Some(value: T)

  /** Why a pipeline step gives up; each case is an exception the source lets escape. */
  datatype Error =
    | MissingColumn(column: string)    // a column looked up by name is absent (KeyError)
    | NotNumeric(column: string)       // arithmetic or statistics on a text cell (TypeError)
    | NoMode(column: string)           // mode of a column without any value (empty mode()[0])
    | UnparseableDate(column: string)  // the date parser rejected a cell

  datatype Result<+T> = Ok(value: T) | Err(error: Error) {
    predicate IsFailure() {
      Err?
    }

    function PropagateFailure<U>(): Result<U>
      requires Err?
    {
      Err(error)
    }

    function Extract(): T
      requires Ok?
    {
      value
    }
  }

  /** A cell value: text, or a number (floats are modelled as reals). */
  datatype Value = Text(text: string) | Num(num: real)

  type Cell = Option<Value>

  type Row = seq<Cell>

  datatype Table = Table(header: seq<string>, rows: seq<Row>)

  /** Every row has exactly one cell per column. */
  predicate WellFormed(t: Table) {
    forall i | 0 <= i < |t.rows| :: |t.rows[i]| == |t.header|
  }

  /** The position of the first column called `name`, if any. */
  function Find(header: seq<string>, name: string): (r: Option<nat>)
    ensures r.None? <==> name !in header
    ensures r.Some? ==> r.value < |header| && header[r.value] == name
    ensures r.Some? ==> name !in header[..r.value]
  {
    if |header| == 0 then None
    else if header[0] == name then Some(0)
    else match Find(header[1..], name)
      case None => None
      case Some(k) =>
        assert header[1..][..k] == header[1..k + 1];
        Some(k + 1)
  }

  /** Column `j` holds at least one value. */
  predicate HasValue(t: Table, j: nat)
    requires WellFormed(t) && j < |t.header|
  {
    exists i | 0 <= i < |t.rows| :: t.rows[i][j].Some?
  }

  /** Column `j` holds no text value: every cell is a number or missing. */
  predicate Numeric(t: Table, j: nat)
    requires WellFormed(t) && j < |t.header|
  {
    forall i | 0 <= i < |t.rows| :: !t.rows[i][j].Some? || t.rows[i][j].value.Num?
  }

  /** Column `name` exists and its first occurrence holds no text. */
  predicate NumericColumn(t: Table, name: string)
    requires WellFormed(t)
  {
    name in t.header && Numeric(t, Find(t.header, name).value)
  }

  /** `r` has the header and the rows of `t`, and agrees with `t` outside column `j`. */
  predicate SameExceptColumn(t: Table, r: Table, j: nat)
    requires WellFormed(t)
  {
    && WellFormed(r)
    && r.header == t.header
    && |r.rows| == |t.rows|
    && (forall i, k | 0 <= i < |r.rows| && 0 <= k < |r.header| && k != j :: r.rows[i][k] == t.rows[i][k])
  }

  /** `r` is `t` with column `j` rewritten cell by cell by `f` and everything else kept. */
  predicate OnlyColumnChanged(t: Table, r: Table, j: nat, f: Cell -> Cell)
    requires WellFormed(t) && j < |t.header|
  {
    && SameExceptColumn(t, r, j)
    && (forall i | 0 <= i < |r.rows| :: r.rows[i][j] == f(t.rows[i][j]))
  }

  /** Column `j` of `r` holds, row by row, the cells of column `j` of `t`. */
  predicate SameColumn(t: Table, r: Table, j: nat)
    requires WellFormed(t) && WellFormed(r) && j < |t.header| && j < |r.header|
  {
    |r.rows| == |t.rows| && forall i | 0 <= i < |t.rows| :: r.rows[i][j] == t.rows[i][j]
  }

  /**
   A step confined to column `j` keeps every column of another name as it
   was, and with it whether that column is numeric.
   */
  lemma OtherColumnKept(t: Table, r: Table, j: nat, name: string)
    requires WellFormed(t) && SameExceptColumn(t, r, j) && j < |t.header| && t.header[j] != name
    ensures NumericColumn(r, name) == NumericColumn(t, name)
    ensures name in t.header ==> SameColumn(t, r, Find(t.header, name).value)
  {
  }

  /** `r` has the shape of `t` and every cell that held a value still holds one. */
  predicate KeepsValues(t: Table, r: Table)
    requires WellFormed(t)
  {
    && WellFormed(r)
    && r.header == t.header
    && |r.rows| == |t.rows|
    && (forall i, k | 0 <= i < |t.rows| && 0 <= k < |t.header| && t.rows[i][k].Some? :: r.rows[i][k].Some?)
  }

  /** Every column holds at least one value. */
  predicate NoEmptyColumn(t: Table)
    requires WellFormed(t)
  {
    forall k | 0 <= k < |t.header| :: HasValue(t, k)
  }

  /** Column `name`, when present, has no missing cell. */
  predicate NoneMissing(t: Table, name: string)
    requires WellFormed(t)
  {
    name in t.header ==>
      var j := Find(t.header, name).value;
      forall i | 0 <= i < |t.rows| :: t.rows[i][j].Some?
  }

  /** A step that keeps every value keeps a complete column complete. */
  lemma KeepsValuesNoneMissing(t: Table, r: Table, name: string)
    requires WellFormed(t) && KeepsValues(t, r) && NoneMissing(t, name)
    ensures NoneMissing(r, name)
  {
  }

  /** Keeping values composes. */
  lemma KeepsValuesTransitive(t: Table, s: Table, r: Table)
    requires WellFormed(t) && KeepsValues(t, s) && KeepsValues(s, r)
    ensures KeepsValues(t, r)
  {
  }

  /** A step that keeps every value cannot empty a column. */
  lemma KeepsValuesNoEmptyColumn(t: Table, r: Table)
    requires WellFormed(t) && KeepsValues(t, r) && NoEmptyColumn(t)
    ensures NoEmptyColumn(r)
  {
    forall k | 0 <= k < |r.header|
      ensures HasValue(r, k)
    {
      assert HasValue(t, k);
      var i :| 0 <= i < |t.rows| && t.rows[i][k].Some?;
      assert r.rows[i][k].Some?;
    }
  }

  /** Moving the head of `todo` over to `done` keeps their concatenation. */
  lemma ShiftHead(done: seq<string>, todo: seq<string>)
    requires |todo| > 0
    ensures done + [todo[0]] + todo[1..] == done + todo
  {
    assert todo == [todo[0]] + todo[1..];
  }

  /** Rewrite column `j` cell by cell. */
  function MapColumn(t: Table, j: nat, f: Cell -> Cell): (r: Table)
    requires WellFormed(t) && j < |t.header|
    ensures OnlyColumnChanged(t, r, j, f)
  {
    Table(t.header, seq(|t.rows|, i requires 0 <= i < |t.rows| => t.rows[i][j := f(t.rows[i][j])]))
  }

  /** `fillna(v)` on column `j`: missing cells receive `v`, present cells are kept. */
  function FillColumn(t: Table, j: nat, v: Value): (r: Table)
    requires WellFormed(t) && j < |t.header|
    ensures SameExceptColumn(t, r, j)
    ensures forall i | 0 <= i < |t.rows| && t.rows[i][j].Some? :: r.rows[i][j] == t.rows[i][j]
    ensures forall i | 0 <= i < |t.rows| && t.rows[i][j].None? :: r.rows[i][j] == Some(v)
  {
    MapColumn(t, j, (c: Cell) => if c.None? then Some(v) else c)
  }

  /** The numbers held by the cells of `cells`, in order; missing and text cells are skipped. */
  function Numbers(cells: seq<Cell>): (xs: seq<real>)
    ensures |xs| <= |cells|
    ensures forall x :: x in xs <==> Some(Num(x)) in cells
  {
    if |cells| == 0 then []
    else
      var rest := Numbers(cells[1..]);
      assert forall c :: c in cells <==> c == cells[0] || c in cells[1..];
      if cells[0].Some? && cells[0].value.Num? then [cells[0].value.num] + rest else rest
  }

  /**
   `Numbers` keeps repetitions: each number occurs in the result as often as
   a cell holding it occurs in `cells`.
   */
  lemma {:induction false} NumbersCount(cells: seq<Cell>)
    ensures forall x :: multiset(Numbers(cells))[x] == multiset(cells)[Some(Num(x))]
  {
    if |cells| > 0 {
      NumbersCount(cells[1..]);
      assert cells == [cells[0]] + cells[1..];
      assert forall c :: multiset(cells)[c] == multiset([cells[0]])[c] + multiset(cells[1..])[c];
    }
  }

  /** The values held by the cells of `cells`, in order; missing cells are skipped. */
  function Present(cells: seq<Cell>): (vs: seq<Value>)
    ensures |vs| <= |cells|
    ensures forall v :: v in vs <==> Some(v) in cells
  {
    if |cells| == 0 then []
    else
      var rest := Present(cells[1..]);
      assert forall c :: c in cells <==> c == cells[0] || c in cells[1..];
      if cells[0].Some? then [cells[0].value] + rest else rest
  }

  /** Column `j` as a sequence of cells. */
  function Column(t: Table, j: nat): (c: seq<Cell>)
    requires WellFormed(t) && j < |t.header|
    ensures |c| == |t.rows|
    ensures forall i | 0 <= i < |t.rows| :: c[i] == t.rows[i][j]
  {
    seq(|t.rows|, i requires 0 <= i < |t.rows| => t.rows[i][j])
  }
}
