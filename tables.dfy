/**
 * A single-level-header data frame as the core uses it: a date index, column
 * labels and row-major cells, each a present real or a missing value (NaN).
 * The operations are the handful of frame primitives the core relies on:
 * reading a column, assigning a column, selecting columns, `dropna`, slicing.
 */
module Tables {
  import opened Wrappers

  type Cell = Option<real>
  type Row = seq<Cell>

  /** A frame: one date per row in `index`, one label per column in `names`. */
  datatype Table = Table(index: seq<int>, names: seq<string>, rows: seq<Row>)

  /** Every row has `w` cells. */
  ghost predicate Rectangular(rows: seq<Row>, w: nat) {
    forall i :: 0 <= i < |rows| ==> |rows[i]| == w
  }

  /** Every row has one date and one cell per column. */
  ghost predicate WellFormed(t: Table) {
    |t.index| == |t.rows| && Rectangular(t.rows, |t.names|)
  }

  /** A row with no missing cell. */
  predicate Complete(r: Row) {
    forall j :: 0 <= j < |r| ==> r[j].Some?
  }

  /** Dates strictly increase: the index is a time series with no duplicate dates. */
  ghost predicate Chronological(index: seq<int>) {
    forall i, k :: 0 <= i < k < |index| ==> index[i] < index[k]
  }

  /** A table every cell of which is present. */
  ghost predicate GapFree(t: Table) {
    forall i :: 0 <= i < |t.rows| ==> Complete(t.rows[i])
  }

  // ---------------------------------------------------------------------------
  // Positions and picking

  /** The positions at or after `lo` where `keep` holds, in ascending order. */
  function Positions(keep: seq<bool>, lo: nat): (p: seq<nat>)
    ensures forall k :: 0 <= k < |p| ==> lo <= p[k] < |keep| && keep[p[k]]
    ensures forall k, l :: 0 <= k < l < |p| ==> p[k] < p[l]
    ensures forall i :: lo <= i < |keep| && keep[i] ==> i in p
    decreases |keep| - lo
  {
    if lo >= |keep| then []
    else if keep[lo] then [lo] + Positions(keep, lo + 1)
    else Positions(keep, lo + 1)
  }

  /** The ascending run lo, lo+1, ..., hi-1. */
  function Range(lo: nat, hi: nat): (p: seq<nat>)
    ensures |p| == if lo <= hi then hi - lo else 0
    ensures forall k :: 0 <= k < |p| ==> p[k] == lo + k
    decreases hi - lo
  {
    if lo >= hi then [] else [lo] + Range(lo + 1, hi)
  }

  /** The elements of `s` at positions `p`, in the order of `p`. */
  function Pick<T>(s: seq<T>, p: seq<nat>): (r: seq<T>)
    requires forall k :: 0 <= k < |p| ==> p[k] < |s|
    ensures |r| == |p| && forall k :: 0 <= k < |p| ==> r[k] == s[p[k]]
  {
    seq(|p|, k requires 0 <= k < |p| => s[p[k]])
  }

  /**
   * When `keep` holds exactly from position `start` on, the kept positions
   * from `lo` are one contiguous run up to the end.
   */
  lemma {:induction false} PositionsOfUpwardClosed(keep: seq<bool>, start: nat, lo: nat)
    requires forall i :: 0 <= i < |keep| ==> (keep[i] <==> start <= i)
    ensures Positions(keep, lo) == Range(if lo < start then start else lo, |keep|)
    decreases |keep| - lo
  {
    if lo < |keep| {
      PositionsOfUpwardClosed(keep, start, lo + 1);
      if keep[lo] {
        assert Range(lo, |keep|) == [lo] + Range(lo + 1, |keep|);
      } else {
        assert lo + 1 <= start;
      }
    }
  }

  lemma PickRange<T>(s: seq<T>, lo: nat)
    requires lo <= |s|
    ensures Pick(s, Range(lo, |s|)) == s[lo..]
  {
  }

  // ---------------------------------------------------------------------------
  // Columns

  /** The position of the first column labelled `name`, if any. */
  function IndexOf(names: seq<string>, name: string): (r: Option<nat>)
    ensures r.None? <==> name !in names
    ensures r.Some? ==> r.value < |names| && names[r.value] == name
    ensures r.Some? ==> forall k :: 0 <= k < r.value ==> names[k] != name
  {
    if |names| == 0 then None
    else if names[0] == name then Some(0)
    else match IndexOf(names[1..], name)
      case None => None
      case Some(k) => Some(k + 1)
  }

  /** The cells of column `j`, top to bottom. */
  function ColumnAt(t: Table, j: nat): (c: seq<Cell>)
    requires WellFormed(t) && j < |t.names|
    ensures |c| == |t.rows| && forall i :: 0 <= i < |t.rows| ==> c[i] == t.rows[i][j]
  {
    seq(|t.rows|, i requires 0 <= i < |t.rows| => t.rows[i][j])
  }

  /** `df[name]`: the first column labelled `name`. */
  function Column(t: Table, name: string): (c: seq<Cell>)
    requires WellFormed(t) && name in t.names
    ensures |c| == |t.rows|
    ensures forall i :: 0 <= i < |t.rows| ==> c[i] == t.rows[i][IndexOf(t.names, name).value]
  {
    ColumnAt(t, IndexOf(t.names, name).value)
  }

  /**
   * `df[name] = col`: every column labelled `name` is overwritten in place;
   * when there is none, a new column is appended at the right.
   */
  function WithColumn(t: Table, name: string, col: seq<Cell>): (r: Table)
    requires WellFormed(t) && |col| == |t.rows|
    ensures WellFormed(r) && r.index == t.index && |r.rows| == |t.rows|
    ensures r.names == if name in t.names then t.names else t.names + [name]
    ensures forall i, j :: 0 <= i < |r.rows| && 0 <= j < |r.names| ==>
              r.rows[i][j] == if r.names[j] == name then col[i] else t.rows[i][j]
  {
    if name in t.names then
      var rows := seq(|t.rows|, i requires 0 <= i < |t.rows| =>
                    seq(|t.names|, j requires 0 <= j < |t.names| =>
                      if t.names[j] == name then col[i] else t.rows[i][j]));
      Table(t.index, t.names, rows)
    else
      Table(t.index, t.names + [name], seq(|t.rows|, i requires 0 <= i < |t.rows| => t.rows[i] + [col[i]]))
  }

  /** A row of the assigned table is complete iff the new cell is present and so is every untouched cell. */
  lemma CompleteWithColumn(t: Table, name: string, col: seq<Cell>, i: nat)
    requires WellFormed(t) && |col| == |t.rows| && i < |t.rows|
    ensures Complete(WithColumn(t, name, col).rows[i]) <==>
              col[i].Some? && forall j :: 0 <= j < |t.names| && t.names[j] != name ==> t.rows[i][j].Some?
  {
    var r := WithColumn(t, name, col);
    if !(name in t.names) {
      var row := r.rows[i];
      assert row == t.rows[i] + [col[i]];
      assert forall j :: 0 <= j < |t.names| ==> t.names[j] != name;
      if Complete(row) {
        assert row[|t.names|] == col[i];
        assert forall j :: 0 <= j < |t.names| ==> row[j] == t.rows[i][j];
      }
      if col[i].Some? && forall j :: 0 <= j < |t.names| ==> t.rows[i][j].Some? {
        forall j | 0 <= j < |row| ensures row[j].Some? {
          if j < |t.names| { assert row[j] == t.rows[i][j]; }
        }
      }
    } else {
      var j :| 0 <= j < |t.names| && t.names[j] == name;
      assert r.rows[i][j] == col[i];
    }
  }

  /** Reading back a label just assigned gives the assigned column. */
  lemma ColumnAfterAssign(t: Table, name: string, col: seq<Cell>)
    requires WellFormed(t) && |col| == |t.rows|
    ensures name in WithColumn(t, name, col).names
    ensures Column(WithColumn(t, name, col), name) == col
  {
    var r := WithColumn(t, name, col);
    if name !in t.names {
      assert r.names[|t.names|] == name;
    }
  }

  /** Assigning one label does not change the column read under another. */
  lemma ColumnOfOtherLabel(t: Table, name: string, col: seq<Cell>, other: string)
    requires WellFormed(t) && |col| == |t.rows| && other in t.names && other != name
    ensures other in WithColumn(t, name, col).names
    ensures Column(WithColumn(t, name, col), other) == Column(t, other)
  {
    var r := WithColumn(t, name, col);
    assert IndexOf(r.names, other) == IndexOf(t.names, other) by {
      if name !in t.names {
        assert r.names == t.names + [name];
        IndexOfAppend(t.names, name, other);
      }
    }
  }

  lemma {:induction false} IndexOfAppend(names: seq<string>, extra: string, name: string)
    requires name in names
    ensures IndexOf(names + [extra], name) == IndexOf(names, name)
  {
    if names[0] != name {
      assert (names + [extra])[1..] == names[1..] + [extra];
      IndexOfAppend(names[1..], extra, name);
    }
  }

  /** Appending a column keeps a row complete iff the new cell is present. */
  lemma CompleteWithNewColumn(t: Table, name: string, col: seq<Cell>, i: nat)
    requires WellFormed(t) && |col| == |t.rows| && i < |t.rows| && name !in t.names
    ensures Complete(WithColumn(t, name, col).rows[i]) <==> col[i].Some? && Complete(t.rows[i])
  {
    CompleteWithColumn(t, name, col, i);
  }

  /** The columns at positions `p`, in that order, with the cells untouched. */
  function Project(t: Table, p: seq<nat>): (r: Table)
    requires WellFormed(t) && forall k :: 0 <= k < |p| ==> p[k] < |t.names|
    ensures WellFormed(r) && r.index == t.index && |r.rows| == |t.rows|
    ensures r.names == Pick(t.names, p)
    ensures forall i, k :: 0 <= i < |r.rows| && 0 <= k < |p| ==> r.rows[i][k] == t.rows[i][p[k]]
  {
    Table(t.index, Pick(t.names, p), seq(|t.rows|, i requires 0 <= i < |t.rows| => Pick(t.rows[i], p)))
  }

  /** `df[cols]`: the first column of each label in `cols`, in the order of `cols`. */
  function Select(t: Table, cols: seq<string>): (r: Table)
    requires WellFormed(t) && forall k :: 0 <= k < |cols| ==> cols[k] in t.names
    ensures WellFormed(r) && r.index == t.index && |r.rows| == |t.rows| && r.names == cols
    ensures forall i, k :: 0 <= i < |r.rows| && 0 <= k < |cols| ==>
              r.rows[i][k] == Column(t, cols[k])[i]
  {
    var p := seq(|cols|, k requires 0 <= k < |cols| => IndexOf(t.names, cols[k]).value);
    Project(t, p)
  }

  // ---------------------------------------------------------------------------
  // dropna

  /** Which rows have every cell present. */
  function CompleteFlags(rows: seq<Row>): (f: seq<bool>)
    ensures |f| == |rows| && forall i :: 0 <= i < |rows| ==> (f[i] <==> Complete(rows[i]))
  {
    seq(|rows|, i requires 0 <= i < |rows| => Complete(rows[i]))
  }

  /** The positions of the rows `dropna` keeps. */
  function Kept(t: Table): (p: seq<nat>)
    ensures forall k :: 0 <= k < |p| ==> p[k] < |t.rows| && Complete(t.rows[p[k]])
    ensures forall k, l :: 0 <= k < l < |p| ==> p[k] < p[l]
    ensures forall i :: 0 <= i < |t.rows| && Complete(t.rows[i]) ==> i in p
  {
    Positions(CompleteFlags(t.rows), 0)
  }

  /**
   * `df.dropna()`: the rows with no missing cell, in their original order,
   * with their dates; the columns are unchanged.
   */
  function DropNa(t: Table): (r: Table)
    requires WellFormed(t)
    ensures WellFormed(r) && r.names == t.names && GapFree(r)
    ensures r.rows == Pick(t.rows, Kept(t)) && r.index == Pick(t.index, Kept(t))
  {
    var p := Kept(t);
    Table(Pick(t.index, p), t.names, Pick(t.rows, p))
  }

  /** Dropping incomplete rows keeps dates strictly increasing. */
  lemma DropNaChronological(t: Table)
    requires WellFormed(t) && Chronological(t.index)
    ensures Chronological(DropNa(t).index)
  {
  }

  /** A table with no gap is its own `dropna`. */
  lemma {:induction false} DropNaOfGapFree(t: Table)
    requires WellFormed(t) && GapFree(t)
    ensures DropNa(t) == t
  {
    var flags := CompleteFlags(t.rows);
    PositionsOfUpwardClosed(flags, 0, 0);
    PickRange(t.rows, 0);
    PickRange(t.index, 0);
  }

  /** `dropna` is idempotent. */
  lemma DropNaIdempotent(t: Table)
    requires WellFormed(t)
    ensures DropNa(DropNa(t)) == DropNa(t)
  {
    DropNaOfGapFree(DropNa(t));
  }

  // ---------------------------------------------------------------------------
  // The frame as a mutable object

  /**
   * A data frame object. Assigning a column changes the object itself, so
   * every holder of a reference sees the new column.
   */
  class Frame {
    var index: seq<int>
    var names: seq<string>
    var rows: seq<Row>

    /** The frame's current contents as a value. */
    function Value(): (t: Table)
      reads this
    {
      Table(index, names, rows)
    }

    ghost predicate Valid()
      reads this
    {
      WellFormed(Value())
    }

    constructor (t: Table)
      requires WellFormed(t)
      ensures Valid() && Value() == t
    {
      index, names, rows := t.index, t.names, t.rows;
    }

    /** `df[name] = col`, in place. */
    method Assign(name: string, col: seq<Cell>)
      requires Valid() && |col| == |rows|
      modifies this
      ensures Valid() && Value() == WithColumn(old(Value()), name, col)
    {
      var t := WithColumn(Value(), name, col);
      index, names, rows := t.index, t.names, t.rows;
    }

    /** `df.dropna()`: a new frame; this one is left as it is. */
    method DropNaCopy() returns (r: Frame)
      requires Valid()
      ensures fresh(r) && r.Valid() && r.Value() == DropNa(Value())
    {
      r := new Frame(DropNa(Value()));
    }
  }
}
