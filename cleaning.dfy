/**
 * Price cleaning (`load_and_process_data` after the CSV read): flatten the
 * two-level (ticker, field) header, keep the `Close` columns, forward-fill
 * gaps and drop the rows that are still incomplete.
 */
module Cleaning {
  import opened Wrappers
  import opened Tables

  /** The frame as downloaded: a two-level (ticker, field) header over the rows. */
  datatype RawTable = RawTable(index: seq<int>, header: seq<(string, string)>, rows: seq<Row>)

  /** One date per row and one cell per header column. */
  ghost predicate RawWellFormed(raw: RawTable) {
    |raw.index| == |raw.rows| && Rectangular(raw.rows, |raw.header|)
  }

  // ---------------------------------------------------------------------------
  // Column flattening

  /** The one-level label of a (ticker, field) column, `ticker_field`. */
  function FlatName(ticker: string, field: string): (name: string) {
    ticker + "_" + field
  }

  /** One label per header column, in header order. */
  function Flatten(header: seq<(string, string)>): (names: seq<string>)
    ensures |names| == |header|
    ensures forall i :: 0 <= i < |header| ==> names[i] == FlatName(header[i].0, header[i].1)
  {
    seq(|header|, i requires 0 <= i < |header| => FlatName(header[i].0, header[i].1))
  }

  /** Splits a label at its first underscore: the inverse of `FlatName`. */
  function SplitName(s: string): (parts: (string, string)) {
    if |s| == 0 then ("", "")
    else if s[0] == '_' then ("", s[1..])
    else
      var rest := SplitName(s[1..]);
      ([s[0]] + rest.0, rest.1)
  }

  /** A ticker without an underscore can be read back from its flattened label. */
  lemma {:induction false} SplitFlatName(ticker: string, field: string)
    requires '_' !in ticker
    ensures SplitName(FlatName(ticker, field)) == (ticker, field)
  {
    if |ticker| > 0 {
      SplitFlatName(ticker[1..], field);
      assert FlatName(ticker, field) == [ticker[0]] + FlatName(ticker[1..], field);
      assert FlatName(ticker, field)[1..] == FlatName(ticker[1..], field);
      assert [ticker[0]] + ticker[1..] == ticker;
    } else {
      assert FlatName(ticker, field) == "_" + field;
    }
  }

  /**
   * When no ticker contains an underscore, distinct header columns get
   * distinct labels, so a label names exactly one column.
   */
  lemma FlattenInjective(header: seq<(string, string)>)
    requires forall i :: 0 <= i < |header| ==> '_' !in header[i].0
    requires forall i, k :: 0 <= i < k < |header| ==> header[i] != header[k]
    ensures forall i, k :: 0 <= i < k < |header| ==> Flatten(header)[i] != Flatten(header)[k]
  {
    var names := Flatten(header);
    forall i, k | 0 <= i < k < |header| ensures names[i] != names[k] {
      SplitFlatName(header[i].0, header[i].1);
      SplitFlatName(header[k].0, header[k].1);
    }
  }

  // ---------------------------------------------------------------------------
  // The Close filter

  /** `p in s` for strings: `p` occurs in `s` at some offset. */
  predicate Contains(s: string, p: string)
    ensures Contains(s, p) ==> |p| <= |s|
    decreases |s|
  {
    (|p| <= |s| && s[..|p|] == p) || (|s| > 0 && Contains(s[1..], p))
  }

  /** `p` occurs in `s` starting at offset `k`. */
  ghost predicate OccursAt(s: string, p: string, k: nat) {
    k + |p| <= |s| && s[k..k + |p|] == p
  }

  /** `Contains` is substring occurrence. */
  lemma {:induction false} ContainsIff(s: string, p: string)
    ensures Contains(s, p) <==> exists k: nat :: OccursAt(s, p, k)
  {
    if |s| > 0 {
      ContainsIff(s[1..], p);
      if Contains(s[1..], p) {
        var k: nat :| OccursAt(s[1..], p, k);
        assert s[k + 1..k + 1 + |p|] == s[1..][k..k + |p|];
        assert OccursAt(s, p, k + 1);
      }
      if |p| <= |s| && s[..|p|] == p {
        assert OccursAt(s, p, 0);
      }
      if k: nat :| OccursAt(s, p, k) {
        if k > 0 {
          assert s[1..][k - 1..k - 1 + |p|] == s[k..k + |p|];
          assert OccursAt(s[1..], p, k - 1);
        }
      }
    } else {
      if |p| == 0 {
        assert OccursAt(s, p, 0);
      }
      if k: nat :| OccursAt(s, p, k) {
        assert |p| == 0 && s[..|p|] == p;
      }
    }
  }

  /** The positions of the columns whose label contains `Close`. */
  function CloseColumns(names: seq<string>): (p: seq<nat>)
    ensures forall k :: 0 <= k < |p| ==> p[k] < |names| && Contains(names[p[k]], "Close")
    ensures forall k, l :: 0 <= k < l < |p| ==> p[k] < p[l]
    ensures forall j :: 0 <= j < |names| && Contains(names[j], "Close") ==> j in p
  {
    Positions(seq(|names|, j requires 0 <= j < |names| => Contains(names[j], "Close")), 0)
  }

  /**
   * `df[[c for c in df.columns if 'Close' in c]]`: exactly the columns whose
   * label contains `Close`, in their original order, cells untouched.
   */
  function CloseFilter(t: Table): (r: Table)
    requires WellFormed(t)
    ensures WellFormed(r) && r.index == t.index && |r.rows| == |t.rows|
    ensures forall k :: 0 <= k < |r.names| ==> Contains(r.names[k], "Close")
    ensures |r.names| == |CloseColumns(t.names)|
    ensures forall k :: 0 <= k < |r.names| ==> r.names[k] == t.names[CloseColumns(t.names)[k]]
    ensures forall i, k :: 0 <= i < |r.rows| && 0 <= k < |r.names| ==>
              r.rows[i][k] == t.rows[i][CloseColumns(t.names)[k]]
  {
    Project(t, CloseColumns(t.names))
  }

  /**
   * With distinct labels, keeping the `Close` columns by position is the
   * same as selecting the list of `Close` labels, `df[close_cols]`.
   */
  lemma CloseFilterIsSelect(t: Table)
    requires WellFormed(t)
    requires forall i, k :: 0 <= i < k < |t.names| ==> t.names[i] != t.names[k]
    ensures var cols := Pick(t.names, CloseColumns(t.names));
            && (forall k :: 0 <= k < |cols| ==> cols[k] in t.names)
            && Select(t, cols) == CloseFilter(t)
  {
    var p := CloseColumns(t.names);
    var cols := Pick(t.names, p);
    forall k | 0 <= k < |cols| ensures cols[k] in t.names && IndexOf(t.names, cols[k]) == Some(p[k]) {
      assert cols[k] == t.names[p[k]];
      var r := IndexOf(t.names, cols[k]);
      assert r.Some? && t.names[r.value] == t.names[p[k]];
    }
    assert seq(|cols|, k requires 0 <= k < |cols| => IndexOf(t.names, cols[k]).value) == p;
  }

  // ---------------------------------------------------------------------------
  // Forward fill

  /**
   * The most recent present value of column `j` at or before row `i`, or
   * missing when the column has not been observed yet.
   */
  function LastObserved(rows: seq<Row>, w: nat, i: nat, j: nat): (c: Cell)
    requires Rectangular(rows, w) && i < |rows| && j < w
    ensures rows[i][j].Some? ==> c == rows[i][j]
    ensures c.None? <==> forall k :: 0 <= k <= i ==> rows[k][j].None?
    ensures c.Some? ==> exists k :: 0 <= k <= i && rows[k][j] == c &&
                          forall m :: k < m <= i ==> rows[m][j].None?
  {
    if rows[i][j].Some? then rows[i][j]
    else if i == 0 then None
    else LastObserved(rows, w, i - 1, j)
  }

  /** `df.ffill()` cell by cell. */
  function FFill(t: Table): (r: Table)
    requires WellFormed(t)
    ensures WellFormed(r) && r.index == t.index && r.names == t.names && |r.rows| == |t.rows|
  {
    var w := |t.names|;
    Table(t.index, t.names,
      seq(|t.rows|, i requires 0 <= i < |t.rows| =>
        seq(w, j requires 0 <= j < w => LastObserved(t.rows, w, i, j))))
  }

  /** The row of values last seen in each column, filled into the gaps of `r`. */
  function Carry(last: Row, r: Row): (c: Row)
    requires |last| == |r|
  {
    seq(|r|, j requires 0 <= j < |r| => if r[j].Some? then r[j] else last[j])
  }

  /**
   * Carrying the previous filled row (nothing before the first row) into
   * row `i` gives filled row `i`.
   */
  lemma CarryStep(t: Table, i: nat, last: Row)
    requires WellFormed(t) && i < |t.rows|
    requires last == if i == 0 then seq(|t.names|, _ => None) else FFill(t).rows[i - 1]
    ensures Carry(last, t.rows[i]) == FFill(t).rows[i]
  {
    var w := |t.names|;
    forall j | 0 <= j < w ensures Carry(last, t.rows[i])[j] == FFill(t).rows[i][j] {
      assert FFill(t).rows[i][j] == LastObserved(t.rows, w, i, j);
      if i > 0 {
        assert last[j] == LastObserved(t.rows, w, i - 1, j);
      }
    }
  }

  /**
   * Forward fill as one pass over the rows, carrying the last value seen in
   * each column; the result is `FFill(t)`.
   */
  method ForwardFill(t: Table) returns (r: Table)
    requires WellFormed(t)
    ensures r == FFill(t)
  {
    var w := |t.names|;
    var last: Row := seq(w, _ => None);
    var filled: seq<Row> := [];
    var i := 0;
    while i < |t.rows|
      invariant 0 <= i <= |t.rows|
      invariant filled == FFill(t).rows[..i]
      invariant last == if i == 0 then seq(w, _ => None) else FFill(t).rows[i - 1]
    {
      CarryStep(t, i, last);
      last := Carry(last, t.rows[i]);
      filled := filled + [last];
      assert filled == FFill(t).rows[..i + 1];
      i := i + 1;
    }
    assert filled == FFill(t).rows;
    r := Table(t.index, t.names, filled);
  }

  // ---------------------------------------------------------------------------
  // dropna after ffill

  /** The first row at or after `lo` where column `j` is present, or `|rows|`. */
  function FirstObserved(rows: seq<Row>, w: nat, j: nat, lo: nat): (k: nat)
    requires Rectangular(rows, w) && j < w && lo <= |rows|
    ensures lo <= k <= |rows|
    ensures forall m :: lo <= m < k ==> rows[m][j].None?
    ensures k < |rows| ==> rows[k][j].Some?
    decreases |rows| - lo
  {
    if lo == |rows| then lo
    else if rows[lo][j].Some? then lo
    else FirstObserved(rows, w, j, lo + 1)
  }

  /**
   * The latest first observation among columns `0..c`: the first row from
   * which every one of them has been seen.
   */
  function WarmUp(rows: seq<Row>, w: nat, c: nat): (s: nat)
    requires Rectangular(rows, w) && c <= w
    ensures s <= |rows|
    ensures forall j :: 0 <= j < c ==> FirstObserved(rows, w, j, 0) <= s
    ensures c > 0 ==> exists j :: 0 <= j < c && FirstObserved(rows, w, j, 0) == s
  {
    if c == 0 then 0
    else
      var s0 := WarmUp(rows, w, c - 1);
      var f := FirstObserved(rows, w, c - 1, 0);
      if s0 < f then f else s0
  }

  /** The first row of `t` that survives `ffill` then `dropna`. */
  function Start(t: Table): (s: nat)
    requires WellFormed(t)
    ensures s <= |t.rows|
  {
    WarmUp(t.rows, |t.names|, |t.names|)
  }

  /** After forward fill, a row is complete iff every column has been observed by then. */
  lemma FFillCompleteIff(t: Table, i: nat)
    requires WellFormed(t) && i < |t.rows|
    ensures Complete(FFill(t).rows[i]) <==> Start(t) <= i
  {
    var w := |t.names|;
    var row := FFill(t).rows[i];
    if Complete(row) {
      forall j | 0 <= j < w ensures FirstObserved(t.rows, w, j, 0) <= i {
        assert row[j] == LastObserved(t.rows, w, i, j);
      }
      if w > 0 {
        var j :| 0 <= j < w && FirstObserved(t.rows, w, j, 0) == Start(t);
      }
    }
    if Start(t) <= i {
      forall j | 0 <= j < |row| ensures row[j].Some? {
        var f := FirstObserved(t.rows, w, j, 0);
        assert row[j] == LastObserved(t.rows, w, i, j);
        assert t.rows[f][j].Some?;
      }
    }
  }

  /** `df.ffill().dropna()`. */
  function Cleaned(t: Table): (r: Table)
    requires WellFormed(t)
    ensures WellFormed(r) && r.names == t.names && GapFree(r)
  {
    DropNa(FFill(t))
  }

  /**
   * `ffill` then `dropna` keeps a contiguous suffix of the rows, from the
   * latest first observation of any column on, with no cell missing; every
   * row before it is dropped.
   */
  lemma CleanedIsSuffix(t: Table)
    requires WellFormed(t)
    ensures WellFormed(Cleaned(t)) && GapFree(Cleaned(t)) && Cleaned(t).names == t.names
    ensures Cleaned(t).rows == FFill(t).rows[Start(t)..]
    ensures Cleaned(t).index == t.index[Start(t)..]
  {
    var f := FFill(t);
    var flags := CompleteFlags(f.rows);
    forall i | 0 <= i < |flags| ensures flags[i] <==> Start(t) <= i {
      FFillCompleteIff(t, i);
    }
    PositionsOfUpwardClosed(flags, Start(t), 0);
    PickRange(f.rows, Start(t));
    PickRange(f.index, Start(t));
  }

  /** Cleaning keeps dates strictly increasing. */
  lemma CleanedChronological(t: Table)
    requires WellFormed(t) && Chronological(t.index)
    ensures Chronological(Cleaned(t).index)
  {
    CleanedIsSuffix(t);
  }

  /**
   * The pure part of `load_and_process_data`: flatten, keep `Close` columns,
   * forward-fill, drop incomplete rows.
   */
  method LoadAndProcess(raw: RawTable) returns (r: Table)
    requires RawWellFormed(raw)
    ensures var closes := CloseFilter(Table(raw.index, Flatten(raw.header), raw.rows));
            && r == Cleaned(closes)
            && r.names == closes.names
            && r.index == raw.index[Start(closes)..]
            && r.rows == FFill(closes).rows[Start(closes)..]
            && GapFree(r)
  {
    var t := Table(raw.index, Flatten(raw.header), raw.rows);
    var closes := CloseFilter(t);
    var filled := ForwardFill(closes);
    r := DropNa(filled);
    CleanedIsSuffix(closes);
  }
}
