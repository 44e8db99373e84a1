/** `fill_na`: missing values in the target columns are either dropped,
    together with their rows, or replaced by the column mean, in place. The
    mean itself is computed by pandas and is a parameter here. */
module Filling {
  import opened Tables
  import opened Columns

  /** Row `i` has a value in every target column. */
  predicate RowComplete(t: Table, targets: seq<string>, i: nat)
    requires t.Valid() && i < |t.index|
    requires forall n | n in targets :: n in t.cols
  {
    forall n | n in targets :: t.cols[n].cells[i].Present?
  }

  /** The positions below `k` of the rows that `dropna` keeps, in increasing
      order: exactly the complete ones. */
  function CompleteRows(t: Table, targets: seq<string>, k: nat): (r: seq<nat>)
    requires t.Valid() && k <= |t.index|
    requires forall n | n in targets :: n in t.cols
    ensures Increasing(r)
    ensures forall i | 0 <= i < |r| :: r[i] < k
    ensures forall j: nat :: j in r <==> j < k && RowComplete(t, targets, j)
  {
    if k == 0 then []
    else
      var r := CompleteRows(t, targets, k - 1);
      if RowComplete(t, targets, k - 1) then r + [k - 1] else r
  }

  /** When every row below `k` is complete, all of them are kept. */
  lemma {:induction false} AllRowsComplete(t: Table, targets: seq<string>, k: nat)
    requires t.Valid() && k <= |t.index|
    requires forall n | n in targets :: n in t.cols
    requires forall j | 0 <= j < k :: RowComplete(t, targets, j)
    ensures CompleteRows(t, targets, k) == seq(k, i => i)
  {
    if k > 0 {
      AllRowsComplete(t, targets, k - 1);
      assert seq(k, i => i) == seq(k - 1, i => i) + [k - 1];
    }
  }

  /** `out` is `t` reduced to the rows at the positions `kept`: same columns
      in the same order, each row carrying all its cells and its label. */
  ghost predicate RowsKept(t: Table, kept: seq<nat>, out: Table)
    requires t.Valid()
  {
    && out.Valid() && out.names == t.names && |out.index| == |kept|
    && (forall i | 0 <= i < |kept| :: kept[i] < |t.index| && out.index[i] == t.index[kept[i]])
    && (forall n | n in t.cols :: out.cols[n].kind == t.cols[n].kind)
    && (forall n, i | n in t.cols && 0 <= i < |kept| :: out.cols[n].cells[i] == t.cols[n].cells[kept[i]])
  }

  /** The drop branch of `fill_na`: `df[column_list].dropna()` joined by
      label with the passthrough columns and put back into `df`'s column
      order. */
  function DropMissing(t: Table, targets: seq<string>): (r: Result<Table>)
    requires t.Valid() && Distinct(t.index) && Distinct(targets)
    ensures (forall n | n in targets :: n in t.cols) <==> r.Ok?
    ensures r.Err? ==>
      && r.error.MissingColumns?
      && forall n :: n in r.error.names <==> n in targets && n !in t.cols
    ensures r.Ok? ==>
      && RowsKept(t, CompleteRows(t, targets, |t.index|), r.value)
      && forall n, i | n in targets && 0 <= i < |r.value.index| :: r.value.cols[n].cells[i].Present?
  {
    var missing := Filter(targets, n => n !in t.cols);
    if missing != [] then
      assert missing[0] in missing;
      Err(MissingColumns(missing))
    else
      var kept := CompleteRows(t, targets, |t.index|);
      var out := Dropped(t, targets, kept);
      KeptRowsComplete(t, targets, out);
      Ok(out)
  }

  /** The successful drop: `df[targets]` restricted to the rows `kept`,
      joined by label with the other columns, in `df`'s column order. */
  function Dropped(t: Table, targets: seq<string>, kept: seq<nat>): (out: Table)
    requires t.Valid() && Distinct(t.index) && Distinct(targets)
    requires forall n | n in targets :: n in t.cols
    requires forall i | 0 <= i < |kept| :: kept[i] < |t.index|
    ensures RowsKept(t, kept, out)
  {
    var dropped := RowsAt(Select(t, targets), kept);
    var pass := SplitColumns(t.names, targets);
    var rest := Select(t, pass);
    var out := Select(LeftJoin(dropped, rest), t.names);
    DroppedColumns(t, targets, kept, dropped, rest, out);
    out
  }

  lemma DroppedColumns(t: Table, targets: seq<string>, kept: seq<nat>, dropped: Table, rest: Table, out: Table)
    requires t.Valid() && Distinct(t.index) && Distinct(targets)
    requires forall n | n in targets :: n in t.cols
    requires forall i | 0 <= i < |kept| :: kept[i] < |t.index|
    requires dropped == RowsAt(Select(t, targets), kept)
    requires rest == Select(t, SplitColumns(t.names, targets))
    requires out == Select(LeftJoin(dropped, rest), t.names)
    ensures RowsKept(t, kept, out)
  {
    var joined := LeftJoin(dropped, rest);
    forall n | n in t.cols ensures out.cols[n] == Pick(t.cols[n], kept) {
      if n in targets {
        assert out.cols[n] == dropped.cols[n];
      } else {
        assert out.cols[n] == Realign(rest.cols[n], rest.index, dropped.index);
        RealignPicked(t.cols[n], t.index, kept, dropped.index);
      }
    }
  }

  /** After the drop, no target cell is missing. */
  lemma KeptRowsComplete(t: Table, targets: seq<string>, out: Table)
    requires t.Valid() && forall n | n in targets :: n in t.cols
    requires RowsKept(t, CompleteRows(t, targets, |t.index|), out)
    ensures forall n, i | n in targets && 0 <= i < |out.index| :: out.cols[n].cells[i].Present?
  {
    var kept := CompleteRows(t, targets, |t.index|);
    forall n, i | n in targets && 0 <= i < |out.index| ensures out.cols[n].cells[i].Present? {
      assert kept[i] in kept;
      assert RowComplete(t, targets, kept[i]);
    }
  }

  /** Dropping again changes nothing. */
  lemma DropMissingIdempotent(t: Table, targets: seq<string>)
    requires t.Valid() && Distinct(t.index) && Distinct(targets)
    requires DropMissing(t, targets).Ok?
    ensures var out := DropMissing(t, targets).value;
      Distinct(out.index) && DropMissing(out, targets) == Ok(out)
  {
    var out := DropMissing(t, targets).value;
    var kept := CompleteRows(t, targets, |t.index|);
    assert Distinct(out.index) by {
      forall i, j | 0 <= i < j < |out.index| ensures out.index[i] != out.index[j] {
        assert kept[i] < kept[j];
      }
    }
    assert forall j | 0 <= j < |out.index| :: RowComplete(out, targets, j);
    AllRowsComplete(out, targets, |out.index|);
    KeepingAllRows(out, DropMissing(out, targets).value);
  }

  /** A table with no missing target cell comes back unchanged from a drop. */
  lemma DropMissingNothingMissing(t: Table, targets: seq<string>)
    requires t.Valid() && Distinct(t.index) && Distinct(targets)
    requires forall n | n in targets :: n in t.cols
    requires forall n, i | n in targets && 0 <= i < |t.index| :: t.cols[n].cells[i].Present?
    ensures DropMissing(t, targets) == Ok(t)
  {
    assert forall j | 0 <= j < |t.index| :: RowComplete(t, targets, j);
    AllRowsComplete(t, targets, |t.index|);
    KeepingAllRows(t, DropMissing(t, targets).value);
  }

  /** Keeping every row, in order, gives the table back. */
  lemma KeepingAllRows(t: Table, out: Table)
    requires t.Valid() && RowsKept(t, seq(|t.index|, i => i), out)
    ensures out == t
  {
    var all := seq(|t.index|, i => i);
    forall n | n in t.cols ensures out.cols[n] == t.cols[n] {
      assert |out.cols[n].cells| == |t.cols[n].cells|;
      forall i | 0 <= i < |t.index| ensures out.cols[n].cells[i] == t.cols[n].cells[i] {
        assert all[i] == i;
      }
    }
    assert out.cols == t.cols;
    assert out.index == t.index by {
      forall i | 0 <= i < |t.index| ensures out.index[i] == t.index[i] {
        assert all[i] == i;
      }
    }
  }

  /** Column `c` with every missing cell replaced by `v`. */
  function FillColumn(c: Column, v: Cell): (r: Column)
    ensures r.kind == c.kind && |r.cells| == |c.cells|
    ensures forall i | 0 <= i < |c.cells| :: r.cells[i] == if c.cells[i].Missing? then v else c.cells[i]
  {
    Column(c.kind, seq(|c.cells|, i requires 0 <= i < |c.cells| =>
      if c.cells[i].Missing? then v else c.cells[i]))
  }

  /** `df.fillna(value=fills)`: each column named in `fills` gets its missing
      cells replaced by that column's fill value; other columns are left as
      they are. */
  function Filled(t: Table, fills: map<string, Cell>): (r: Table)
    requires t.Valid()
    ensures r.Valid() && r.names == t.names && r.index == t.index
    ensures forall n | n in t.cols ::
      r.cols[n] == if n in fills then FillColumn(t.cols[n], fills[n]) else t.cols[n]
  {
    Table(t.names, map n | n in t.cols ::
      if n in fills then FillColumn(t.cols[n], fills[n]) else t.cols[n], t.index)
  }

  /** Filling touches only cells that were missing, in columns named in
      `fills`; a column with a present fill value has no missing cell left. */
  lemma FilledChangesOnlyMissing(t: Table, fills: map<string, Cell>)
    requires t.Valid()
    ensures var r := Filled(t, fills);
      && (forall n, i | n in t.cols && 0 <= i < |t.index| && r.cols[n].cells[i] != t.cols[n].cells[i] ::
            n in fills && t.cols[n].cells[i].Missing? && r.cols[n].cells[i] == fills[n])
      && (forall n, i | n in fills && n in t.cols && fills[n].Present? && 0 <= i < |t.index| ::
            r.cols[n].cells[i].Present?)
  {
  }

  /** Filling twice with the same values is filling once. */
  lemma FilledIdempotent(t: Table, fills: map<string, Cell>)
    requires t.Valid()
    ensures Filled(Filled(t, fills), fills) == Filled(t, fills)
  {
    var once := Filled(t, fills);
    var twice := Filled(once, fills);
    forall n | n in once.cols ensures twice.cols[n] == once.cols[n] {
      if n in fills {
        assert twice.cols[n].cells == once.cols[n].cells;
      }
    }
    assert twice.cols == once.cols;
  }

  /** The fill values of the mean branch: the mean of each numeric target
      column (`df[column_list].select_dtypes(numerics).mean()`); a missing
      value is the NaN mean of a column with no values. */
  function MeanFills(t: Table, targets: seq<string>, mean: Column -> Cell): (fills: map<string, Cell>)
    requires t.Valid() && forall n | n in targets :: n in t.cols
    ensures forall n :: n in fills <==> n in targets && t.cols[n].kind == Numeric
    ensures forall n | n in fills :: fills[n] == mean(t.cols[n])
  {
    map n | n in targets && t.cols[n].kind == Numeric :: mean(t.cols[n])
  }

  /** The table the mean branch of `fill_na` leaves behind and returns. */
  function FillMean(t: Table, targets: seq<string>, mean: Column -> Cell): (r: Result<Table>)
    requires t.Valid()
    ensures (forall n | n in targets :: n in t.cols) <==> r.Ok?
    ensures r.Err? ==>
      && r.error.MissingColumns?
      && forall n :: n in r.error.names <==> n in targets && n !in t.cols
    ensures r.Ok? ==>
      && r.value.Valid() && r.value.names == t.names && r.value.index == t.index
      && (forall n | n in t.cols :: r.value.cols[n].kind == t.cols[n].kind)
      && (forall n, i | n in t.cols && 0 <= i < |t.index| ::
            r.value.cols[n].cells[i] ==
              if n in targets && t.cols[n].kind == Numeric && t.cols[n].cells[i].Missing?
              then mean(t.cols[n]) else t.cols[n].cells[i])
  {
    var missing := Filter(targets, n => n !in t.cols);
    if missing != [] then
      assert missing[0] in missing;
      Err(MissingColumns(missing))
    else
      Ok(Filled(t, MeanFills(t, targets, mean)))
  }

  /** The columns `fill_na` works on: the given list, or else all columns. */
  function FillTargets(t: Table, columnList: Option<seq<string>>): (r: seq<string>)
    requires t.Valid()
    requires columnList.Some? ==> Distinct(columnList.value)
    ensures Distinct(r)
    ensures forall n :: n in r <==> if columnList.None? then n in t.cols else n in columnList.value
  {
    if columnList.None? then t.names else columnList.value
  }

  /** What `fill_na(df, mode, column_list)` returns, for the table `df`
      holds when it is called. A mode other than "drop" and "mean" fails,
      whatever the column list; "drop" needs distinct labels for its join. */
  function FillNaResult(t: Table, mode: string, columnList: Option<seq<string>>, mean: Column -> Cell): (r: Result<Table>)
    requires t.Valid()
    requires mode == "drop" ==> Distinct(t.index)
    requires columnList.Some? ==> Distinct(columnList.value)
    ensures mode != "drop" && mode != "mean" <==> r.Err? && r.error.InvalidMode?
    ensures r.Err? && r.error.InvalidMode? ==> r.error.mode == mode
    ensures mode == "drop" ==> r == DropMissing(t, FillTargets(t, columnList))
    ensures mode == "mean" ==> r == FillMean(t, FillTargets(t, columnList), mean)
  {
    var targets := FillTargets(t, columnList);
    if mode == "drop" then DropMissing(t, targets)
    else if mode == "mean" then FillMean(t, targets, mean)
    else Err(InvalidMode(mode))
  }

  /** With no column list, "drop" keeps exactly the rows without any missing
      cell and the result has no missing cell at all, whatever the mean. */
  lemma DropAllColumns(t: Table, mean: Column -> Cell)
    requires t.Valid() && Distinct(t.index)
    ensures var r := FillNaResult(t, "drop", None, mean);
      && r.Ok?
      && RowsKept(t, CompleteRows(t, t.names, |t.index|), r.value)
      && forall n, i | n in t.cols && 0 <= i < |r.value.index| :: r.value.cols[n].cells[i].Present?
  {
    assert FillTargets(t, None) == t.names;
  }

  /** A pandas DataFrame whose cells `fill_na` overwrites in place in its mean branch. */
  class Frame {
    var names: seq<string>
    var cols: map<string, Column>
    var index: seq<int>

    function Value(): Table
      reads this
    {
      Table(names, cols, index)
    }

    ghost predicate Valid()
      reads this
    {
      Value().Valid()
    }

    constructor (t: Table)
      requires t.Valid()
      ensures Valid() && Value() == t
    {
      names, cols, index := t.names, t.cols, t.index;
    }

    /** `self.fillna(value=fills, inplace=True)`: the columns are visited in
        order and each one named in `fills` has its missing cells replaced. */
    method FillMissing(fills: map<string, Cell>)
      requires Valid()
      modifies this
      ensures Valid() && Value() == Filled(old(Value()), fills)
    {
      var j := 0;
      while j < |names|
        invariant 0 <= j <= |names|
        invariant names == old(names) && index == old(index)
        invariant cols.Keys == old(cols).Keys
        invariant forall k | 0 <= k < |names| ::
          cols[names[k]] == if k < j && names[k] in fills then FillColumn(old(cols)[names[k]], fills[names[k]])
                            else old(cols)[names[k]]
      {
        var n := names[j];
        if n in fills {
          cols := cols[n := FillColumn(cols[n], fills[n])];
        }
        j := j + 1;
      }
      forall n | n in cols ensures cols[n] == Filled(old(Value()), fills).cols[n] {
        var k :| 0 <= k < |names| && names[k] == n;
      }
    }
  }

  /** `fill_na(df, mode, column_list)`, with `mean` standing for pandas'
      column mean. Returns a copy of the result (`df[df.columns]`); in the
      mean branch `df` itself has been filled as well. A bad mode or a
      missing column fails before anything is written. */
  method FillNa(df: Frame, mode: string, columnList: Option<seq<string>>, mean: Column -> Cell) returns (r: Result<Table>)
    requires df.Valid()
    requires mode == "drop" ==> Distinct(df.index)
    requires columnList.Some? ==> Distinct(columnList.value)
    modifies df
    ensures df.Valid()
    ensures r == FillNaResult(old(df.Value()), mode, columnList, mean)
    ensures df.Value() == if mode == "mean" && r.Ok? then r.value else old(df.Value())
  {
    var t := df.Value();
    var targets := FillTargets(t, columnList);
    if mode == "drop" {
      r := DropMissing(t, targets);
    } else if mode == "mean" {
      var missing := Filter(targets, n => n !in t.cols);
      if missing != [] {
        assert missing[0] in missing;
        r := Err(MissingColumns(missing));
      } else {
        var fills := MeanFills(t, targets, mean);
        df.FillMissing(fills);
        r := Ok(df.Value());
      }
    } else {
      r := Err(InvalidMode(mode));
    }
  }
}
