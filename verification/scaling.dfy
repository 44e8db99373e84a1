/** `scale_data`: the target columns go through scikit-learn's MinMaxScaler
    and are joined back onto the passthrough columns, then put back into the
    input's column order. The scaler's arithmetic is a parameter. */
module Scaling {
  import opened Tables
  import opened Columns

  /** What a MinMaxScaler with feature range `bounds`, fitted on column `c`,
      gives to the cell `x` of that column. Fitting is per column and the
      transform is per cell, so this is all of the scaler that the
      bookkeeping needs. */
  type Scaler = ((real, real), Column, Cell) -> Cell

  /** The columns to scale: the given list, or else every numeric-tagged
      column, in table order. */
  function ScaleTargets(t: Table, columnList: Option<seq<string>>): (r: seq<string>)
    requires t.Valid()
    requires columnList.Some? ==> Distinct(columnList.value)
    ensures Distinct(r)
    ensures columnList.Some? ==> r == columnList.value
    ensures columnList.None? ==> forall n :: n in r <==> n in t.cols && t.cols[n].kind == Numeric
  {
    if columnList.None? then Filter(t.names, n => n in t.cols && t.cols[n].kind == Numeric)
    else columnList.value
  }

  function ScaledColumn(c: Column, bounds: (real, real), scale: Scaler): (r: Column)
    ensures r.kind == Numeric && |r.cells| == |c.cells|
    ensures forall i | 0 <= i < |c.cells| :: r.cells[i] == scale(bounds, c, c.cells[i])
  {
    Column(Numeric, seq(|c.cells|, i requires 0 <= i < |c.cells| => scale(bounds, c, c.cells[i])))
  }

  /** The scaled target columns as a frame of their own, on the given labels. */
  function ScaledFrame(t: Table, targets: seq<string>, bounds: (real, real), scale: Scaler, labels: seq<int>): (r: Table)
    requires t.Valid() && Distinct(targets) && |labels| == |t.index|
    requires forall n | n in targets :: n in t.cols
    ensures r.Valid() && r.names == targets && r.index == labels
    ensures forall n | n in targets :: r.cols[n] == ScaledColumn(t.cols[n], bounds, scale)
  {
    Table(targets, map n | n in targets :: ScaledColumn(t.cols[n], bounds, scale), labels)
  }

  /** When the scaling of `targets` of `t` fails, and with which error: a
      missing column first (`df[column_list]`), then the range, then columns
      the scaler cannot read as numbers, then an empty input. */
  ghost predicate ScaleRefusal(t: Table, bounds: (real, real), targets: seq<string>, r: Result<Table>) {
    var present := forall n | n in targets :: n in t.cols;
    var numeric := forall n | n in targets && n in t.cols :: t.cols[n].kind == Numeric;
    && (!present <==> r.Err? && r.error.MissingColumns?)
    && (r.Err? && r.error.MissingColumns? ==>
          forall n :: n in r.error.names <==> n in targets && n !in t.cols)
    && (r.Err? && r.error.InvalidRange? <==> present && bounds.0 >= bounds.1)
    && (r.Err? && r.error.NonNumericColumns? <==> present && bounds.0 < bounds.1 && !numeric)
    && (r.Err? && r.error.NonNumericColumns? ==>
          forall n :: n in r.error.names <==> n in targets && n in t.cols && t.cols[n].kind == Other)
    && (r.Err? && r.error.NoData? <==>
          present && bounds.0 < bounds.1 && numeric && (targets == [] || |t.index| == 0))
    && (r.Err? ==> r.error.MissingColumns? || r.error.InvalidRange? ||
                   r.error.NonNumericColumns? || r.error.NoData?)
  }

  /** The common pipeline of `scale_data`, with the labels that the scaled
      frame is given before the join as a parameter. */
  function ScaleWith(t: Table, bounds: (real, real), columnList: Option<seq<string>>, scale: Scaler, labels: seq<int>): (r: Result<Table>)
    requires t.Valid() && Distinct(labels) && |labels| == |t.index|
    requires columnList.Some? ==> Distinct(columnList.value)
    ensures ScaleRefusal(t, bounds, ScaleTargets(t, columnList), r)
    ensures r.Ok? ==>
      var targets := ScaleTargets(t, columnList);
      && r.value.Valid() && r.value.names == t.names && r.value.index == t.index
      && (forall n | n in t.cols && n !in targets :: r.value.cols[n] == t.cols[n])
      && (forall n | n in targets :: n in t.cols && r.value.cols[n] ==
            Realign(ScaledColumn(t.cols[n], bounds, scale), labels, t.index))
  {
    var targets := ScaleTargets(t, columnList);
    var missing := Filter(targets, n => n !in t.cols);
    if missing != [] then
      assert missing[0] in missing;
      Err(MissingColumns(missing))
    else if bounds.0 >= bounds.1 then Err(InvalidRange)
    else
      var nonNumeric := Filter(targets, n => n in t.cols && t.cols[n].kind == Other);
      if nonNumeric != [] then
        assert nonNumeric[0] in nonNumeric;
        Err(NonNumericColumns(nonNumeric))
      else if targets == [] || |t.index| == 0 then Err(NoData)
      else Ok(Rejoined(t, targets, bounds, scale, labels))
  }

  /** The success path of `scale_data`: the scaled frame on `labels` joined
      onto the passthrough columns, then put back into the input's order. */
  function Rejoined(t: Table, targets: seq<string>, bounds: (real, real), scale: Scaler, labels: seq<int>): (r: Table)
    requires t.Valid() && Distinct(labels) && |labels| == |t.index|
    requires Distinct(targets) && forall n | n in targets :: n in t.cols
    ensures r.Valid() && r.names == t.names && r.index == t.index
    ensures forall n | n in t.cols && n !in targets :: r.cols[n] == t.cols[n]
    ensures forall n | n in targets ::
      r.cols[n] == Realign(ScaledColumn(t.cols[n], bounds, scale), labels, t.index)
  {
    var scaled := ScaledFrame(t, targets, bounds, scale, labels);
    var pass := SplitColumns(t.names, targets);
    var joined := LeftJoin(Select(t, pass), scaled);
    Select(joined, t.names)
  }

  /** `scale_data(df, range, column_list)` as written: the scaled values are
      put into a new frame, which gets the labels 0..n-1, and joined by label
      onto the passthrough columns of `df`. Row i of a scaled column therefore
      holds the scaled value of the row at position `df.index[i]`, and a
      missing value when that label is not a position. */
  function ScaleData(t: Table, bounds: (real, real), columnList: Option<seq<string>>, scale: Scaler): (r: Result<Table>)
    requires t.Valid()
    requires columnList.Some? ==> Distinct(columnList.value)
    ensures ScaleRefusal(t, bounds, ScaleTargets(t, columnList), r)
    ensures r.Ok? ==>
      var targets := ScaleTargets(t, columnList);
      && r.value.Valid() && r.value.names == t.names && r.value.index == t.index
      && (forall n | n in t.cols && n !in targets :: r.value.cols[n] == t.cols[n])
      && (forall n | n in targets :: n in t.cols && r.value.cols[n].kind == Numeric &&
            forall i | 0 <= i < |t.index| :: r.value.cols[n].cells[i] ==
              if 0 <= t.index[i] < |t.index| then scale(bounds, t.cols[n], t.cols[n].cells[t.index[i]])
              else Missing)
  {
    var r := ScaleWith(t, bounds, columnList, scale, Range(|t.index|));
    if r.Ok? then
      forall n | n in ScaleTargets(t, columnList) && n in t.cols {
        RealignFromRange(ScaledColumn(t.cols[n], bounds, scale), t.index);
      }
      r
    else r
  }

  /** `scale_data` with the scaled frame given `df`'s own labels, which is
      what the join evidently intends: every row keeps its own scaled value,
      whatever its label. */
  function ScaleDataIndexed(t: Table, bounds: (real, real), columnList: Option<seq<string>>, scale: Scaler): (r: Result<Table>)
    requires t.Valid() && Distinct(t.index)
    requires columnList.Some? ==> Distinct(columnList.value)
    ensures ScaleRefusal(t, bounds, ScaleTargets(t, columnList), r)
    ensures r.Ok? ==>
      var targets := ScaleTargets(t, columnList);
      && r.value.Valid() && r.value.names == t.names && r.value.index == t.index
      && (forall n | n in t.cols && n !in targets :: r.value.cols[n] == t.cols[n])
      && (forall n | n in targets :: n in t.cols &&
            r.value.cols[n] == ScaledColumn(t.cols[n], bounds, scale))
  {
    var r := ScaleWith(t, bounds, columnList, scale, t.index);
    if r.Ok? then
      forall n | n in ScaleTargets(t, columnList)
        ensures n in t.cols &&
          Realign(ScaledColumn(t.cols[n], bounds, scale), t.index, t.index) == ScaledColumn(t.cols[n], bounds, scale)
      {
        RealignSame(ScaledColumn(t.cols[n], bounds, scale), t.index);
      }
      r
    else r
  }

  /** On the default index 0..n-1 the source's join lines up: `scale_data`
      scales every target row in place and agrees with the corrected form. */
  lemma ScaleDataOnDefaultIndex(t: Table, bounds: (real, real), columnList: Option<seq<string>>, scale: Scaler)
    requires t.Valid() && DefaultIndex(t.index)
    requires columnList.Some? ==> Distinct(columnList.value)
    ensures ScaleData(t, bounds, columnList, scale) == ScaleDataIndexed(t, bounds, columnList, scale)
  {
    assert t.index == Range(|t.index|);
  }

  /** The column [1.0, 2.0] of the example below. */
  function ShuffledColumn(): (c: Column)
    ensures c.kind == Numeric && |c.cells| == 2
  {
    Column(Numeric, [Present(Number(1.0)), Present(Number(2.0))])
  }

  /** A one-column frame "a" = [1.0, 2.0] whose rows carry the labels [1, 0]. */
  function ShuffledFrame(): (t: Table)
    ensures t.Valid() && Distinct(t.index)
    ensures t.names == ["a"] && t.cols == map["a" := ShuffledColumn()] && t.index == [1, 0]
  {
    Table(["a"], map["a" := ShuffledColumn()], [1, 0])
  }

  /** On the frame labelled [1, 0]: as written, each row of the scaled column
      receives the other row's scaled value, so whenever the scaler tells the
      two values apart the result differs from the intended one. */
  lemma ScaleDataMisalignsShuffledIndex(bounds: (real, real), scale: Scaler)
    requires bounds.0 < bounds.1
    requires scale(bounds, ShuffledColumn(), Present(Number(1.0))) != scale(bounds, ShuffledColumn(), Present(Number(2.0)))
    ensures var c, t := ShuffledColumn(), ShuffledFrame();
      var asWritten, intended := ScaleData(t, bounds, None, scale), ScaleDataIndexed(t, bounds, None, scale);
      && asWritten.Ok? && intended.Ok? && "a" in asWritten.value.cols && "a" in intended.value.cols
      && asWritten.value.cols["a"].cells == [scale(bounds, c, Present(Number(2.0))), scale(bounds, c, Present(Number(1.0)))]
      && intended.value.cols["a"].cells == [scale(bounds, c, Present(Number(1.0))), scale(bounds, c, Present(Number(2.0)))]
      && asWritten != intended
  {
    var c, t := ShuffledColumn(), ShuffledFrame();
    ShuffledAsWritten(t, c, bounds, scale);
    ShuffledIntended(t, c, bounds, scale);
    var asWritten, intended := ScaleData(t, bounds, None, scale), ScaleDataIndexed(t, bounds, None, scale);
    assert asWritten.value.cols["a"].cells[0] != intended.value.cols["a"].cells[0];
  }

  lemma ShuffledAsWritten(t: Table, c: Column, bounds: (real, real), scale: Scaler)
    requires bounds.0 < bounds.1
    requires c.kind == Numeric && |c.cells| == 2
    requires t.names == ["a"] && t.cols == map["a" := c] && t.index == [1, 0]
    ensures ScaleData(t, bounds, None, scale).Ok?
    ensures ScaleData(t, bounds, None, scale).value.cols["a"].cells
      == [scale(bounds, c, c.cells[1]), scale(bounds, c, c.cells[0])]
  {
    assert t.Valid();
    assert "a" in ScaleTargets(t, None);
    var w := ScaleData(t, bounds, None, scale).value.cols["a"].cells;
    assert |w| == 2 && w[0] == scale(bounds, c, c.cells[1]) && w[1] == scale(bounds, c, c.cells[0]);
  }

  lemma ShuffledIntended(t: Table, c: Column, bounds: (real, real), scale: Scaler)
    requires bounds.0 < bounds.1
    requires c.kind == Numeric && |c.cells| == 2
    requires t.names == ["a"] && t.cols == map["a" := c] && t.index == [1, 0]
    ensures Distinct(t.index) && ScaleDataIndexed(t, bounds, None, scale).Ok?
    ensures ScaleDataIndexed(t, bounds, None, scale).value.cols["a"].cells
      == [scale(bounds, c, c.cells[0]), scale(bounds, c, c.cells[1])]
  {
    assert t.Valid();
    assert "a" in ScaleTargets(t, None);
    var w := ScaleDataIndexed(t, bounds, None, scale).value.cols["a"].cells;
    assert w == ScaledColumn(c, bounds, scale).cells;
    assert |w| == 2 && w[0] == scale(bounds, c, c.cells[0]) && w[1] == scale(bounds, c, c.cells[1]);
  }
}
