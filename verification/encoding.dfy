/** `one_hot_encoder`: the target columns are handed to `pd.get_dummies`,
    whose indicator columns are joined after the passthrough columns. The
    encoding itself (indicator names, category order, what happens to
    numeric or missing values) belongs to pandas and is a parameter here. */
module Encoding {
  import opened Tables
  import opened Columns

  /** What `pd.get_dummies` gives back for the frame `x`: a well-formed table
      on the same rows, with the same labels in the same order. */
  predicate IndicatorsFit(x: Table, enc: Table) {
    enc.Valid() && enc.index == x.index
  }

  /** The shape of a successful encoding of `targets` of `t` whose indicator
      table is `enc`: first the passthrough columns (every column of `t` that
      is not a target, each once, in the partition's order) with their cells
      unchanged, then exactly `enc`'s columns in `enc`'s order; same rows. */
  ghost predicate Encoded(t: Table, targets: seq<string>, enc: Table, out: Table) {
    var p := |t.names| - |targets|;
    && out.Valid() && out.index == t.index
    && 0 <= p <= |out.names|
    && |out.names| == p + |enc.names|
    && out.names[p..] == enc.names
    && (forall n :: n in out.names[..p] <==> n in t.names && n !in targets)
    && (forall n | n in out.names[..p] :: n in t.cols && out.cols[n] == t.cols[n])
    && (forall n | n in enc.cols :: n in out.cols && out.cols[n] == enc.cols[n])
  }

  /** `one_hot_encoder(df, column_list)` with `getDummies` standing for
      `pd.get_dummies`. Fails when a target is not a column (`df[column_list]`),
      when there is no target at all (`get_dummies` of a frame without columns
      has nothing to concatenate), or when an indicator column has the name of
      a passthrough column (the join refuses overlapping names). The result is
      not put back into the input's column order: `df[df.columns]` is taken on
      the joined frame. */
  function OneHotEncoder(t: Table, targets: seq<string>, getDummies: Table -> Table): (r: Result<Table>)
    requires t.Valid() && Distinct(t.index) && Distinct(targets)
    requires targets != [] && (forall n | n in targets :: n in t.cols) ==>
      IndicatorsFit(t, getDummies(Select(t, targets)))
    ensures (forall n | n in targets :: n in t.cols) <==> !(r.Err? && r.error.MissingColumns?)
    ensures r.Err? && r.error.MissingColumns? ==>
      forall n :: n in r.error.names <==> n in targets && n !in t.cols
    ensures r.Err? && r.error.NoData? <==> targets == []
    ensures targets != [] && !(r.Err? && r.error.MissingColumns?) ==>
      var enc := getDummies(Select(t, targets));
      && (r.Err? <==> exists n :: n in enc.names && n in t.names && n !in targets)
      && (r.Err? ==>
            && r.error.OverlappingColumns?
            && forall n :: n in r.error.names <==> n in enc.names && n in t.names && n !in targets)
      && (r.Ok? ==> Encoded(t, targets, enc, r.value))
  {
    var pass := SplitColumns(t.names, targets);
    var missing := Filter(targets, n => n !in t.cols);
    if missing != [] then
      assert missing[0] in missing;
      Err(MissingColumns(missing))
    else if targets == [] then Err(NoData)
    else
      var enc := getDummies(Select(t, targets));
      var clash := Filter(enc.names, n => n in pass);
      if clash != [] then
        assert clash[0] in clash;
        Err(OverlappingColumns(clash))
      else
        var left := Select(t, pass);
        var joined := LeftJoin(left, enc);
        SplitPartition(t.names, targets);
        JoinSameIndex(left, enc);
        SelectAll(joined);
        var out := Select(joined, joined.names);
        assert out.names[..|pass|] == pass;
        assert out.names[|pass|..] == enc.names;
        Ok(out)
  }
}
