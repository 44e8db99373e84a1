/** `split_columns`: the set difference of two lists of column names, and
    why its unspecified order does not reach the operations that reproject
    their result onto the input's column list. */
module Columns {
  import opened Tables

  /** The names of `all` that are not in `sub`, each once. The source builds
      this from a Python set, so its order is unspecified; the model lists
      the names in the order of their first occurrence in `all`, which is one
      of the orders the set may produce. No contract relies on that order. */
  function SplitColumns(all: seq<string>, sub: seq<string>): (r: seq<string>)
    ensures Distinct(r)
    ensures forall n :: n in r <==> n in all && n !in sub
  {
    if all == [] then []
    else
      var init, last := all[..|all| - 1], all[|all| - 1];
      var rest := SplitColumns(init, sub);
      assert all == init + [last];
      if last in sub || last in rest then rest
      else rest + [last]
  }

  /** The result depends on `sub` only through which names of `all` it holds. */
  lemma {:induction false} SplitDependsOnlyOnMembership(all: seq<string>, sub1: seq<string>, sub2: seq<string>)
    requires forall n | n in all :: n in sub1 <==> n in sub2
    ensures SplitColumns(all, sub1) == SplitColumns(all, sub2)
  {
    if all != [] {
      var init := all[..|all| - 1];
      assert all == init + [all[|all| - 1]];
      SplitDependsOnlyOnMembership(init, sub1, sub2);
    }
  }

  /** Names to subtract that are not columns at all are ignored: no error and
      no effect on the result. */
  lemma SplitIgnoresUnknown(all: seq<string>, sub: seq<string>, unknown: seq<string>)
    requires forall n | n in unknown :: n !in all
    ensures SplitColumns(all, sub + unknown) == SplitColumns(all, sub)
  {
    SplitDependsOnlyOnMembership(all, sub + unknown, sub);
  }

  /** A list without repetitions has as many elements as its set. */
  lemma {:induction false} DistinctCard(s: seq<string>)
    requires Distinct(s)
    ensures |set n | n in s| == |s|
  {
    if s != [] {
      DistinctCard(s[1..]);
      assert (set n | n in s) == {s[0]} + (set n | n in s[1..]);
      assert s[0] !in s[1..];
    }
  }

  /** For a subset `sub` of the columns `all`: the remainder and `sub` are
      disjoint, together they are all the columns, and the remainder has
      |all| - |sub| names. */
  lemma SplitPartition(all: seq<string>, sub: seq<string>)
    requires Distinct(all) && Distinct(sub)
    requires forall n | n in sub :: n in all
    ensures var r := SplitColumns(all, sub);
      && (set n | n in r) + (set n | n in sub) == (set n | n in all)
      && (set n | n in r) * (set n | n in sub) == {}
      && |r| == |all| - |sub|
  {
    var r := SplitColumns(all, sub);
    var R, S, A := set n | n in r, set n | n in sub, set n | n in all;
    DistinctCard(r);
    DistinctCard(sub);
    DistinctCard(all);
    assert R + S == A && R * S == {};
    assert |R + S| == |R| + |S|;
  }

  /** Joining some other columns onto the passthrough columns and then
      reprojecting onto `names` gives the same table whatever order the
      passthrough columns were listed in (the shape of `scale_data`, where the
      passthrough columns are on the left and may carry any labels). */
  lemma RejoinIgnoresSplitOrder(t: Table, p1: seq<string>, p2: seq<string>, x: Table, names: seq<string>)
    requires t.Valid() && x.Valid() && Distinct(x.index)
    requires Distinct(p1) && Distinct(p2) && forall n :: n in p1 <==> n in p2
    requires forall n | n in p1 :: n in t.cols && n !in x.cols
    requires Distinct(names) && forall n | n in names :: n in p1 || n in x.cols
    ensures Select(LeftJoin(Select(t, p1), x), names) == Select(LeftJoin(Select(t, p2), x), names)
  {
    var s1, s2 := Select(t, p1), Select(t, p2);
    assert s1.cols == s2.cols;
    var j1, j2 := LeftJoin(s1, x), LeftJoin(s2, x);
    assert forall n | n in j1.cols :: j1.cols[n] == j2.cols[n];
  }

  /** The same with the passthrough columns on the right of the join (the
      shape of the drop branch of `fill_na`), whose labels the join needs
      distinct. */
  lemma RejoinRightIgnoresSplitOrder(t: Table, p1: seq<string>, p2: seq<string>, x: Table, names: seq<string>)
    requires t.Valid() && x.Valid() && Distinct(t.index)
    requires Distinct(p1) && Distinct(p2) && forall n :: n in p1 <==> n in p2
    requires forall n | n in p1 :: n in t.cols && n !in x.cols
    requires Distinct(names) && forall n | n in names :: n in p1 || n in x.cols
    ensures Select(LeftJoin(x, Select(t, p1)), names) == Select(LeftJoin(x, Select(t, p2)), names)
  {
    var s1, s2 := Select(t, p1), Select(t, p2);
    assert s1.cols == s2.cols;
    var k1, k2 := LeftJoin(x, s1), LeftJoin(x, s2);
    assert forall n | n in k1.cols :: k1.cols[n] == k2.cols[n];
  }
}
