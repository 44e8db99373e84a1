/** The in-memory table that every preprocessing operation consumes and
    produces: named, equal-length columns, each tagged with a dtype kind,
    plus the row labels (the pandas index). Selection by column names, row
    selection and the label-aligned left join are the pieces the operations
    are assembled from. */
module Tables {

  /** The dtype tag of a column: one of the six numeric dtypes
      (int16/32/64, float16/32/64) or anything else. */
  datatype Kind = Numeric | Other

  datatype Value = Number(x: real) | Text(s: string)

  /** One cell; `Missing` stands for pandas' NaN / None. */
  datatype Cell = Missing | Present(v: Value)

  datatype Column = Column(kind: Kind, cells: seq<Cell>)

  /** Every way an operation can fail. */
  datatype Error =
    | MissingColumns(names: seq<string>)       // KeyError: requested columns not in the table
    | OverlappingColumns(names: seq<string>)   // join: "columns overlap but no suffix specified"
    | NonNumericColumns(names: seq<string>)    // the scaler cannot convert these columns to float
    | InvalidRange                             // scaler range with min >= max
    | NoData                                   // the scaler got no rows or no columns, or get_dummies no columns
    | InvalidMode(mode: string)                // fill_na: "Method not allowed"

  datatype Result<T> = Ok(value: T) | Err(error: Error)

  /** An optional argument; `None` is Python's `None`. */
  datatype Option<T> = None | Some(value: T)

  predicate Distinct<T(==)>(s: seq<T>) {
    forall i, j | 0 <= i < j < |s| :: s[i] != s[j]
  }

  predicate Increasing(s: seq<nat>) {
    forall i, j | 0 <= i < j < |s| :: s[i] < s[j]
  }

  /** A table: the column names in order, the columns by name, and one label
      per row. */
  datatype Table = Table(names: seq<string>, cols: map<string, Column>, index: seq<int>) {
    predicate Valid() {
      && Distinct(names)
      && (forall n | n in names :: n in cols)
      && (forall n | n in cols :: n in names)
      && (forall n | n in cols :: |cols[n].cells| == |index|)
    }
  }

  /** The default pandas index 0, 1, ..., n-1. */
  predicate DefaultIndex(index: seq<int>) {
    forall i | 0 <= i < |index| :: index[i] == i
  }

  function Range(n: nat): (r: seq<int>)
    ensures |r| == n && DefaultIndex(r)
  {
    seq(n, i => i)
  }

  /** The elements of `s` that satisfy `keep`, in their order in `s`. */
  function Filter(s: seq<string>, keep: string -> bool): (r: seq<string>)
    ensures forall x :: x in r <==> x in s && keep(x)
    ensures |r| <= |s|
    ensures Distinct(s) ==> Distinct(r)
  {
    if s == [] then []
    else
      var rest := Filter(s[1..], keep);
      assert forall x :: x in s <==> x == s[0] || x in s[1..];
      if keep(s[0]) then
        assert Distinct(s) ==> s[0] !in s[1..];
        [s[0]] + rest
      else rest
  }

  /** `t[names]`: the listed columns, in the listed order. */
  function Select(t: Table, names: seq<string>): (r: Table)
    requires t.Valid() && Distinct(names)
    requires forall n | n in names :: n in t.cols
    ensures r.Valid() && r.names == names && r.index == t.index
    ensures forall n | n in names :: r.cols[n] == t.cols[n]
  {
    Table(names, map n | n in names :: t.cols[n], t.index)
  }

  /** Selecting a table's own columns in its own order gives it back. */
  lemma SelectAll(t: Table)
    requires t.Valid()
    ensures Select(t, t.names) == t
  {
    assert Select(t, t.names).cols == t.cols;
  }

  /** Position of the first occurrence of `x` in `s`. */
  function IndexOf(s: seq<int>, x: int): (k: nat)
    requires x in s
    ensures k < |s| && s[k] == x
    ensures forall j | 0 <= j < k :: s[j] != x
  {
    if s[0] == x then 0 else 1 + IndexOf(s[1..], x)
  }

  /** In a sequence without repetitions, an element's position is where it stands. */
  lemma IndexOfDistinct(s: seq<int>, k: nat)
    requires Distinct(s) && k < |s|
    ensures IndexOf(s, s[k]) == k
  {
  }

  /** Column `c`, whose rows carry the labels `from`, laid out on the rows
      labelled `to`; a label that `from` lacks gives a missing cell. */
  function Realign(c: Column, from: seq<int>, to: seq<int>): (r: Column)
    requires |c.cells| == |from|
    ensures r.kind == c.kind && |r.cells| == |to|
    ensures forall i | 0 <= i < |to| ::
      r.cells[i] == if to[i] in from then c.cells[IndexOf(from, to[i])] else Missing
  {
    Column(c.kind, seq(|to|, i requires 0 <= i < |to| =>
      if to[i] in from then c.cells[IndexOf(from, to[i])] else Missing))
  }

  /** `a.join(b)`: a left join on the row labels. Every row of `a` is kept in
      order, `b`'s columns are appended and their cells are looked up by label.
      `b`'s labels are required to be distinct (pandas would repeat rows of
      `a` otherwise); the caller checks that no column name is in both. */
  function LeftJoin(a: Table, b: Table): (r: Table)
    requires a.Valid() && b.Valid() && Distinct(b.index)
    requires forall n | n in a.cols :: n !in b.cols
    ensures r.Valid() && r.names == a.names + b.names && r.index == a.index
    ensures r.cols.Keys == a.cols.Keys + b.cols.Keys
    ensures forall n | n in a.cols :: r.cols[n] == a.cols[n]
    ensures forall n | n in b.cols :: r.cols[n] == Realign(b.cols[n], b.index, a.index)
  {
    var names := a.names + b.names;
    assert Distinct(names) by {
      forall i, j | 0 <= i < j < |names| ensures names[i] != names[j] {
        if j < |a.names| {
        } else if i >= |a.names| {
          assert names[i] == b.names[i - |a.names|] && names[j] == b.names[j - |a.names|];
        } else {
          assert names[i] in a.cols && names[j] in b.cols by {
            assert names[i] == a.names[i] && names[j] == b.names[j - |a.names|];
          }
        }
      }
    }
    Table(names, map n | n in names ::
      if n in a.cols then a.cols[n] else Realign(b.cols[n], b.index, a.index), a.index)
  }

  /** Realigning a column onto the distinct labels it already has changes nothing. */
  lemma RealignSame(c: Column, labels: seq<int>)
    requires Distinct(labels) && |c.cells| == |labels|
    ensures Realign(c, labels, labels) == c
  {
    var r := Realign(c, labels, labels);
    forall i | 0 <= i < |labels| ensures r.cells[i] == c.cells[i] {
      IndexOfDistinct(labels, i);
    }
  }

  /** Realigning from the default labels 0..n-1 looks each label up as a position. */
  lemma RealignFromRange(c: Column, to: seq<int>)
    ensures forall i | 0 <= i < |to| ::
      Realign(c, Range(|c.cells|), to).cells[i] == if 0 <= to[i] < |c.cells| then c.cells[to[i]] else Missing
  {
    var labels := Range(|c.cells|);
    forall i | 0 <= i < |to|
      ensures Realign(c, labels, to).cells[i] == if 0 <= to[i] < |c.cells| then c.cells[to[i]] else Missing
    {
      if 0 <= to[i] < |c.cells| {
        assert labels[to[i]] == to[i];
        IndexOfDistinct(labels, to[i]);
      }
    }
  }

  /** Realigning onto the labels of some of the rows, on distinct labels,
      picks exactly those rows. */
  lemma RealignPicked(c: Column, labels: seq<int>, rows: seq<nat>, to: seq<int>)
    requires Distinct(labels) && |c.cells| == |labels|
    requires |to| == |rows| && forall i | 0 <= i < |rows| :: rows[i] < |labels| && to[i] == labels[rows[i]]
    ensures Realign(c, labels, to) == Pick(c, rows)
  {
    var r := Realign(c, labels, to);
    forall i | 0 <= i < |rows| ensures r.cells[i] == c.cells[rows[i]] {
      IndexOfDistinct(labels, rows[i]);
    }
  }

  /** A left join of two tables with the same distinct labels puts the
      columns side by side: neither side's cells move. */
  lemma JoinSameIndex(a: Table, b: Table)
    requires a.Valid() && b.Valid() && Distinct(b.index) && a.index == b.index
    requires forall n | n in a.cols :: n !in b.cols
    ensures forall n | n in b.cols :: LeftJoin(a, b).cols[n] == b.cols[n]
  {
    forall n | n in b.cols ensures LeftJoin(a, b).cols[n] == b.cols[n] {
      RealignSame(b.cols[n], b.index);
    }
  }

  /** One column restricted to the listed row positions, in the listed order. */
  function Pick(c: Column, rows: seq<nat>): (r: Column)
    requires forall i | 0 <= i < |rows| :: rows[i] < |c.cells|
    ensures r.kind == c.kind && |r.cells| == |rows|
    ensures forall i | 0 <= i < |rows| :: r.cells[i] == c.cells[rows[i]]
  {
    Column(c.kind, seq(|rows|, i requires 0 <= i < |rows| => c.cells[rows[i]]))
  }

  /** The table restricted to the listed row positions; labels travel with their rows. */
  function RowsAt(t: Table, rows: seq<nat>): (r: Table)
    requires t.Valid() && forall i | 0 <= i < |rows| :: rows[i] < |t.index|
    ensures r.Valid() && r.names == t.names && |r.index| == |rows|
    ensures forall i | 0 <= i < |rows| :: r.index[i] == t.index[rows[i]]
    ensures forall n | n in t.cols :: r.cols[n] == Pick(t.cols[n], rows)
  {
    Table(t.names, map n | n in t.cols :: Pick(t.cols[n], rows),
      seq(|rows|, i requires 0 <= i < |rows| => t.index[rows[i]]))
  }
}
