/** The small part of a pandas DataFrame the core relies on: a month index,
    named columns, column assignment and NaN filling, and sums of amounts. */
module Frames {
  import opened Wrappers
  import opened Ledger

  /** A table with one row per month and one column per name; `data[j]` is
      the column named `columns[j]`, one cell per row. */
  datatype Frame<T> = Frame(index: seq<Month>, columns: seq<string>, data: seq<seq<T>>)

  /** Every column has a name and one cell per row. */
  ghost predicate Shaped<T>(f: Frame<T>) {
    |f.data| == |f.columns| && forall j | 0 <= j < |f.data| :: |f.data[j]| == |f.index|
  }

  ghost predicate DistinctNames(names: seq<string>) {
    forall i, j | 0 <= i < j < |names| :: names[i] != names[j]
  }

  /** The cells of row `k`, one per column. */
  function Row(f: Frame<real>, k: nat): (r: seq<real>)
    requires Shaped(f) && k < |f.index|
    ensures |r| == |f.data| && forall j | 0 <= j < |f.data| :: r[j] == f.data[j][k]
  {
    seq(|f.data|, j requires 0 <= j < |f.data| => f.data[j][k])
  }

  /** `frame[name] = column`: the cells of a column already called `name`
      are replaced in place; otherwise the column is added at the right. */
  function SetColumn<T>(f: Frame<T>, name: string, col: seq<T>): (r: Frame<T>)
    requires |f.data| == |f.columns|
    ensures r.index == f.index && |r.data| == |r.columns|
    ensures name !in f.columns ==> r.columns == f.columns + [name] && r.data == f.data + [col]
    ensures name in f.columns ==>
              r.columns == f.columns &&
              forall j | 0 <= j < |f.data| :: r.data[j] == if f.columns[j] == name then col else f.data[j]
    ensures Shaped(f) && |col| == |f.index| ==> Shaped(r)
    ensures DistinctNames(f.columns) ==> DistinctNames(r.columns)
  {
    if name in f.columns then
      Frame(f.index, f.columns, seq(|f.data|, j requires 0 <= j < |f.data| => if f.columns[j] == name then col else f.data[j]))
    else
      Frame(f.index, f.columns + [name], f.data + [col])
  }

  /** The columns `cols` assigned one after the other under the names
      `names`, each assignment as `SetColumn` does it. */
  function AssignColumns<T>(f: Frame<T>, names: seq<string>, cols: seq<seq<T>>): (r: Frame<T>)
    requires |f.data| == |f.columns| && |names| == |cols|
    ensures r.index == f.index && |r.data| == |r.columns|
    decreases |names|
  {
    if names == [] then f
    else
      var n := |names| - 1;
      SetColumn(AssignColumns(f, names[..n], cols[..n]), names[n], cols[n])
  }

  /** One more assignment after the others. */
  lemma AssignSnoc<T>(f: Frame<T>, names: seq<string>, cols: seq<seq<T>>, name: string, col: seq<T>)
    requires |f.data| == |f.columns| && |names| == |cols|
    ensures AssignColumns(f, names + [name], cols + [col]) == SetColumn(AssignColumns(f, names, cols), name, col)
  {
    assert (names + [name])[..|names|] == names && (cols + [col])[..|cols|] == cols;
  }

  /** Assigning columns of distinct names to a table without columns gives
      exactly those columns, in assignment order. */
  lemma {:induction false} AssignFresh<T>(index: seq<Month>, names: seq<string>, cols: seq<seq<T>>)
    requires |names| == |cols| && DistinctNames(names)
    ensures AssignColumns(Frame(index, [], []), names, cols) == Frame(index, names, cols)
    decreases |names|
  {
    if names != [] {
      var n := |names| - 1;
      assert DistinctNames(names[..n]);
      AssignFresh(index, names[..n], cols[..n]);
      assert names[n] !in names[..n];
      assert names == names[..n] + [names[n]] && cols == cols[..n] + [cols[n]];
    }
  }

  /** Columns of one cell per row keep a table shaped, and assigning never
      makes two columns share a name. */
  lemma {:induction false} AssignShape<T>(f: Frame<T>, names: seq<string>, cols: seq<seq<T>>)
    requires |f.data| == |f.columns| && |names| == |cols|
    ensures Shaped(f) && (forall j | 0 <= j < |cols| :: |cols[j]| == |f.index|) ==> Shaped(AssignColumns(f, names, cols))
    ensures DistinctNames(f.columns) ==> DistinctNames(AssignColumns(f, names, cols).columns)
    decreases |names|
  {
    if names != [] {
      var n := |names| - 1;
      AssignShape(f, names[..n], cols[..n]);
    }
  }

  /** The position of a column name. */
  function IndexOf(names: seq<string>, name: string): (r: nat)
    requires name in names
    ensures r < |names| && names[r] == name
    ensures forall k | 0 <= k < r :: names[k] != name
  {
    if names[0] == name then 0 else 1 + IndexOf(names[1..], name)
  }

  /** With distinct names the position of a name is the only one holding it. */
  lemma IndexOfDistinct(names: seq<string>, j: nat)
    requires DistinctNames(names) && j < |names|
    ensures IndexOf(names, names[j]) == j
  {
  }

  /** `fillna(value=0)` on one column: every missing cell becomes 0. */
  function FillNaColumn(col: seq<Option<real>>): (r: seq<real>)
    ensures |r| == |col|
    ensures forall k | 0 <= k < |col| :: r[k] == if col[k].Some? then col[k].value else 0.0
  {
    seq(|col|, k requires 0 <= k < |col| => if col[k].Some? then col[k].value else 0.0)
  }

  /** `fillna(value=0, inplace=True)` on the whole table. */
  function FillNa(f: Frame<Option<real>>): (r: Frame<real>)
    ensures r.index == f.index && r.columns == f.columns && |r.data| == |f.data|
    ensures forall j | 0 <= j < |f.data| :: r.data[j] == FillNaColumn(f.data[j])
  {
    Frame(f.index, f.columns, seq(|f.data|, j requires 0 <= j < |f.data| => FillNaColumn(f.data[j])))
  }

  /** Filling after assigning a column is assigning the filled column. */
  lemma FillNaSetColumn(f: Frame<Option<real>>, name: string, col: seq<Option<real>>)
    requires |f.data| == |f.columns|
    ensures FillNa(SetColumn(f, name, col)) == SetColumn(FillNa(f), name, FillNaColumn(col))
  {
  }

  // ---------------------------------------------------------------------
  // Sums

  /** The sum of a sequence of amounts, from the left. */
  function Total(xs: seq<real>): real
    decreases |xs|
  {
    if xs == [] then 0.0 else Total(xs[..|xs| - 1]) + xs[|xs| - 1]
  }

  lemma {:induction false} TotalAppend(a: seq<real>, b: seq<real>)
    ensures Total(a + b) == Total(a) + Total(b)
    decreases |b|
  {
    if b != [] {
      var b' := b[..|b| - 1];
      assert (a + b)[..|a + b| - 1] == a + b';
      assert (a + b)[|a + b| - 1] == b[|b| - 1];
      TotalAppend(a, b');
    } else {
      assert a + b == a;
    }
  }

  /** Summing cell by cell and then down the column is summing each column. */
  lemma {:induction false} TotalPointwise(a: seq<real>, b: seq<real>, c: seq<real>)
    requires |a| == |b| == |c|
    requires forall k | 0 <= k < |c| :: c[k] == a[k] + b[k]
    ensures Total(c) == Total(a) + Total(b)
    decreases |c|
  {
    if c != [] {
      var n := |c| - 1;
      TotalPointwise(a[..n], b[..n], c[..n]);
    }
  }
}
