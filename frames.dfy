/** The part of a pandas DataFrame the scripts use: labelled columns over rows of
    cells, with name lookup, column drop, rename, scalar column assignment and
    column selection; and the files the scripts write. */
module Frames {
  import opened Values

  /** Column labels, and one row of cells per record, in order. */
  datatype Frame = Frame(columns: seq<string>, rows: seq<seq<Value>>)

  /** Every row has one cell per column. */
  predicate WellFormed(f: Frame) {
    forall k :: 0 <= k < |f.rows| ==> |f.rows[k]| == |f.columns|
  }

  /** A file a script writes: text, or a table (its CSV rendering by pandas is not modelled). */
  datatype Write = TextWrite(path: string, content: string) | TableWrite(path: string, table: Frame)

  /** The position of the first column labelled `x`, as pandas resolves a label. */
  function IndexOf(xs: seq<string>, x: string): (r: Option<nat>)
    ensures r.None? <==> x !in xs
    ensures r.Some? ==> r.value < |xs| && xs[r.value] == x && x !in xs[..r.value]
  {
    if xs == [] then None
    else if xs[0] == x then Some(0)
    else match IndexOf(xs[1..], x)
      case None => None
      case Some(i) =>
        assert xs[1..][..i] == xs[1..i + 1];
        Some(i + 1)
  }

  /** The positions of the columns whose label is not `name`, in increasing order. */
  function Kept(cols: seq<string>, name: string): (ix: seq<nat>)
    ensures forall t :: 0 <= t < |ix| ==> ix[t] < |cols| && cols[ix[t]] != name
    decreases |cols|
  {
    if cols == [] then []
    else
      var n := |cols| - 1;
      assert forall j :: 0 <= j < n ==> cols[..n][j] == cols[j];
      Kept(cols[..n], name) + (if cols[n] != name then [n] else [])
  }

  /** Every position whose label is not `name` is kept. */
  lemma {:induction false} KeptAll(cols: seq<string>, name: string)
    ensures forall j :: 0 <= j < |cols| && cols[j] != name ==> j in Kept(cols, name)
    decreases |cols|
  {
    if cols != [] {
      var n := |cols| - 1;
      KeptAll(cols[..n], name);
    }
  }

  /** The cells of `row` at positions `ix`, in that order. */
  function Pick<T>(row: seq<T>, ix: seq<nat>): (r: seq<T>)
    requires forall t :: 0 <= t < |ix| ==> ix[t] < |row|
    ensures |r| == |ix|
  {
    seq(|ix|, t requires 0 <= t < |ix| => row[ix[t]])
  }

  /** pandas `df.drop(columns=name)`: removes every column that carries `name`. */
  function DropLabel(f: Frame, name: string): (g: Frame)
    requires WellFormed(f)
    ensures WellFormed(g) && |g.rows| == |f.rows|
    ensures name !in g.columns
  {
    var ix := Kept(f.columns, name);
    Frame(Pick(f.columns, ix), seq(|f.rows|, k requires 0 <= k < |f.rows| => Pick(f.rows[k], ix)))
  }

  /** Dropping a label keeps every other label and only those. */
  lemma DropLabelColumns(f: Frame, name: string)
    requires WellFormed(f)
    ensures forall x :: x in DropLabel(f, name).columns <==> x in f.columns && x != name
  {
    var ix := Kept(f.columns, name);
    var g := DropLabel(f, name);
    KeptAll(f.columns, name);
    forall x | x in f.columns && x != name
      ensures x in g.columns
    {
      var j :| 0 <= j < |f.columns| && f.columns[j] == x;
      var t :| 0 <= t < |ix| && ix[t] == j;
      assert g.columns[t] == x;
    }
  }

  /** When the label `f.columns[p]` sits only at position `p`, dropping it removes
      exactly position `p`. */
  lemma DropSingle(f: Frame, p: nat)
    requires WellFormed(f) && p < |f.columns|
    requires forall j :: 0 <= j < |f.columns| && j != p ==> f.columns[j] != f.columns[p]
    ensures DropLabel(f, f.columns[p]).columns == f.columns[..p] + f.columns[p + 1..]
    ensures forall k :: 0 <= k < |f.rows| ==>
      DropLabel(f, f.columns[p]).rows[k] == f.rows[k][..p] + f.rows[k][p + 1..]
  {
    KeptSingle(f.columns, p, |f.columns|);
    assert f.columns[..|f.columns|] == f.columns;
    PickSkip(f.columns, p);
    forall k | 0 <= k < |f.rows|
      ensures Pick(f.rows[k], SkipOne(|f.columns|, p)) == f.rows[k][..p] + f.rows[k][p + 1..]
    {
      PickSkip(f.rows[k], p);
    }
  }

  /** The positions kept from the first `m` columns, when the dropped label sits only at `p`. */
  function SkipOne(m: nat, p: nat): seq<nat> {
    if m <= p then seq(m, i => i) else seq(m - 1, i => if i < p then i else i + 1)
  }

  lemma PickSkip<T>(row: seq<T>, p: nat)
    requires p < |row|
    ensures forall t :: 0 <= t < |SkipOne(|row|, p)| ==> SkipOne(|row|, p)[t] < |row|
    ensures Pick(row, SkipOne(|row|, p)) == row[..p] + row[p + 1..]
  {
  }

  lemma {:induction false} KeptSingle(cols: seq<string>, p: nat, m: nat)
    requires p < |cols| && m <= |cols|
    requires forall j :: 0 <= j < |cols| && j != p ==> cols[j] != cols[p]
    ensures Kept(cols[..m], cols[p]) == SkipOne(m, p)
    decreases m
  {
    if m > 0 {
      var n := m - 1;
      assert cols[..m][..n] == cols[..n];
      KeptSingle(cols, p, n);
      assert cols[..m][n] == cols[n];
      if m <= p {
        assert Kept(cols[..m], cols[p]) == SkipOne(n, p) + [n];
        assert SkipOne(n, p) + [n] == SkipOne(m, p);
      } else if n == p {
        assert Kept(cols[..m], cols[p]) == SkipOne(n, p);
        assert SkipOne(n, p) == SkipOne(m, p);
      } else {
        assert Kept(cols[..m], cols[p]) == SkipOne(n, p) + [n];
        assert SkipOne(n, p) + [n] == SkipOne(m, p);
      }
    } else {
      assert cols[..m] == [];
    }
  }

  /** The label a column carries after pandas `rename(columns=m)`. */
  function Relabel(c: string, m: map<string, string>): string {
    if c in m then m[c] else c
  }

  /** pandas `df.rename(columns=m)`: labels that are keys of `m` are replaced, the
      others kept; keys matching no label are ignored; cells are untouched. */
  function Rename(f: Frame, m: map<string, string>): (g: Frame)
    ensures g.rows == f.rows && |g.columns| == |f.columns|
    ensures forall j :: 0 <= j < |f.columns| && f.columns[j] in m ==> g.columns[j] == m[f.columns[j]]
    ensures forall j :: 0 <= j < |f.columns| && f.columns[j] !in m ==> g.columns[j] == f.columns[j]
  {
    Frame(seq(|f.columns|, j requires 0 <= j < |f.columns| => Relabel(f.columns[j], m)), f.rows)
  }

  /** pandas `df[key] = v` with a scalar `v`: every column labelled `key` holds `v`
      on every row; without such a column, one is appended at the end. */
  function SetColumn(f: Frame, key: string, v: Value): (g: Frame)
    requires WellFormed(f)
    ensures WellFormed(g) && |g.rows| == |f.rows|
    ensures key in f.columns ==> g.columns == f.columns
    ensures key !in f.columns ==> g.columns == f.columns + [key]
    ensures forall k, j :: 0 <= k < |g.rows| && 0 <= j < |g.columns| && g.columns[j] == key ==> g.rows[k][j] == v
    ensures forall k, j :: 0 <= k < |g.rows| && 0 <= j < |f.columns| && f.columns[j] != key ==> g.rows[k][j] == f.rows[k][j]
  {
    if key in f.columns then
      Frame(f.columns, seq(|f.rows|, k requires 0 <= k < |f.rows| =>
        seq(|f.columns|, j requires 0 <= j < |f.columns| => if f.columns[j] == key then v else f.rows[k][j])))
    else
      Frame(f.columns + [key], seq(|f.rows|, k requires 0 <= k < |f.rows| => f.rows[k] + [v]))
  }

  /** A sequence of `df[key] = value` assignments, applied in order. */
  function AddAll(f: Frame, adds: seq<(string, Value)>): (g: Frame)
    requires WellFormed(f)
    ensures WellFormed(g) && |g.rows| == |f.rows| && |f.columns| <= |g.columns|
    decreases |adds|
  {
    if adds == [] then f else AddAll(SetColumn(f, adds[0].0, adds[0].1), adds[1..])
  }

  /** The loop `for key, value in adds: df[key] = value`. */
  method AddConstantColumns(f: Frame, adds: seq<(string, Value)>) returns (g: Frame)
    requires WellFormed(f)
    ensures g == AddAll(f, adds)
  {
    g := f;
    var i := 0;
    while i < |adds|
      invariant 0 <= i <= |adds|
      invariant WellFormed(g)
      invariant AddAll(g, adds[i..]) == AddAll(f, adds)
    {
      assert adds[i..][1..] == adds[i + 1..];
      g := SetColumn(g, adds[i].0, adds[i].1);
      i := i + 1;
    }
  }

  /** The keys of the assignments, in order. */
  function Keys(adds: seq<(string, Value)>): seq<string> {
    seq(|adds|, t requires 0 <= t < |adds| => adds[t].0)
  }

  /** Keys assigned by distinct assignments are distinct (as the keys of a dict are). */
  predicate DistinctKeys(adds: seq<(string, Value)>) {
    forall t, u :: 0 <= t < u < |adds| ==> adds[t].0 != adds[u].0
  }

  /** After the assignments, the original columns keep their places and only assigned
      keys are appended; every assigned key is a column holding its value on every
      row; the cells of columns no assignment names are untouched. */
  lemma AddAllResult(f: Frame, adds: seq<(string, Value)>)
    requires WellFormed(f) && DistinctKeys(adds)
    ensures f.columns <= AddAll(f, adds).columns
    ensures forall j :: |f.columns| <= j < |AddAll(f, adds).columns| ==> AddAll(f, adds).columns[j] in Keys(adds)
    ensures forall t :: 0 <= t < |adds| ==> adds[t].0 in AddAll(f, adds).columns
    ensures forall t, k, j :: 0 <= t < |adds| && 0 <= k < |f.rows| && 0 <= j < |AddAll(f, adds).columns| &&
                              AddAll(f, adds).columns[j] == adds[t].0
                              ==> AddAll(f, adds).rows[k][j] == adds[t].1
    ensures forall k, j :: 0 <= k < |f.rows| && 0 <= j < |f.columns| && f.columns[j] !in Keys(adds)
                           ==> AddAll(f, adds).rows[k][j] == f.rows[k][j]
  {
    AddAllColumns(f, adds);
    AddAllCells(f, adds);
  }

  /** The columns after the assignments: the original ones, then assigned keys only,
      and every assigned key among them. */
  lemma {:induction false} AddAllColumns(f: Frame, adds: seq<(string, Value)>)
    requires WellFormed(f)
    ensures f.columns <= AddAll(f, adds).columns
    ensures forall j :: |f.columns| <= j < |AddAll(f, adds).columns| ==> AddAll(f, adds).columns[j] in Keys(adds)
    ensures forall t :: 0 <= t < |adds| ==> adds[t].0 in AddAll(f, adds).columns
    decreases |adds|
  {
    if adds != [] {
      var h := SetColumn(f, adds[0].0, adds[0].1);
      var rest := adds[1..];
      assert Keys(adds) == [adds[0].0] + Keys(rest);
      AddAllColumns(h, rest);
      var g := AddAll(h, rest);
      assert g == AddAll(f, adds);
      forall t | 0 <= t < |adds|
        ensures adds[t].0 in g.columns
      {
        if t > 0 {
          assert rest[t - 1] == adds[t];
        } else {
          assert adds[0].0 in h.columns;
        }
      }
    }
  }

  /** The cells after the assignments: an assigned key's column holds its value on every
      row, and a column no assignment names keeps its cells. */
  lemma {:induction false} AddAllCells(f: Frame, adds: seq<(string, Value)>)
    requires WellFormed(f) && DistinctKeys(adds)
    ensures forall t, k, j :: 0 <= t < |adds| && 0 <= k < |f.rows| && 0 <= j < |AddAll(f, adds).columns| &&
                              AddAll(f, adds).columns[j] == adds[t].0
                              ==> AddAll(f, adds).rows[k][j] == adds[t].1
    ensures forall k, j :: 0 <= k < |f.rows| && 0 <= j < |f.columns| && f.columns[j] !in Keys(adds)
                           ==> AddAll(f, adds).rows[k][j] == f.rows[k][j]
    decreases |adds|
  {
    if adds != [] {
      var h := SetColumn(f, adds[0].0, adds[0].1);
      var rest := adds[1..];
      assert Keys(adds) == [adds[0].0] + Keys(rest);
      assert DistinctKeys(rest);
      AddAllCells(h, rest);
      AddAllColumns(h, rest);
      var g := AddAll(h, rest);
      assert g == AddAll(f, adds);
      assert adds[0].0 !in Keys(rest);
      forall t, k, j | 0 <= t < |adds| && 0 <= k < |f.rows| && 0 <= j < |g.columns| && g.columns[j] == adds[t].0
        ensures g.rows[k][j] == adds[t].1
      {
        if t > 0 {
          assert rest[t - 1] == adds[t];
        } else if j < |h.columns| {
          assert h.columns[j] == adds[0].0;
        } else {
          assert false;
        }
      }
      forall k, j | 0 <= k < |f.rows| && 0 <= j < |f.columns| && f.columns[j] !in Keys(adds)
        ensures g.rows[k][j] == f.rows[k][j]
      {
        assert h.columns[j] == f.columns[j];
      }
    }
  }

  /** Every label of `labels` names some column. */
  predicate HasColumns(f: Frame, labels: seq<string>) {
    forall t :: 0 <= t < |labels| ==> labels[t] in f.columns
  }

  /** pandas `df.loc[:, labels]` / `df[labels]`: the named columns in the given order;
      None where pandas raises KeyError for a missing label. */
  function Select(f: Frame, labels: seq<string>): (r: Option<Frame>)
    requires WellFormed(f)
    ensures r.Some? <==> HasColumns(f, labels)
    ensures r.Some? ==> r.value.columns == labels && |r.value.rows| == |f.rows| && WellFormed(r.value)
    ensures r.Some? ==> forall k, t :: 0 <= k < |f.rows| && 0 <= t < |labels| ==>
      r.value.rows[k][t] == f.rows[k][IndexOf(f.columns, labels[t]).value]
  {
    if HasColumns(f, labels) then
      Some(Frame(labels, seq(|f.rows|, k requires 0 <= k < |f.rows| =>
        seq(|labels|, t requires 0 <= t < |labels| => f.rows[k][IndexOf(f.columns, labels[t]).value]))))
    else
      None
  }
}
