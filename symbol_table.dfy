/** The exchange-table export: each listing's table from the provider, its columns
    renamed, the listing's constant columns set, and the four output columns selected
    in order, written under a dated directory. */
module SymbolTable {
  import opened Values
  import opened Frames
  import opened Constants

  /** How the provider's listing method ended when asked for the full table. */
  datatype TableFetch = Fetched(table: Frame) | Raised

  /** `get_ticker_table`: the listing method called with True, its table on success and
      None on any exception. */
  function GetTickerTable(ex: Exchange, listing: (string, bool) -> TableFetch): (r: Option<Frame>)
    ensures listing(ex.Method(), true).Fetched? ==> r == Some(listing(ex.Method(), true).table)
    ensures listing(ex.Method(), true).Raised? ==> r == None
  {
    match listing(ex.Method(), true)
    case Fetched(table) => Some(table)
    case Raised => None
  }

  /** The columns of every exported table, in order. */
  const OutputColumns: seq<string> := ["Symbol Name", "Description", "Exchange", "Category"]

  /** The listing's constant columns as cell assignments. */
  function Adds(ex: Exchange): (adds: seq<(string, Value)>)
    ensures |adds| == |ex.ColAdd()|
    ensures forall t :: 0 <= t < |adds| ==> adds[t] == (ex.ColAdd()[t].0, Str(ex.ColAdd()[t].1))
  {
    seq(|ex.ColAdd()|, t requires 0 <= t < |ex.ColAdd()| => (ex.ColAdd()[t].0, Str(ex.ColAdd()[t].1)))
  }

  /** The fetched table after `rename(columns=ex.col_rename)`. */
  function Renamed(ex: Exchange, f: Frame): Frame {
    Rename(f, ex.ColRename())
  }

  /** The fetched table after the rename and the constant columns. */
  function Augmented(ex: Exchange, f: Frame): Frame
    requires WellFormed(f)
  {
    AddAll(Renamed(ex, f), Adds(ex))
  }

  /** The reshaping of the main block: rename, set the constant columns, then
      `loc[:, OutputColumns]`; None where that selection raises KeyError. */
  function Reshape(ex: Exchange, f: Frame): Option<Frame>
    requires WellFormed(f)
  {
    Select(Augmented(ex, f), OutputColumns)
  }

  /** The reshaping as the main block runs it: `df` rebound by the rename, then one
      column assignment per `col_add` entry, then the selection. */
  method ReshapeTable(ex: Exchange, f: Frame) returns (r: Option<Frame>)
    requires WellFormed(f)
    ensures r == Reshape(ex, f)
  {
    var df := Rename(f, ex.ColRename());
    df := AddConstantColumns(df, Adds(ex));
    r := Select(df, OutputColumns);
  }

  /** The assignments of a listing have distinct keys, Category first, and Exchange only
      outside DOW. */
  lemma AddsKeys(ex: Exchange)
    ensures DistinctKeys(Adds(ex))
    ensures Keys(Adds(ex)) == if ex == Dow then ["Category"] else ["Category", "Exchange"]
  {
  }

  /** A label other than the assigned keys is a column after the assignments exactly
      when it was one after the rename, and is first found at the same position. */
  lemma {:induction false} AugmentedKeeps(ex: Exchange, f: Frame, x: string)
    requires WellFormed(f) && x !in Keys(Adds(ex))
    ensures x in Augmented(ex, f).columns <==> x in Renamed(ex, f).columns
    ensures x in Renamed(ex, f).columns ==>
              IndexOf(Augmented(ex, f).columns, x) == IndexOf(Renamed(ex, f).columns, x)
  {
    var r := Renamed(ex, f);
    var a := Augmented(ex, f);
    AddsKeys(ex);
    AddAllResult(r, Adds(ex));
    if x in a.columns {
      var j :| 0 <= j < |a.columns| && a.columns[j] == x;
      assert j < |r.columns|;
      assert r.columns[j] == x;
    }
    if x in r.columns {
      IndexOfPrefix(r.columns, a.columns, x);
    }
  }

  /** A label first found in a prefix is first found at the same place in the whole. */
  lemma IndexOfPrefix(xs: seq<string>, ys: seq<string>, x: string)
    requires xs <= ys && x in xs
    ensures IndexOf(ys, x) == IndexOf(xs, x)
  {
    var i := IndexOf(xs, x).value;
    assert ys[..i] == xs[..i];
    assert ys[i] == x && x !in ys[..i];
  }

  /** The export succeeds exactly when the renamed table has Symbol Name and Description
      columns and, for DOW (which sets no Exchange), an Exchange column of its own. */
  lemma ReshapeSucceeds(ex: Exchange, f: Frame)
    requires WellFormed(f)
    ensures Reshape(ex, f).Some? <==>
            && "Symbol Name" in Renamed(ex, f).columns
            && "Description" in Renamed(ex, f).columns
            && (ex == Dow ==> "Exchange" in Renamed(ex, f).columns)
  {
    AddsKeys(ex);
    AddAllResult(Renamed(ex, f), Adds(ex));
    AugmentedKeeps(ex, f, "Symbol Name");
    AugmentedKeeps(ex, f, "Description");
    var a := Augmented(ex, f);
    if ex == Dow {
      AugmentedKeeps(ex, f, "Exchange");
    } else {
      assert Adds(ex)[1].0 == "Exchange";
      assert "Exchange" in a.columns;
    }
    assert Adds(ex)[0].0 == "Category";
    assert "Category" in a.columns;
    HasOutputColumns(a);
  }

  /** A table has the output columns exactly when it has each of the four. */
  lemma HasOutputColumns(a: Frame)
    ensures HasColumns(a, OutputColumns) <==>
            "Symbol Name" in a.columns && "Description" in a.columns &&
            "Exchange" in a.columns && "Category" in a.columns
  {
    assert OutputColumns[0] == "Symbol Name" && OutputColumns[1] == "Description";
    assert OutputColumns[2] == "Exchange" && OutputColumns[3] == "Category";
  }

  /** A fetched table with a Symbol column and the listing's description column always
      exports outside DOW; a DOW table without an Exchange column never does. */
  lemma ReshapeByListing(ex: Exchange, f: Frame, d: string)
    requires WellFormed(f)
    ensures (ex != Dow && "Symbol" in f.columns && d in f.columns && d in ex.ColRename() &&
             ex.ColRename()[d] == "Description") ==> Reshape(ex, f).Some?
    ensures ex == Dow && "Exchange" !in f.columns ==> Reshape(ex, f).None?
  {
    var r := Renamed(ex, f);
    ReshapeSucceeds(ex, f);
    if "Symbol" in f.columns {
      var j :| 0 <= j < |f.columns| && f.columns[j] == "Symbol";
      assert r.columns[j] == "Symbol Name";
    }
    if d in f.columns && d in ex.ColRename() && ex.ColRename()[d] == "Description" {
      var j :| 0 <= j < |f.columns| && f.columns[j] == d;
      assert r.columns[j] == "Description";
    }
    if ex == Dow && "Exchange" !in f.columns {
      assert "Exchange" !in r.columns by {
        forall j | 0 <= j < |r.columns|
          ensures r.columns[j] != "Exchange"
        {
          assert f.columns[j] != "Exchange";
        }
      }
    }
  }

  /** When the renamed table has the columns the export needs, the exported table has
      the four output columns in order and one row per fetched row; Symbol Name and
      Description are the cells of the renamed table's first columns of those names, Category is "Stocks" on every row, and Exchange is
      "NASDAQ" for NASDAQ and "" for SP500. */
  lemma {:induction false} ReshapeResult(ex: Exchange, f: Frame)
    requires WellFormed(f)
    requires "Symbol Name" in Renamed(ex, f).columns && "Description" in Renamed(ex, f).columns
    requires ex == Dow ==> "Exchange" in Renamed(ex, f).columns
    ensures Reshape(ex, f).Some?
    ensures var g := Reshape(ex, f).value;
            && g.columns == OutputColumns && |g.rows| == |f.rows| && WellFormed(g)
            && forall k :: 0 <= k < |f.rows| ==>
                 && g.rows[k][0] == f.rows[k][IndexOf(Renamed(ex, f).columns, "Symbol Name").value]
                 && g.rows[k][1] == f.rows[k][IndexOf(Renamed(ex, f).columns, "Description").value]
                 && g.rows[k][3] == Str("Stocks")
                 && (ex == Nasdaq ==> g.rows[k][2] == Str("NASDAQ"))
                 && (ex == Sp500 ==> g.rows[k][2] == Str(""))
  {
    var r := Renamed(ex, f);
    var a := Augmented(ex, f);
    ReshapeSucceeds(ex, f);
    AddsKeys(ex);
    var g := Reshape(ex, f).value;
    forall k | 0 <= k < |f.rows|
      ensures g.rows[k][0] == f.rows[k][IndexOf(r.columns, "Symbol Name").value]
      ensures g.rows[k][1] == f.rows[k][IndexOf(r.columns, "Description").value]
    {
      AugmentedCell(ex, f, "Symbol Name", k);
      AugmentedCell(ex, f, "Description", k);
    }
    forall k | 0 <= k < |f.rows|
      ensures g.rows[k][3] == Str("Stocks")
      ensures ex != Dow ==> g.rows[k][2] == Str(if ex == Nasdaq then "NASDAQ" else "")
    {
      AddedCell(ex, f, 0, k);
      if ex != Dow {
        AddedCell(ex, f, 1, k);
      }
    }
  }

  /** A column the assignments leave alone keeps the renamed table's cells. */
  lemma AugmentedCell(ex: Exchange, f: Frame, x: string, k: nat)
    requires WellFormed(f) && x in Renamed(ex, f).columns && x !in Keys(Adds(ex)) && k < |f.rows|
    ensures x in Augmented(ex, f).columns
    ensures Augmented(ex, f).rows[k][IndexOf(Augmented(ex, f).columns, x).value] ==
            f.rows[k][IndexOf(Renamed(ex, f).columns, x).value]
  {
    AddsKeys(ex);
    AugmentedKeeps(ex, f, x);
    AddAllResult(Renamed(ex, f), Adds(ex));
  }

  /** An assigned column holds its constant on every row. */
  lemma AddedCell(ex: Exchange, f: Frame, t: nat, k: nat)
    requires WellFormed(f) && t < |Adds(ex)| && k < |f.rows|
    ensures Adds(ex)[t].0 in Augmented(ex, f).columns
    ensures Augmented(ex, f).rows[k][IndexOf(Augmented(ex, f).columns, Adds(ex)[t].0).value] == Adds(ex)[t].1
  {
    AddsKeys(ex);
    AddAllResult(Renamed(ex, f), Adds(ex));
  }

  /** What the main block does with the listings, in order: nothing for a listing whose
      fetch failed; the reshaped table to its dated path otherwise; and a stop, with the
      writes made so far, at the first table whose selection raises. */
  datatype Run = Run(writes: seq<Write>, crashed: bool)

  function TableRun(exs: seq<Exchange>, date: string, listing: (string, bool) -> TableFetch): (run: Run)
    ensures |run.writes| <= |exs|
    decreases |exs|
  {
    if exs == [] then Run([], false)
    else match GetTickerTable(exs[0], listing)
      case None => TableRun(exs[1..], date, listing)
      case Some(f) =>
        if !WellFormed(f) then Run([], true)
        else match Reshape(exs[0], f)
          case None => Run([], true)
          case Some(g) =>
            var rest := TableRun(exs[1..], date, listing);
            Run([TableWrite(DatedPath("symbols_table", date, exs[0].Method()), g)] + rest.writes, rest.crashed)
  }

  /** The `__main__` loop over the listings in declaration order. */
  method SymbolTableMain(date: string, listing: (string, bool) -> TableFetch) returns (writes: seq<Write>, crashed: bool)
    ensures Run(writes, crashed) == TableRun(Exchanges, date, listing)
    ensures forall w :: w in writes ==> exists ex :: Exports(ex, listing) && w == ExportWrite(date, ex, listing)
    ensures crashed <==> exists ex :: Stops(ex, listing)
    ensures !crashed ==> forall ex :: GetTickerTable(ex, listing).Some? ==>
              Exports(ex, listing) && ExportWrite(date, ex, listing) in writes
    ensures forall k :: 0 <= k < |Exchanges| && Stops(Exchanges[k], listing) &&
                        (forall j :: 0 <= j < k ==> !Stops(Exchanges[j], listing)) ==>
              writes == TableRun(Exchanges[..k], date, listing).writes
  {
    writes, crashed := RunListings(Exchanges, date, listing);
    ExchangesDistinct();
    TableRunWrites(Exchanges, date, listing);
    forall k | 0 <= k < |Exchanges| && Stops(Exchanges[k], listing) &&
               (forall j :: 0 <= j < k ==> !Stops(Exchanges[j], listing))
      ensures writes == TableRun(Exchanges[..k], date, listing).writes
    {
      TableRunStopsAt(Exchanges, date, listing, k);
    }
  }

  /** The loop body over any list of listings: fetch, reshape and write each one, and
      stop at the first table that cannot be reshaped. */
  method RunListings(exs: seq<Exchange>, date: string, listing: (string, bool) -> TableFetch)
    returns (writes: seq<Write>, crashed: bool)
    ensures Run(writes, crashed) == TableRun(exs, date, listing)
  {
    writes := [];
    crashed := false;
    var i := 0;
    while i < |exs| && !crashed
      invariant 0 <= i <= |exs|
      invariant !crashed ==> TableRun(exs, date, listing) == Prepend(writes, TableRun(exs[i..], date, listing))
      invariant crashed ==> TableRun(exs, date, listing) == Run(writes, true)
    {
      var ex := exs[i];
      TableRunStep(exs[i..], date, listing);
      assert exs[i..][0] == ex && exs[i..][1..] == exs[i + 1..];
      var df := GetTickerTable(ex, listing);
      if df.Some? {
        if !WellFormed(df.value) {
          crashed := true;
        } else {
          var out := ReshapeTable(ex, df.value);
          if out.None? {
            crashed := true;
          } else {
            writes := writes + [TableWrite(DatedPath("symbols_table", date, ex.Method()), out.value)];
          }
        }
      }
      i := i + 1;
    }
  }

  /** A run with some writes made before it. */
  function Prepend(writes: seq<Write>, run: Run): Run {
    Run(writes + run.writes, run.crashed)
  }

  /** One listing's step of the run. */
  lemma TableRunStep(exs: seq<Exchange>, date: string, listing: (string, bool) -> TableFetch)
    requires exs != []
    ensures GetTickerTable(exs[0], listing).None? ==> TableRun(exs, date, listing) == TableRun(exs[1..], date, listing)
    ensures GetTickerTable(exs[0], listing).Some? && !WellFormed(GetTickerTable(exs[0], listing).value) ==>
              TableRun(exs, date, listing) == Run([], true)
    ensures GetTickerTable(exs[0], listing).Some? && WellFormed(GetTickerTable(exs[0], listing).value) ==>
              var g := Reshape(exs[0], GetTickerTable(exs[0], listing).value);
              TableRun(exs, date, listing) ==
              if g.None? then Run([], true)
              else Prepend([TableWrite(DatedPath("symbols_table", date, exs[0].Method()), g.value)], TableRun(exs[1..], date, listing))
  {
  }

  /** Each listing's table goes to its own file: the written paths are pairwise
      distinct, and a listing is written only if its fetch succeeded. */
  lemma {:induction false} TableRunPaths(exs: seq<Exchange>, date: string, listing: (string, bool) -> TableFetch)
    requires forall i, j :: 0 <= i < j < |exs| ==> exs[i] != exs[j]
    ensures forall w :: w in TableRun(exs, date, listing).writes ==>
              exists ex :: ex in exs && w.path == DatedPath("symbols_table", date, ex.Method()) && GetTickerTable(ex, listing).Some?
    ensures forall i, j :: 0 <= i < j < |TableRun(exs, date, listing).writes| ==>
              TableRun(exs, date, listing).writes[i].path != TableRun(exs, date, listing).writes[j].path
    decreases |exs|
  {
    if exs != [] {
      var ex0, rest := exs[0], exs[1..];
      assert forall i, j :: 0 <= i < j < |rest| ==> rest[i] != rest[j] by {
        forall i, j | 0 <= i < j < |rest|
          ensures rest[i] != rest[j]
        {
          assert rest[i] == exs[i + 1] && rest[j] == exs[j + 1];
        }
      }
      TableRunPaths(rest, date, listing);
      var run := TableRun(exs, date, listing);
      var tail := TableRun(rest, date, listing);
      var fetched := GetTickerTable(ex0, listing);
      if fetched.Some? && WellFormed(fetched.value) && Reshape(ex0, fetched.value).Some? {
        var w0 := TableWrite(DatedPath("symbols_table", date, ex0.Method()), Reshape(ex0, fetched.value).value);
        assert run.writes == [w0] + tail.writes;
        assert ex0 !in rest;
        forall w | w in tail.writes
          ensures w.path != w0.path
        {
          var ex :| ex in rest && w.path == DatedPath("symbols_table", date, ex.Method()) && GetTickerTable(ex, listing).Some?;
          DatedPathInjective("symbols_table", date, ex.Method(), ex0.Method());
          ExchangesDistinct();
        }
        ConsDistinctPaths(w0, tail.writes);
      } else if fetched.None? {
        assert run == tail;
      } else {
        assert run.writes == [];
      }
    }
  }

  /** A listing the run exports: its fetch succeeded, the table is well formed and the
      selection finds its columns. */
  predicate Exports(ex: Exchange, listing: (string, bool) -> TableFetch) {
    GetTickerTable(ex, listing).Some? && WellFormed(GetTickerTable(ex, listing).value) &&
    Reshape(ex, GetTickerTable(ex, listing).value).Some?
  }

  /** A listing that stops the run: its fetch succeeded but its table cannot be exported. */
  predicate Stops(ex: Exchange, listing: (string, bool) -> TableFetch) {
    GetTickerTable(ex, listing).Some? && !Exports(ex, listing)
  }

  /** The write of an exported listing: its reshaped table at its dated path. */
  function ExportWrite(date: string, ex: Exchange, listing: (string, bool) -> TableFetch): Write
    requires Exports(ex, listing)
  {
    TableWrite(DatedPath("symbols_table", date, ex.Method()), Reshape(ex, GetTickerTable(ex, listing).value).value)
  }

  /** What the run writes: every write is an exported listing's reshaped table at its
      path; the run stops exactly when some listing's table cannot be exported; and a run
      that does not stop writes every listing whose fetch succeeded. */
  lemma {:induction false} TableRunWrites(exs: seq<Exchange>, date: string, listing: (string, bool) -> TableFetch)
    ensures forall w :: w in TableRun(exs, date, listing).writes ==>
              exists ex :: ex in exs && Exports(ex, listing) && w == ExportWrite(date, ex, listing)
    ensures TableRun(exs, date, listing).crashed <==> exists ex :: ex in exs && Stops(ex, listing)
    ensures !TableRun(exs, date, listing).crashed ==>
              forall ex :: ex in exs && GetTickerTable(ex, listing).Some? ==>
                Exports(ex, listing) && ExportWrite(date, ex, listing) in TableRun(exs, date, listing).writes
    decreases |exs|
  {
    if exs != [] {
      var ex0, rest := exs[0], exs[1..];
      assert exs == [ex0] + rest;
      TableRunWrites(rest, date, listing);
      TableRunStep(exs, date, listing);
      if Exports(ex0, listing) {
        assert TableRun(exs, date, listing) ==
               Prepend([ExportWrite(date, ex0, listing)], TableRun(rest, date, listing));
      } else if GetTickerTable(ex0, listing).None? {
        assert TableRun(exs, date, listing) == TableRun(rest, date, listing);
      } else {
        assert Stops(ex0, listing);
        assert TableRun(exs, date, listing) == Run([], true);
      }
    }
  }

  /** A write made before a run carries over to that run continued by another. */
  lemma PrependThen(w: seq<Write>, ra: Run, rb: Run, rab: Run)
    requires rab == if ra.crashed then ra else Prepend(ra.writes, rb)
    ensures Prepend(w, rab) == if Prepend(w, ra).crashed then Prepend(w, ra) else Prepend(Prepend(w, ra).writes, rb)
  {
    if !ra.crashed {
      assert w + (ra.writes + rb.writes) == (w + ra.writes) + rb.writes;
    }
  }

  /** The run follows listing order: over two blocks of listings, a stop in the first
      block ends the run there; otherwise the second block's writes follow the first's. */
  lemma {:induction false} TableRunAppend(a: seq<Exchange>, b: seq<Exchange>, date: string,
                                          listing: (string, bool) -> TableFetch)
    ensures TableRun(a + b, date, listing) ==
            if TableRun(a, date, listing).crashed then TableRun(a, date, listing)
            else Prepend(TableRun(a, date, listing).writes, TableRun(b, date, listing))
    decreases |a|
  {
    if a == [] {
      assert a + b == b;
    } else {
      assert (a + b)[0] == a[0] && (a + b)[1..] == a[1..] + b;
      TableRunAppend(a[1..], b, date, listing);
      var fetched := GetTickerTable(a[0], listing);
      if fetched.None? {
        assert TableRun(a + b, date, listing) == TableRun(a[1..] + b, date, listing) by {
          TableRunStep(a + b, date, listing);
        }
        assert TableRun(a, date, listing) == TableRun(a[1..], date, listing) by {
          TableRunStep(a, date, listing);
        }
      } else if !WellFormed(fetched.value) || Reshape(a[0], fetched.value).None? {
        assert TableRun(a + b, date, listing) == Run([], true) by {
          TableRunStep(a + b, date, listing);
        }
        assert TableRun(a, date, listing) == Run([], true) by {
          TableRunStep(a, date, listing);
        }
      } else {
        var w := TableWrite(DatedPath("symbols_table", date, a[0].Method()), Reshape(a[0], fetched.value).value);
        var ra := TableRun(a[1..], date, listing);
        var rb := TableRun(b, date, listing);
        assert TableRun(a + b, date, listing) == Prepend([w], TableRun(a[1..] + b, date, listing)) by {
          TableRunStep(a + b, date, listing);
        }
        assert TableRun(a, date, listing) == Prepend([w], ra) by {
          TableRunStep(a, date, listing);
        }
        PrependThen([w], ra, rb, TableRun(a[1..] + b, date, listing));
      }
    }
  }

  /** The uncaught KeyError ends the script: when listing `k` is the first whose table
      cannot be exported, the run writes exactly what the listings before it write, and
      no later listing is exported. */
  lemma TableRunStopsAt(exs: seq<Exchange>, date: string, listing: (string, bool) -> TableFetch, k: nat)
    requires k < |exs| && Stops(exs[k], listing)
    requires forall j :: 0 <= j < k ==> !Stops(exs[j], listing)
    ensures TableRun(exs, date, listing) == Run(TableRun(exs[..k], date, listing).writes, true)
  {
    assert exs == exs[..k] + exs[k..];
    TableRunAppend(exs[..k], exs[k..], date, listing);
    TableRunWrites(exs[..k], date, listing);
    TableRunStep(exs[k..], date, listing);
  }

  /** The main block writes each listing's table to its own file: no two of its writes
      share a path. */
  lemma MainPathsDistinct(date: string, listing: (string, bool) -> TableFetch)
    ensures forall i, j :: 0 <= i < j < |TableRun(Exchanges, date, listing).writes| ==>
              TableRun(Exchanges, date, listing).writes[i].path != TableRun(Exchanges, date, listing).writes[j].path
  {
    ExchangesDistinct();
    TableRunPaths(Exchanges, date, listing);
  }

  /** A write whose path no later write has keeps the paths pairwise distinct. */
  lemma ConsDistinctPaths(w0: Write, ws: seq<Write>)
    requires forall i, j :: 0 <= i < j < |ws| ==> ws[i].path != ws[j].path
    requires forall w :: w in ws ==> w.path != w0.path
    ensures forall i, j :: 0 <= i < j < |[w0] + ws| ==> ([w0] + ws)[i].path != ([w0] + ws)[j].path
  {
    var all := [w0] + ws;
    forall i, j | 0 <= i < j < |all|
      ensures all[i].path != all[j].path
    {
      assert all[j] == ws[j - 1];
      if i > 0 {
        assert all[i] == ws[i - 1];
      }
    }
  }
}
