/** The volatility batch: one six-field record per stock symbol, drawn from the
    provider's attribute bag, with a partial table written every 100 symbols and the
    full table at the end. */
module TickerVolatility {
  import opened Values
  import opened Text
  import opened Frames
  import Constants
  import TickerClassification

  /** The record's fields, in the order the tables are projected to (Ticker first). */
  const VolatilityColumns: seq<string> :=
    ["Ticker", "Beta (5Y Monthly)", "52 Week Change", "Avg Vol (3 month)", "Avg Vol (10 day)", "Shares Outstanding"]

  /** The bag key read for each field after Ticker, position by position. */
  const AttributeKeys: seq<string> :=
    ["beta", "52WeekChange", "averageVolume", "averageVolume10days", "sharesOutstanding"]

  /** The set of record fields. */
  function ColumnSet(): (cs: set<string>)
    ensures forall j :: 0 <= j < |VolatilityColumns| ==> VolatilityColumns[j] in cs
  {
    set c | c in VolatilityColumns
  }

  /** `extract_volatility_data`: Ticker is the symbol; each other field is the bag's value
      for its key, None when absent; a failed lookup gives None in every other field. */
  function ExtractVolatilityData(ticker: string, lookup: Lookup): (record: map<string, Value>)
    ensures record.Keys == ColumnSet() && IsRecord(record)
    ensures record["Ticker"] == Str(ticker)
    ensures forall j :: 1 <= j < |VolatilityColumns| ==>
              record[VolatilityColumns[j]] ==
              (if lookup.Threw? then Null else Get(lookup.bag, AttributeKeys[j - 1], Null))
  {
    var bag := if lookup.Threw? then map[] else lookup.bag;
    map["Ticker" := Str(ticker),
        "Beta (5Y Monthly)" := Get(bag, "beta", Null),
        "52 Week Change" := Get(bag, "52WeekChange", Null),
        "Avg Vol (3 month)" := Get(bag, "averageVolume", Null),
        "Avg Vol (10 day)" := Get(bag, "averageVolume10days", Null),
        "Shares Outstanding" := Get(bag, "sharesOutstanding", Null)]
  }

  /** A record holding every field the tables are projected to. */
  predicate IsRecord(record: map<string, Value>) {
    forall j :: 0 <= j < |VolatilityColumns| ==> VolatilityColumns[j] in record
  }

  /** `DataFrame(records)[cols]`: one row per record, the fields in column order. */
  function Project(records: seq<map<string, Value>>): (f: Frame)
    requires forall k :: 0 <= k < |records| ==> IsRecord(records[k])
    ensures WellFormed(f) && f.columns == VolatilityColumns && |f.rows| == |records|
    ensures forall k :: 0 <= k < |records| ==> f.rows[k] == ProjectRow(records[k])
  {
    Frame(VolatilityColumns, seq(|records|, k requires 0 <= k < |records| => ProjectRow(records[k])))
  }

  /** One record's fields in column order. */
  function ProjectRow(record: map<string, Value>): (row: seq<Value>)
    requires IsRecord(record)
    ensures |row| == |VolatilityColumns|
    ensures forall j :: 0 <= j < |VolatilityColumns| ==> row[j] == record[VolatilityColumns[j]]
  {
    seq(|VolatilityColumns|, j requires 0 <= j < |VolatilityColumns| => record[VolatilityColumns[j]])
  }

  /** The records of the first symbols, in input order. */
  function Records(symbols: seq<string>, info: string -> Lookup): (records: seq<map<string, Value>>)
    ensures |records| == |symbols|
    ensures forall k :: 0 <= k < |symbols| ==> records[k] == ExtractVolatilityData(symbols[k], info(symbols[k]))
  {
    seq(|symbols|, k requires 0 <= k < |symbols| => ExtractVolatilityData(symbols[k], info(symbols[k])))
  }

  /** The records of one more symbol: the earlier records and then its own. */
  lemma RecordsSnoc(symbols: seq<string>, info: string -> Lookup, i: nat)
    requires i < |symbols|
    ensures Records(symbols[..i + 1], info) ==
            Records(symbols[..i], info) + [ExtractVolatilityData(symbols[i], info(symbols[i]))]
  {
    var a := Records(symbols[..i + 1], info);
    var b := Records(symbols[..i], info) + [ExtractVolatilityData(symbols[i], info(symbols[i]))];
    assert |a| == |b|;
    forall k | 0 <= k < |a|
      ensures a[k] == b[k]
    {
      assert symbols[..i + 1][k] == symbols[k];
    }
  }

  /** Where the symbols are read from and the final table goes. */
  const SymbolsPath: string := Constants.OutputDir + "/symbols_list/stocks_symbols.txt"

  /** The volatility script reads the stocks list the classification script writes. */
  lemma StocksFeedVolatility()
    ensures SymbolsPath == TickerClassification.StocksPath
  {
  }

  const OutputBase: string := Constants.OutputDir + "/symbol_info/stocks_ticker_volatility"
  const OutputFile: string := OutputBase + ".csv"

  /** The checkpoint path: the output path with every ".csv" replaced by "_partial.csv". */
  function PartialPath(): string {
    ReplaceAll(OutputFile, ".csv", "_partial.csv")
  }

  /** The checkpoint path is the output path's directory and stem with "_partial.csv". */
  lemma PartialPathValue()
    ensures PartialPath() == Constants.OutputDir + "/symbol_info/stocks_ticker_volatility_partial.csv"
  {
    assert '.' !in Constants.OutputDir;
    assert '.' !in "/symbol_info/stocks_ticker_volatility";
    assert '.' !in OutputBase;
    ReplaceCsvSuffix(OutputBase, "_partial.csv");
  }

  /** A checkpoint is due after the symbol at index `i` (counting from 0). */
  predicate CheckpointDue(i: nat) {
    (i + 1) % 100 == 0
  }

  /** The writes of the loop over the first `n` symbols: after each symbol whose count is
      a multiple of 100, the table of everything accumulated so far, to the partial path. */
  function Checkpoints(symbols: seq<string>, info: string -> Lookup, n: nat): (writes: seq<Write>)
    requires n <= |symbols|
    ensures |writes| == n / 100
    ensures forall w :: w in writes ==> w.TableWrite? && w.path == PartialPath()
    decreases n
  {
    if n == 0 then []
    else
      Checkpoints(symbols, info, n - 1) +
      (if CheckpointDue(n - 1) then [TableWrite(PartialPath(), Project(Records(symbols[..n], info)))] else [])
  }

  /** Everything `main` writes for a symbol list read from the file: nothing for an
      empty list; otherwise the checkpoints, then the full table to the output path. */
  function VolatilityWrites(symbols: seq<string>, info: string -> Lookup): (writes: seq<Write>)
    ensures symbols == [] <==> writes == []
    ensures symbols != [] ==> |writes| == |symbols| / 100 + 1 && writes[|writes| - 1].path == OutputFile
    ensures forall k :: 0 <= k < |writes| - 1 ==> writes[k].path == PartialPath()
  {
    if symbols == [] then []
    else Checkpoints(symbols, info, |symbols|) + [TableWrite(OutputFile, Project(Records(symbols, info)))]
  }

  /** The loop of `main`: each symbol's record appended in order (the extractor never
      raises, so no symbol lands in the failure list), and a checkpoint written when due. */
  method ProcessTickers(symbols: seq<string>, info: string -> Lookup)
    returns (data: seq<map<string, Value>>, failed: seq<string>, checkpoints: seq<Write>)
    ensures data == Records(symbols, info)
    ensures failed == []
    ensures checkpoints == Checkpoints(symbols, info, |symbols|)
  {
    data := [];
    failed := [];
    checkpoints := [];
    for i := 0 to |symbols|
      invariant data == Records(symbols[..i], info)
      invariant failed == []
      invariant checkpoints == Checkpoints(symbols, info, i)
    {
      var record := ExtractVolatilityData(symbols[i], info(symbols[i]));
      RecordsSnoc(symbols, info, i);
      data := data + [record];
      assert Checkpoints(symbols, info, i + 1) ==
             checkpoints + (if CheckpointDue(i) then [TableWrite(PartialPath(), Project(data))] else []);
      if CheckpointDue(i) && data != [] {
        checkpoints := checkpoints + [TableWrite(PartialPath(), Project(data))];
      }
    }
    assert symbols[..|symbols|] == symbols;
  }

  /** `main`: read the symbols; nothing is written for an empty list; otherwise the
      loop's checkpoints and then the full table. */
  method VolatilityMain(file: TickerClassification.SymbolsFile, info: string -> Lookup) returns (writes: seq<Write>)
    ensures writes == VolatilityWrites(TickerClassification.ReadSymbols(file), info)
  {
    var symbols := TickerClassification.ReadSymbols(file);
    if symbols == [] {
      return [];
    }
    var data, failed, checkpoints := ProcessTickers(symbols, info);
    writes := checkpoints;
    if data != [] {
      writes := writes + [TableWrite(OutputFile, Project(data))];
    }
  }

  /** Every symbol yields exactly one row of the final table, in input order, and no
      symbol fails. */
  lemma OneRowPerSymbol(symbols: seq<string>, info: string -> Lookup)
    requires symbols != []
    ensures var f := VolatilityWrites(symbols, info)[|VolatilityWrites(symbols, info)| - 1];
            && f.TableWrite? && f.path == OutputFile && f.table.columns == VolatilityColumns
            && |f.table.rows| == |symbols|
            && forall k :: 0 <= k < |symbols| ==> f.table.rows[k][0] == Str(symbols[k])
  {
  }

  /** There is one checkpoint per full hundred symbols; checkpoint `t` goes to the partial
      path and holds the first 100 * (t + 1) rows of the final table, so each checkpoint
      is a prefix of the final table and of every later checkpoint. */
  lemma {:induction false} CheckpointsArePrefixes(symbols: seq<string>, info: string -> Lookup, n: nat)
    requires n <= |symbols|
    ensures |Checkpoints(symbols, info, n)| == n / 100
    ensures forall t :: 0 <= t < n / 100 ==>
              var w := Checkpoints(symbols, info, n)[t];
              && w.TableWrite? && w.path == PartialPath()
              && w.table.columns == VolatilityColumns
              && w.table.rows == Project(Records(symbols, info)).rows[..100 * (t + 1)]
  {
    if n > 0 {
      CheckpointsArePrefixes(symbols, info, n - 1);
      var full := Project(Records(symbols, info));
      if CheckpointDue(n - 1) {
        var t := n / 100 - 1;
        assert 100 * (t + 1) == n;
        var w := Project(Records(symbols[..n], info));
        assert w.rows == full.rows[..n];
      } else {
        assert n / 100 == (n - 1) / 100;
      }
    }
  }

  /** Every table written, partial or final, has the same columns in the same order,
      Ticker first. */
  lemma {:induction false} WritesShareColumns(symbols: seq<string>, info: string -> Lookup)
    ensures forall w :: w in VolatilityWrites(symbols, info) ==>
              w.TableWrite? && w.table.columns == VolatilityColumns && w.table.columns[0] == "Ticker"
  {
    if symbols != [] {
      CheckpointsArePrefixes(symbols, info, |symbols|);
      var cps := Checkpoints(symbols, info, |symbols|);
      forall w | w in VolatilityWrites(symbols, info)
        ensures w.TableWrite? && w.table.columns == VolatilityColumns
      {
        if w in cps {
          var t :| 0 <= t < |cps| && cps[t] == w;
        }
      }
    }
  }
}
