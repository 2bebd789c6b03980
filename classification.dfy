/** The ticker classifier: reading the symbols file, the rule cascade that labels a
    ticker STOCK, ETF, UNKNOWN or ERROR from its provider attributes, the loop that
    sorts every ticker into one of four lists, the summary table grouped by label,
    and the files the run writes. */
module TickerClassification {
  import opened Values
  import opened Text
  import opened Frames
  import Constants

  /** The four labels of the classifier. */
  datatype Category = Stock | Etf | Unknown | Error {

    /** The label as the source spells it. */
    function Label(): string {
      match this
      case Stock => "STOCK"
      case Etf => "ETF"
      case Unknown => "UNKNOWN"
      case Error => "ERROR"
    }
  }

  // ---------------------------------------------------------------- reading the symbols file

  /** A symbols file as Python iterates it, one line (with its line ending) at a time;
      or a file that does not exist. */
  datatype SymbolsFile = Lines(lines: seq<string>) | NotFound

  /** `line.strip().upper()` */
  function Normalize(line: string): string {
    Upper(Strip(line))
  }

  /** A symbol as the reader produces it: non-empty, no surrounding whitespace, upper case. */
  predicate IsSymbol(x: string) {
    x != [] && IsStripped(x) && IsUpper(x)
  }

  lemma NormalizeIsSymbol(line: string)
    requires !IsBlank(line)
    ensures IsSymbol(Normalize(line))
  {
    StripEmptyIffBlank(line);
    var s := Strip(line);
    StripResult(line);
    UpperStrip(s);
    StripStripped(s);
    assert Strip(Upper(s)) == Upper(s);
    StripResult(Upper(s));
  }

  /** `[line.strip().upper() for line in lines if line.strip()]`; `line.strip()` is
      falsy exactly for a blank line (Text.StripEmptyIffBlank). */
  function NormalizedLines(lines: seq<string>): (symbols: seq<string>)
    ensures |symbols| <= |lines|
    decreases |lines|
  {
    if lines == [] then []
    else if !IsBlank(lines[0]) then [Normalize(lines[0])] + NormalizedLines(lines[1..])
    else NormalizedLines(lines[1..])
  }

  /** Every line read is a symbol: non-empty, stripped and upper case. */
  lemma {:induction false} NormalizedAreSymbols(lines: seq<string>)
    ensures forall k :: 0 <= k < |NormalizedLines(lines)| ==> IsSymbol(NormalizedLines(lines)[k])
    decreases |lines|
  {
    if lines != [] {
      NormalizedAreSymbols(lines[1..]);
      var rest := NormalizedLines(lines[1..]);
      if !IsBlank(lines[0]) {
        NormalizeIsSymbol(lines[0]);
        var r := [Normalize(lines[0])] + rest;
        assert NormalizedLines(lines) == r;
        forall k | 0 <= k < |r|
          ensures IsSymbol(r[k])
        {
          if k > 0 {
            assert r[k] == rest[k - 1];
          }
        }
      }
    }
  }

  /** `read_symbols`: the normalised non-blank lines, or [] for a missing file. */
  function ReadSymbols(file: SymbolsFile): (symbols: seq<string>)
    ensures file.NotFound? ==> symbols == []
    ensures file.Lines? ==> |symbols| <= |file.lines|
    ensures forall k :: 0 <= k < |symbols| ==> IsSymbol(symbols[k])
  {
    match file
    case NotFound => []
    case Lines(lines) => NormalizedAreSymbols(lines); NormalizedLines(lines)
  }

  /** Reading keeps the order of the lines: the symbols of a concatenation are the
      symbols of the first part followed by those of the second. */
  lemma {:induction false} ReadSymbolsAppend(a: seq<string>, b: seq<string>)
    ensures NormalizedLines(a + b) == NormalizedLines(a) + NormalizedLines(b)
    decreases |a|
  {
    if a != [] {
      var t := a[1..];
      assert a + b != [] && (a + b)[0] == a[0] && (a + b)[1..] == t + b;
      ReadSymbolsAppend(t, b);
      if !IsBlank(a[0]) {
        assert NormalizedLines(a + b) == [Normalize(a[0])] + NormalizedLines(t + b);
        assert NormalizedLines(a) == [Normalize(a[0])] + NormalizedLines(t);
      } else {
        assert NormalizedLines(a + b) == NormalizedLines(t + b);
        assert NormalizedLines(a) == NormalizedLines(t);
      }
    } else {
      assert a + b == b;
    }
  }

  /** A symbol is read exactly when some non-blank line normalises to it. */
  lemma {:induction false} ReadSymbolsMembers(lines: seq<string>, x: string)
    ensures x in NormalizedLines(lines) <==>
            exists j :: 0 <= j < |lines| && !IsBlank(lines[j]) && Normalize(lines[j]) == x
    decreases |lines|
  {
    if lines != [] {
      ReadSymbolsMembers(lines[1..], x);
      StripEmptyIffBlank(lines[0]);
      if exists j :: 0 <= j < |lines| && !IsBlank(lines[j]) && Normalize(lines[j]) == x {
        var j :| 0 <= j < |lines| && !IsBlank(lines[j]) && Normalize(lines[j]) == x;
        if j > 0 {
          assert lines[1..][j - 1] == lines[j];
        }
      }
      if exists j :: 0 <= j < |lines| - 1 && !IsBlank(lines[1..][j]) && Normalize(lines[1..][j]) == x {
        var j :| 0 <= j < |lines| - 1 && !IsBlank(lines[1..][j]) && Normalize(lines[1..][j]) == x;
        assert lines[j + 1] == lines[1..][j];
      }
    }
  }

  // ---------------------------------------------------------------- writing a symbols file

  /** What `write_symbols_to_file` writes, one `file.write` per symbol: the symbol and "\n". */
  function SymbolLines(symbols: seq<string>): (lines: seq<string>)
    ensures |lines| == |symbols|
  {
    seq(|symbols|, i requires 0 <= i < |symbols| => symbols[i] + "\n")
  }

  /** The content of a symbols file: each symbol followed by "\n". It is the text the
      per-symbol writes put in the file, one after the other. */
  function SymbolsFileContent(symbols: seq<string>): (content: string)
    ensures content == Concat(SymbolLines(symbols))
    decreases |symbols|
  {
    if symbols == [] then ""
    else
      assert SymbolLines(symbols)[0] == symbols[0] + "\n" && SymbolLines(symbols)[1..] == SymbolLines(symbols[1..]);
      symbols[0] + "\n" + SymbolsFileContent(symbols[1..])
  }

  /** Splitting a written symbols file on "\n" gives the symbols, then the empty text
      after the last line ending. */
  lemma SymbolsFileSplit(symbols: seq<string>)
    requires forall k :: 0 <= k < |symbols| ==> '\n' !in symbols[k]
    ensures Split(SymbolsFileContent(symbols), '\n') == symbols + [""]
  {
    ContentIsJoin(symbols);
    SplitJoin(symbols + [""], '\n');
  }

  lemma {:induction false} ContentIsJoin(symbols: seq<string>)
    ensures SymbolsFileContent(symbols) == Join(symbols + [""], "\n")
    decreases |symbols|
  {
    if symbols != [] {
      ContentIsJoin(symbols[1..]);
      assert (symbols + [""])[1..] == symbols[1..] + [""];
    }
  }

  /** One written line reads back as the symbol it was written from. */
  lemma SymbolLineReadsBack(x: string)
    requires IsSymbol(x)
    ensures !IsBlank(x + "\n") && Normalize(x + "\n") == x
  {
    assert (x + "\n")[0] == x[0];
    assert IsBlank("\n");
    StripTrailingBlank(x, "\n");
  }

  /** Reading back a file written from read symbols gives the same symbols: the
      stocks list the classifier writes is exactly what the volatility script reads. */
  lemma {:induction false} ReadBack(symbols: seq<string>)
    requires forall k :: 0 <= k < |symbols| ==> IsSymbol(symbols[k])
    ensures ReadSymbols(Lines(SymbolLines(symbols))) == symbols
  {
    NormalizedSymbolLines(symbols);
  }

  lemma {:induction false} NormalizedSymbolLines(symbols: seq<string>)
    requires forall k :: 0 <= k < |symbols| ==> IsSymbol(symbols[k])
    ensures NormalizedLines(SymbolLines(symbols)) == symbols
    decreases |symbols|
  {
    if symbols != [] {
      var x, rest := symbols[0], symbols[1..];
      assert symbols == [x] + rest;
      var lines := SymbolLines(symbols);
      assert lines[0] == x + "\n" && lines[1..] == SymbolLines(rest);
      assert !IsBlank(lines[0]) && Normalize(lines[0]) == x by {
        SymbolLineReadsBack(x);
      }
      assert NormalizedLines(lines[1..]) == rest by {
        forall k | 0 <= k < |rest|
          ensures IsSymbol(rest[k])
        {
          assert rest[k] == symbols[k + 1];
        }
        NormalizedSymbolLines(rest);
      }
    }
  }

  // ---------------------------------------------------------------- the rule cascade

  /** `info.get('quoteType', 'UNKNOWN')` */
  function QuoteType(bag: map<string, Value>): Value {
    Get(bag, "quoteType", Str("UNKNOWN"))
  }

  /** `info.get('legalType', '')` */
  function LegalType(bag: map<string, Value>): Value {
    Get(bag, "legalType", Str(""))
  }

  /** `info.get('fundFamily', '')` */
  function FundFamily(bag: map<string, Value>): Value {
    Get(bag, "fundFamily", Str(""))
  }

  /** The quote type settles the label by itself. */
  predicate QuoteTypeDecides(bag: map<string, Value>) {
    QuoteType(bag) == Str("ETF") || QuoteType(bag) == Str("EQUITY")
  }

  /** The upper-cased legal type mentions an exchange-traded fund. */
  predicate LegalTypeNamesEtf(legal: string) {
    Contains(Upper(legal), "ETF") || Contains(Upper(legal), "EXCHANGE TRADED")
  }

  /** A fund family that is set and is not the placeholder "Unknown". */
  predicate FundFamilyNamesEtf(v: Value) {
    Truthy(v) && v != Str("Unknown")
  }

  /** `classify_ticker`: the ordered rules over the attribute bag. Every lookup gets
      exactly one label: quoteType ETF or EQUITY wins outright; otherwise a legal type
      naming an ETF, then a real fund family, give ETF; otherwise UNKNOWN. A failed
      lookup, or a legal type that is present but not a string (so `.upper()` raises),
      gives ERROR. */
  function ClassifyTicker(lookup: Lookup): (c: Category)
    ensures c == Error <==> lookup.Threw? ||
                            (!QuoteTypeDecides(lookup.bag) && !LegalType(lookup.bag).Str?)
    ensures c == Stock <==> lookup.Info? && QuoteType(lookup.bag) == Str("EQUITY")
    ensures c == Etf <==> lookup.Info? &&
                          (QuoteType(lookup.bag) == Str("ETF") ||
                           (!QuoteTypeDecides(lookup.bag) && LegalType(lookup.bag).Str? &&
                            (LegalTypeNamesEtf(LegalType(lookup.bag).s) || FundFamilyNamesEtf(FundFamily(lookup.bag)))))
    ensures c == Unknown <==> lookup.Info? && !QuoteTypeDecides(lookup.bag) && LegalType(lookup.bag).Str? &&
                              !LegalTypeNamesEtf(LegalType(lookup.bag).s) && !FundFamilyNamesEtf(FundFamily(lookup.bag))
  {
    match lookup
    case Threw => Error
    case Info(bag) =>
      var quoteType := QuoteType(bag);
      if quoteType == Str("ETF") then Etf
      else if quoteType == Str("EQUITY") then Stock
      else
        var fundFamily := FundFamily(bag);
        var legalType := LegalType(bag);
        if !legalType.Str? then Error
        else if LegalTypeNamesEtf(legalType.s) then Etf
        else if FundFamilyNamesEtf(fundFamily) then Etf
        else Unknown
  }

  // ---------------------------------------------------------------- the partition loop

  /** The tickers of `symbols` whose label is `c`, in input order. */
  function Bucket(symbols: seq<string>, info: string -> Lookup, c: Category): (b: seq<string>)
    ensures |b| <= |symbols|
    decreases |symbols|
  {
    if symbols == [] then []
    else
      var n := |symbols| - 1;
      Bucket(symbols[..n], info, c) + (if ClassifyTicker(info(symbols[n])) == c then [symbols[n]] else [])
  }

  /** The loop of `main` that appends each ticker to the list of its label. */
  method PartitionTickers(symbols: seq<string>, info: string -> Lookup)
    returns (stocks: seq<string>, etfs: seq<string>, unknown: seq<string>, errors: seq<string>)
    ensures stocks == Bucket(symbols, info, Stock)
    ensures etfs == Bucket(symbols, info, Etf)
    ensures unknown == Bucket(symbols, info, Unknown)
    ensures errors == Bucket(symbols, info, Error)
  {
    stocks, etfs, unknown, errors := [], [], [], [];
    var i := 0;
    while i < |symbols|
      invariant 0 <= i <= |symbols|
      invariant stocks == Bucket(symbols[..i], info, Stock)
      invariant etfs == Bucket(symbols[..i], info, Etf)
      invariant unknown == Bucket(symbols[..i], info, Unknown)
      invariant errors == Bucket(symbols[..i], info, Error)
    {
      var ticker := symbols[i];
      assert symbols[..i + 1][..i] == symbols[..i] && symbols[..i + 1][i] == ticker;
      var classification := ClassifyTicker(info(ticker));
      if classification == Stock {
        stocks := stocks + [ticker];
      } else if classification == Etf {
        etfs := etfs + [ticker];
      } else if classification == Unknown {
        unknown := unknown + [ticker];
      } else {
        errors := errors + [ticker];
      }
      i := i + 1;
    }
    assert symbols[..i] == symbols;
  }

  /** The tickers of the four lists taken together. */
  function Listed(symbols: seq<string>, info: string -> Lookup): multiset<string> {
    multiset(Bucket(symbols, info, Stock)) + multiset(Bucket(symbols, info, Etf)) +
    multiset(Bucket(symbols, info, Unknown)) + multiset(Bucket(symbols, info, Error))
  }

  /** The four list lengths add up to the number of input tickers. */
  lemma PartitionLengths(symbols: seq<string>, info: string -> Lookup)
    ensures |Bucket(symbols, info, Stock)| + |Bucket(symbols, info, Etf)| +
            |Bucket(symbols, info, Unknown)| + |Bucket(symbols, info, Error)| == |symbols|
  {
    PartitionCovers(symbols, info);
    assert |Listed(symbols, info)| == |multiset(symbols)|;
  }

  /** Every ticker lands in exactly one list: the four lists together are a
      rearrangement of the input. */
  lemma {:induction false} PartitionCovers(symbols: seq<string>, info: string -> Lookup)
    ensures Listed(symbols, info) == multiset(symbols)
    decreases |symbols|
  {
    if symbols != [] {
      var n := |symbols| - 1;
      var pre, x := symbols[..n], symbols[n];
      PartitionCovers(pre, info);
      assert multiset(symbols) == multiset(pre) + multiset{x} by {
        assert symbols == pre + [x];
      }
      BucketSnoc(symbols, info, Stock);
      BucketSnoc(symbols, info, Etf);
      BucketSnoc(symbols, info, Unknown);
      BucketSnoc(symbols, info, Error);
      AddedToOne(multiset(Bucket(pre, info, Stock)), multiset(Bucket(pre, info, Etf)),
                 multiset(Bucket(pre, info, Unknown)), multiset(Bucket(pre, info, Error)), x, ClassifyTicker(info(x)));
    }
  }

  /** Adding one ticker to the list of its label adds it once to the four lists together. */
  lemma AddedToOne(m0: multiset<string>, m1: multiset<string>, m2: multiset<string>, m3: multiset<string>,
                   x: string, c: Category)
    ensures (m0 + (if c == Stock then multiset{x} else multiset{})) + (m1 + (if c == Etf then multiset{x} else multiset{})) +
            (m2 + (if c == Unknown then multiset{x} else multiset{})) + (m3 + (if c == Error then multiset{x} else multiset{}))
            == m0 + m1 + m2 + m3 + multiset{x}
  {
  }

  /** The list of a label grows by the last ticker exactly when that ticker has the label. */
  lemma BucketSnoc(symbols: seq<string>, info: string -> Lookup, c: Category)
    requires symbols != []
    ensures var n := |symbols| - 1;
            multiset(Bucket(symbols, info, c)) ==
            multiset(Bucket(symbols[..n], info, c)) +
            (if ClassifyTicker(info(symbols[n])) == c then multiset{symbols[n]} else multiset{})
  {
  }

  /** A ticker is in the list of label `c` exactly when it is an input ticker labelled `c`. */
  lemma {:induction false} BucketMembers(symbols: seq<string>, info: string -> Lookup, c: Category, x: string)
    ensures x in Bucket(symbols, info, c) <==> x in symbols && ClassifyTicker(info(x)) == c
    decreases |symbols|
  {
    if symbols != [] {
      var n := |symbols| - 1;
      BucketMembers(symbols[..n], info, c, x);
      assert symbols == symbols[..n] + [symbols[n]];
    }
  }

  // ---------------------------------------------------------------- the summary table

  /** One summary row per ticker of a list, all with the list's label. */
  function SummaryRows(tickers: seq<string>, c: Category): (rows: seq<seq<Value>>)
    ensures |rows| == |tickers|
  {
    seq(|tickers|, i requires 0 <= i < |tickers| => [Str(tickers[i]), Str(c.Label())])
  }

  lemma SummaryRowsSnoc(tickers: seq<string>, i: nat, c: Category)
    requires i < |tickers|
    ensures SummaryRows(tickers[..i + 1], c) == SummaryRows(tickers[..i], c) + [[Str(tickers[i]), Str(c.Label())]]
  {
  }

  /** The summary table: the stocks, then the ETFs, then the unknown, then the errors. */
  function Summary(stocks: seq<string>, etfs: seq<string>, unknown: seq<string>, errors: seq<string>): Frame {
    Frame(["Ticker", "Type"],
          SummaryRows(stocks, Stock) + SummaryRows(etfs, Etf) + SummaryRows(unknown, Unknown) + SummaryRows(errors, Error))
  }

  /** The four loops of `main` that build `summary_data`. */
  method BuildSummary(stocks: seq<string>, etfs: seq<string>, unknown: seq<string>, errors: seq<string>)
    returns (summary: Frame)
    ensures summary == Summary(stocks, etfs, unknown, errors)
  {
    var rows: seq<seq<Value>> := [];
    for i := 0 to |stocks|
      invariant rows == SummaryRows(stocks[..i], Stock)
    {
      SummaryRowsSnoc(stocks, i, Stock);
      rows := rows + [[Str(stocks[i]), Str("STOCK")]];
    }
    assert stocks[..|stocks|] == stocks;
    ghost var done := rows;
    for i := 0 to |etfs|
      invariant rows == done + SummaryRows(etfs[..i], Etf)
    {
      SummaryRowsSnoc(etfs, i, Etf);
      rows := rows + [[Str(etfs[i]), Str("ETF")]];
    }
    assert etfs[..|etfs|] == etfs;
    done := rows;
    for i := 0 to |unknown|
      invariant rows == done + SummaryRows(unknown[..i], Unknown)
    {
      SummaryRowsSnoc(unknown, i, Unknown);
      rows := rows + [[Str(unknown[i]), Str("UNKNOWN")]];
    }
    assert unknown[..|unknown|] == unknown;
    done := rows;
    for i := 0 to |errors|
      invariant rows == done + SummaryRows(errors[..i], Error)
    {
      SummaryRowsSnoc(errors, i, Error);
      rows := rows + [[Str(errors[i]), Str("ERROR")]];
    }
    assert errors[..|errors|] == errors;
    summary := Frame(["Ticker", "Type"], rows);
  }

  /** The rank of a summary row's label cell. */
  function LabelRank(v: Value): nat {
    if v == Str("STOCK") then 0 else if v == Str("ETF") then 1 else if v == Str("UNKNOWN") then 2 else 3
  }

  /** The row at position `k` of the summary, and the rank of its label. */
  lemma SummaryRowAt(b0: seq<string>, b1: seq<string>, b2: seq<string>, b3: seq<string>, k: nat)
    requires k < |b0| + |b1| + |b2| + |b3|
    ensures var row := Summary(b0, b1, b2, b3).rows[k];
            var n0, n1, n2 := |b0|, |b0| + |b1|, |b0| + |b1| + |b2|;
            && (k < n0 ==> row == [Str(b0[k]), Str("STOCK")])
            && (n0 <= k < n1 ==> row == [Str(b1[k - n0]), Str("ETF")])
            && (n1 <= k < n2 ==> row == [Str(b2[k - n1]), Str("UNKNOWN")])
            && (n2 <= k ==> row == [Str(b3[k - n2]), Str("ERROR")])
  {
    var r0, r1, r2, r3 := SummaryRows(b0, Stock), SummaryRows(b1, Etf), SummaryRows(b2, Unknown), SummaryRows(b3, Error);
    var rows := Summary(b0, b1, b2, b3).rows;
    assert rows == r0 + r1 + r2 + r3;
    var n0, n1, n2 := |b0|, |b0| + |b1|, |b0| + |b1| + |b2|;
    if k < n0 {
      assert rows[k] == r0[k] == [Str(b0[k]), Str(Stock.Label())];
    } else if k < n1 {
      assert rows[k] == r1[k - n0] == [Str(b1[k - n0]), Str(Etf.Label())];
    } else if k < n2 {
      assert rows[k] == r2[k - n1] == [Str(b2[k - n1]), Str(Unknown.Label())];
    } else {
      assert rows[k] == r3[k - n2] == [Str(b3[k - n2]), Str(Error.Label())];
    }
  }

  /** The summary of a run has one row per input ticker, its Type cell is that ticker's
      label, and the rows are grouped STOCK, ETF, UNKNOWN, ERROR. */
  lemma SummaryGrouped(symbols: seq<string>, info: string -> Lookup)
    ensures var s := Summary(Bucket(symbols, info, Stock), Bucket(symbols, info, Etf),
                             Bucket(symbols, info, Unknown), Bucket(symbols, info, Error));
            && |s.rows| == |symbols| && WellFormed(s)
            && (forall k :: 0 <= k < |s.rows| ==>
                  s.rows[k][0].Str? && s.rows[k][0].s in symbols &&
                  s.rows[k][1] == Str(ClassifyTicker(info(s.rows[k][0].s)).Label()))
            && (forall k, l :: 0 <= k < l < |s.rows| ==> LabelRank(s.rows[k][1]) <= LabelRank(s.rows[l][1]))
            && multiset(TickerCells(s.rows)) == multiset(symbols)
  {
    var b0, b1, b2, b3 := Bucket(symbols, info, Stock), Bucket(symbols, info, Etf),
                          Bucket(symbols, info, Unknown), Bucket(symbols, info, Error);
    PartitionLengths(symbols, info);
    var s := Summary(b0, b1, b2, b3);
    var n0, n1, n2 := |b0|, |b0| + |b1|, |b0| + |b1| + |b2|;
    forall k | 0 <= k < |s.rows|
      ensures |s.rows[k]| == 2
      ensures s.rows[k][0].Str? && s.rows[k][0].s in symbols
      ensures s.rows[k][1] == Str(ClassifyTicker(info(s.rows[k][0].s)).Label())
      ensures LabelRank(s.rows[k][1]) == if k < n0 then 0 else if k < n1 then 1 else if k < n2 then 2 else 3
    {
      SummaryRowAt(b0, b1, b2, b3, k);
      if k < n0 {
        BucketMembers(symbols, info, Stock, b0[k]);
      } else if k < n1 {
        BucketMembers(symbols, info, Etf, b1[k - n0]);
      } else if k < n2 {
        BucketMembers(symbols, info, Unknown, b2[k - n1]);
      } else {
        BucketMembers(symbols, info, Error, b3[k - n2]);
      }
    }
    assert multiset(TickerCells(s.rows)) == multiset(symbols) by {
      SummaryTickerCells(b0, b1, b2, b3);
      PartitionCovers(symbols, info);
    }
  }

  /** The Ticker cells of summary rows, as texts. */
  function TickerCells(rows: seq<seq<Value>>): seq<string>
    requires forall k :: 0 <= k < |rows| ==> |rows[k]| >= 1 && rows[k][0].Str?
  {
    seq(|rows|, k requires 0 <= k < |rows| => rows[k][0].s)
  }

  /** The summary's Ticker column is the four lists one after the other. */
  lemma SummaryTickerCells(b0: seq<string>, b1: seq<string>, b2: seq<string>, b3: seq<string>)
    ensures var rows := Summary(b0, b1, b2, b3).rows;
            && (forall k :: 0 <= k < |rows| ==> |rows[k]| >= 1 && rows[k][0].Str?)
            && TickerCells(rows) == b0 + b1 + b2 + b3
  {
    var rows := Summary(b0, b1, b2, b3).rows;
    var all := b0 + b1 + b2 + b3;
    forall k | 0 <= k < |rows|
      ensures |rows[k]| >= 1 && rows[k][0] == Str(all[k])
    {
      SummaryRowAt(b0, b1, b2, b3, k);
    }
  }

  // ---------------------------------------------------------------- the run

  const StocksPath: string := Constants.OutputDir + "/symbols_list/stocks_symbols.txt"
  const EtfsPath: string := Constants.OutputDir + "/symbols_list/etf_symbols.txt"
  const SummaryPath: string := "../data/ticker_classification_summary.csv"

  /** The files a run over a symbol list writes, in order: the stocks list and the ETF
      list, each only when non-empty, then the summary table when it has rows. */
  function ClassificationWrites(symbols: seq<string>, info: string -> Lookup): seq<Write> {
    var stocks := Bucket(symbols, info, Stock);
    var etfs := Bucket(symbols, info, Etf);
    var summary := Summary(stocks, etfs, Bucket(symbols, info, Unknown), Bucket(symbols, info, Error));
    (if stocks != [] then [TextWrite(StocksPath, SymbolsFileContent(stocks))] else []) +
    (if etfs != [] then [TextWrite(EtfsPath, SymbolsFileContent(etfs))] else []) +
    (if summary.rows != [] then [TableWrite(SummaryPath, summary)] else [])
  }

  /** `main`: an empty or missing symbols file writes nothing; otherwise the tickers
      are classified in order and the lists and summary are written. */
  method ClassifyMain(file: SymbolsFile, info: string -> Lookup) returns (writes: seq<Write>)
    ensures ReadSymbols(file) == [] ==> writes == []
    ensures ReadSymbols(file) != [] ==> writes == ClassificationWrites(ReadSymbols(file), info)
  {
    var symbols := ReadSymbols(file);
    if symbols == [] {
      return [];
    }
    var stocks, etfs, unknown, errors := PartitionTickers(symbols, info);
    writes := [];
    if stocks != [] {
      writes := writes + [TextWrite(StocksPath, SymbolsFileContent(stocks))];
    }
    if etfs != [] {
      writes := writes + [TextWrite(EtfsPath, SymbolsFileContent(etfs))];
    }
    var summary := BuildSummary(stocks, etfs, unknown, errors);
    if summary.rows != [] {
      writes := writes + [TableWrite(SummaryPath, summary)];
    }
  }

  /** A run over a non-empty symbol list always writes the summary, last. */
  lemma SummaryAlwaysWritten(symbols: seq<string>, info: string -> Lookup)
    requires symbols != []
    ensures var writes := ClassificationWrites(symbols, info);
            writes != [] && writes[|writes| - 1].TableWrite? && writes[|writes| - 1].path == SummaryPath
  {
    PartitionLengths(symbols, info);
  }

  /** The two-ticker run: AAA has quote type EQUITY and the lookup of BBB fails, so AAA
      is a stock, BBB an error, and no ticker is an ETF or unknown. */
  lemma TwoTickerRun()
    ensures var info := (t: string) => if t == "AAA" then Info(map["quoteType" := Str("EQUITY")]) else Threw;
            && Bucket(["AAA", "BBB"], info, Stock) == ["AAA"]
            && Bucket(["AAA", "BBB"], info, Error) == ["BBB"]
            && Bucket(["AAA", "BBB"], info, Etf) == []
            && Bucket(["AAA", "BBB"], info, Unknown) == []
  {
    var info := (t: string) => if t == "AAA" then Info(map["quoteType" := Str("EQUITY")]) else Threw;
    var s: seq<string> := ["AAA", "BBB"];
    assert s[..1] == ["AAA"] && s[..1][..0] == [];
    assert ClassifyTicker(info("AAA")) == Stock;
    assert ClassifyTicker(info("BBB")) == Error;
  }
}
