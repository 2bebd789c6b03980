/** The shared configuration: the output root, the three market-highlight views and
    the three exchange listings, each a tag carrying its configuration as data. */
module Constants {

  /** Root directory of every file the scripts write. */
  const OutputDir: string := "/Invest/research/yahoo"

  /** A market-highlight view: its page slug (the enum value) and the name of the
      provider method that fetches it. */
  datatype MarketHighlight = TopGainers | TopLosers | MostActive {

    function Value(): string {
      match this
      case TopGainers => "gainers"
      case TopLosers => "losers"
      case MostActive => "most-active"
    }

    function Method(): string {
      match this
      case TopGainers => "get_day_gainers"
      case TopLosers => "get_day_losers"
      case MostActive => "get_day_most_active"
    }
  }

  /** The members in declaration order, which is the order the scripts process them in. */
  const MarketHighlights: seq<MarketHighlight> := [TopGainers, TopLosers, MostActive]

  /** An exchange listing: its value, the provider method that lists it, the column
      renames applied to the fetched table, and the constant columns added to it
      (in dict insertion order). */
  datatype Exchange = Nasdaq | Dow | Sp500 {

    function Value(): string {
      match this
      case Nasdaq => "nasdaq"
      case Dow => "dow"
      case Sp500 => "sp500"
    }

    function Method(): string {
      match this
      case Nasdaq => "tickers_nasdaq"
      case Dow => "tickers_dow"
      case Sp500 => "tickers_sp500"
    }

    /** Every rename maps "Symbol" to "Symbol Name" and one other column to "Description". */
    function ColRename(): (m: map<string, string>)
      ensures exists d :: d != "Symbol" && m == map["Symbol" := "Symbol Name", d := "Description"]
    {
      match this
      case Nasdaq => map["Symbol" := "Symbol Name", "Security Name" := "Description"]
      case Dow => map["Symbol" := "Symbol Name", "Company" := "Description"]
      case Sp500 => map["Symbol" := "Symbol Name", "Security" := "Description"]
    }

    /** Every listing sets "Category" to "Stocks" first; NASDAQ then sets "Exchange" to
        "NASDAQ", SP500 sets it to "", and DOW sets no "Exchange". */
    function ColAdd(): (adds: seq<(string, string)>)
      ensures |adds| >= 1 && adds[0] == ("Category", "Stocks")
      ensures this == Dow <==> |adds| == 1
      ensures this == Nasdaq ==> adds == [("Category", "Stocks"), ("Exchange", "NASDAQ")]
      ensures this == Sp500 ==> adds == [("Category", "Stocks"), ("Exchange", "")]
    {
      match this
      case Nasdaq => [("Category", "Stocks"), ("Exchange", "NASDAQ")]
      case Dow => [("Category", "Stocks")]
      case Sp500 => [("Category", "Stocks"), ("Exchange", "")]
    }
  }

  /** The file a script writes for one provider method on a date (YYYYMMDD):
      `{OUTPUT_DIR}/{kind}/{date}/{name}.csv`. */
  function DatedPath(kind: string, date: string, name: string): (path: string)
    ensures OutputDir + "/" + kind + "/" + date + "/" <= path && |path| >= 4 && path[|path| - 4..] == ".csv"
  {
    OutputDir + "/" + kind + "/" + date + "/" + name + ".csv"
  }

  /** Within one directory, different methods get different files. */
  lemma DatedPathInjective(kind: string, date: string, m1: string, m2: string)
    ensures DatedPath(kind, date, m1) == DatedPath(kind, date, m2) ==> m1 == m2
  {
    var p := OutputDir + "/" + kind + "/" + date + "/";
    var a, b := DatedPath(kind, date, m1), DatedPath(kind, date, m2);
    assert a == p + m1 + ".csv" && b == p + m2 + ".csv";
    if a == b {
      assert |m1| == |m2|;
      assert m1 == a[|p|..|p| + |m1|];
      assert m2 == b[|p|..|p| + |m2|];
    }
  }

  /** The members in declaration order, which is the order the scripts process them in. */
  const Exchanges: seq<Exchange> := [Nasdaq, Dow, Sp500]

  /** Each view appears once in the enumeration; slugs and method names are pairwise distinct. */
  lemma MarketHighlightsDistinct()
    ensures forall m: MarketHighlight :: m in MarketHighlights
    ensures forall i, j :: 0 <= i < j < |MarketHighlights| ==> MarketHighlights[i] != MarketHighlights[j]
    ensures forall a: MarketHighlight, b: MarketHighlight :: a.Value() == b.Value() ==> a == b
    ensures forall a: MarketHighlight, b: MarketHighlight :: a.Method() == b.Method() ==> a == b
  {
    forall m: MarketHighlight
      ensures m in MarketHighlights
    {
      match m
      case TopGainers => assert MarketHighlights[0] == m;
      case TopLosers => assert MarketHighlights[1] == m;
      case MostActive => assert MarketHighlights[2] == m;
    }
  }

  /** Each listing appears once in the enumeration; values and method names are pairwise distinct. */
  lemma ExchangesDistinct()
    ensures forall e: Exchange :: e in Exchanges
    ensures forall i, j :: 0 <= i < j < |Exchanges| ==> Exchanges[i] != Exchanges[j]
    ensures forall a: Exchange, b: Exchange :: a.Value() == b.Value() ==> a == b
    ensures forall a: Exchange, b: Exchange :: a.Method() == b.Method() ==> a == b
  {
    forall e: Exchange
      ensures e in Exchanges
    {
      match e
      case Nasdaq => assert Exchanges[0] == e;
      case Dow => assert Exchanges[1] == e;
      case Sp500 => assert Exchanges[2] == e;
    }
  }
}
