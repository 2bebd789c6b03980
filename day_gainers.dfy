/** The market-highlight fetcher: the provider call with its one recognised failure
    that switches to scraping the Yahoo Finance page, and the scraper that picks the
    first stock-like table in document order, drops its third column and cuts each
    Price at the first space. */
module DayGainers {
  import opened Values
  import opened Text
  import opened Frames
  import Constants

  /** How the provider's highlight method ended: with a table, with a KeyError (whose
      `str(e)` is `message`), or with any other exception. */
  datatype PrimaryOutcome = Returned(table: Frame) | KeyError(message: string) | OtherError(message: string)

  /** A table of the fetched page: its rows in document order, each the stripped texts
      of its th/td cells. */
  type Table = seq<seq<string>>

  /** `requests.get`: a response with its status code and the tables of the parsed page
      in document order, or an exception. */
  datatype HttpOutcome = Response(status: int, tables: seq<Table>) | RequestFailed

  /** The text a KeyError must contain for the scraper to be tried. */
  const KnownIssue: string := "'52 Week Range'"

  /** Header keywords that mark a stock table. */
  const StockKeywords: seq<string> := ["Symbol", "Name", "Price", "Change", "Change %", "Volume"]

  /** The page the scraper fetches for a view and a row count. */
  function FallbackUrl(mh: Constants.MarketHighlight, count: int): (url: string)
    ensures "https://finance.yahoo.com/" + mh.Value() + "?offset=0&count=" <= url
    ensures |url| >= |IntToString(count)| && url[|url| - |IntToString(count)|..] == IntToString(count)
  {
    "https://finance.yahoo.com/" + mh.Value() + "?offset=0&count=" + IntToString(count)
  }

  /** The page the main block's count selects for the most-active view. */
  lemma FallbackUrlExample()
    ensures FallbackUrl(Constants.MostActive, 100) == "https://finance.yahoo.com/most-active?offset=0&count=100"
  {
    HundredToString();
    assert Constants.MarketHighlight.MostActive.Value() == "most-active";
  }

  /** Some keyword, lower-cased, occurs in the lower-cased space-joined header text. An
      empty header row has no text for a keyword to occur in. */
  predicate LooksLikeStockTable(headers: seq<string>)
    ensures headers == [] ==> !LooksLikeStockTable(headers)
  {
    exists k :: 0 <= k < |StockKeywords| && Contains(Lower(Join(headers, " ")), Lower(StockKeywords[k]))
  }

  /** A header cell that equals a keyword, whatever its case, makes the table stock-like. */
  lemma {:induction false} KeywordHeaderIsStockLike(headers: seq<string>, j: nat, k: nat)
    requires j < |headers| && k < |StockKeywords| && Lower(headers[j]) == Lower(StockKeywords[k])
    ensures LooksLikeStockTable(headers)
  {
    var text := Join(headers, " ");
    var i := JoinOccurs(headers, " ", j);
    assert Lower(text)[i..i + |headers[j]|] == Lower(headers[j]) by {
      forall t | 0 <= t < |headers[j]|
        ensures Lower(text)[i + t] == Lower(headers[j])[t]
      {
        assert text[i + t] == headers[j][t];
      }
    }
    OccursContains(Lower(text), Lower(StockKeywords[k]), i);
  }

  /** The rows that have at least one cell, in order. */
  function RowsWithCells(rows: seq<seq<string>>): (data: seq<seq<string>>)
    ensures |data| <= |rows|
    ensures forall k :: 0 <= k < |data| ==> data[k] != [] && data[k] in rows
    decreases |rows|
  {
    if rows == [] then []
    else
      var n := |rows| - 1;
      RowsWithCells(rows[..n]) + (if rows[n] != [] then [rows[n]] else [])
  }

  /** Collecting keeps order: the rows kept from two blocks are those of the first block,
      then those of the second. */
  lemma {:induction false} RowsWithCellsAppend(a: seq<seq<string>>, b: seq<seq<string>>)
    ensures RowsWithCells(a + b) == RowsWithCells(a) + RowsWithCells(b)
    decreases |b|
  {
    if b == [] {
      assert a + b == a;
    } else {
      var n := |b| - 1;
      assert (a + b)[..|a + b| - 1] == a + b[..n] && (a + b)[|a + b| - 1] == b[n];
      RowsWithCellsAppend(a, b[..n]);
    }
  }

  /** A row is kept exactly when it is a row of the table and has a cell. */
  lemma {:induction false} RowsWithCellsMembers(rows: seq<seq<string>>, x: seq<string>)
    ensures x in RowsWithCells(rows) <==> x in rows && x != []
    decreases |rows|
  {
    if rows != [] {
      var n := |rows| - 1;
      assert rows == rows[..n] + [rows[n]];
      RowsWithCellsMembers(rows[..n], x);
    }
  }

  /** The data rows of a table: the rows after the header that have cells. */
  function DataRows(t: Table): seq<seq<string>>
    requires |t| >= 1
  {
    RowsWithCells(t[1..])
  }

  /** A table the scraper takes: more than one row, a stock-like header, and data rows. */
  predicate Usable(t: Table) {
    |t| > 1 && LooksLikeStockTable(t[0]) && DataRows(t) != []
  }

  /** The first usable table in document order, if any. */
  function FirstUsable(tables: seq<Table>): (r: Option<nat>)
    ensures r.Some? ==> r.value < |tables| && Usable(tables[r.value])
    ensures r.Some? ==> forall j :: 0 <= j < r.value ==> !Usable(tables[j])
    ensures r.None? ==> forall j :: 0 <= j < |tables| ==> !Usable(tables[j])
    decreases |tables|
  {
    if tables == [] then None
    else if Usable(tables[0]) then Some(0)
    else match FirstUsable(tables[1..])
      case None => None
      case Some(i) => Some(i + 1)
  }

  /** The widest row's width (0 for no rows). */
  function MaxWidth(data: seq<seq<string>>): (w: nat)
    ensures forall k :: 0 <= k < |data| ==> |data[k]| <= w
    ensures data != [] ==> exists k :: 0 <= k < |data| && |data[k]| == w
    decreases |data|
  {
    if data == [] then 0
    else
      var w := MaxWidth(data[1..]);
      if |data[0]| >= w then |data[0]| else w
  }

  /** The cell at position `j` of a row padded with None to the frame's width. */
  function Cell(row: seq<string>, j: nat): Value {
    if j < |row| then Str(row[j]) else Null
  }

  /** pandas `DataFrame(data, columns=headers)`: no rows give an empty frame with those
      columns; otherwise rows shorter than the widest are padded with None, and a widest
      row whose width differs from the header count raises. */
  function MakeFrame(headers: seq<string>, data: seq<seq<string>>): (r: Option<Frame>)
    ensures r.Some? <==> data == [] || MaxWidth(data) == |headers|
    ensures r.Some? ==> WellFormed(r.value) && r.value.columns == headers && |r.value.rows| == |data|
    ensures r.Some? ==> forall k, j :: 0 <= k < |data| && 0 <= j < |headers| ==> r.value.rows[k][j] == Cell(data[k], j)
  {
    if data != [] && MaxWidth(data) != |headers| then None
    else Some(Frame(headers, seq(|data|, k requires 0 <= k < |data| =>
                                   seq(|headers|, j requires 0 <= j < |headers| => Cell(data[k], j)))))
  }

  /** The per-row Price update: each row's Price text becomes the text before its first
      space. With rows present, a missing Price column (KeyError) or a padded None cell
      (None has no `split`) makes it fail. */
  function PricesCut(df: Frame): (r: Option<Frame>)
    requires WellFormed(df)
    ensures r.Some? ==> WellFormed(r.value) && r.value.columns == df.columns && |r.value.rows| == |df.rows|
    ensures r.Some? && df.rows != [] ==> "Price" in df.columns
    ensures df.rows == [] ==> r == Some(df)
  {
    if |df.rows| == 0 then Some(df)
    else match IndexOf(df.columns, "Price")
      case None => None
      case Some(p) =>
        if forall k :: 0 <= k < |df.rows| ==> df.rows[k][p].Str? then
          Some(Frame(df.columns, seq(|df.rows|, k requires 0 <= k < |df.rows| =>
                                       df.rows[k][p := Str(BeforeFirstSpace(df.rows[k][p].s))])))
        else None
  }

  /** The loop `for i, row in df.iterrows(): row['Price'] = ...split(" ")[0]`. */
  method CutPrices(df: Frame) returns (r: Option<Frame>)
    requires WellFormed(df)
    ensures r == PricesCut(df)
  {
    if |df.rows| == 0 {
      return Some(df);
    }
    var price := IndexOf(df.columns, "Price");
    if price.None? {
      return None;
    }
    var p := price.value;
    var rows := df.rows;
    var i := 0;
    while i < |rows|
      invariant 0 <= i <= |rows| && |rows| == |df.rows|
      invariant forall k :: 0 <= k < i ==> df.rows[k][p].Str?
      invariant forall k :: 0 <= k < i ==> rows[k] == df.rows[k][p := Str(BeforeFirstSpace(df.rows[k][p].s))]
      invariant forall k :: i <= k < |rows| ==> rows[k] == df.rows[k]
    {
      var cell := rows[i][p];
      if !cell.Str? {
        assert !df.rows[i][p].Str?;
        return None;
      }
      rows := rows[i := rows[i][p := Str(BeforeFirstSpace(cell.s))]];
      i := i + 1;
    }
    assert rows == seq(|df.rows|, k requires 0 <= k < |df.rows| =>
                         df.rows[k][p := Str(BeforeFirstSpace(df.rows[k][p].s))]);
    r := Some(Frame(df.columns, rows));
  }

  /** What the scraper makes of the chosen table's header and data rows: the frame,
      minus every column labelled like column 2, with Price cut; None where pandas or
      the Price update raises. */
  function BuildFrame(headers: seq<string>, data: seq<seq<string>>): (r: Option<Frame>)
    ensures r.Some? ==> |headers| >= 3 && (data == [] || MaxWidth(data) == |headers|)
    ensures r.Some? ==> WellFormed(r.value) && |r.value.rows| == |data| && headers[2] !in r.value.columns
    ensures r.Some? && data != [] ==> "Price" in r.value.columns
  {
    match MakeFrame(headers, data)
    case None => None
    case Some(df) =>
      if |headers| < 3 then None
      else PricesCut(DropLabel(df, headers[2]))
  }

  /** The frame-building steps of the scraper once a table is chosen. */
  method BuildTable(headers: seq<string>, data: seq<seq<string>>) returns (r: Option<Frame>)
    ensures r == BuildFrame(headers, data)
  {
    var made := MakeFrame(headers, data);
    if made.None? {
      return None;
    }
    if |headers| < 3 {
      return None;
    }
    var df := DropLabel(made.value, headers[2]);
    r := CutPrices(df);
  }

  /** With no data rows, pandas builds an empty frame and the Price loop never runs: a
      frame results exactly when there is a column 2 to drop. */
  lemma BuildFrameNoData(headers: seq<string>)
    ensures BuildFrame(headers, []).Some? <==> |headers| >= 3
    ensures BuildFrame(headers, []).Some? ==> BuildFrame(headers, []).value.rows == []
  {
  }

  /** `get_market_highlight_alternative`: fetch the page; on status 200 take the first
      usable table in document order and build its frame; otherwise None. */
  function Alternative(mh: Constants.MarketHighlight, count: int, fetch: string -> HttpOutcome): (r: Option<Frame>)
    ensures fetch(FallbackUrl(mh, count)).RequestFailed? ==> r.None?
    ensures r.Some? ==> fetch(FallbackUrl(mh, count)).Response? && fetch(FallbackUrl(mh, count)).status == 200
    ensures r.Some? ==> FirstUsable(fetch(FallbackUrl(mh, count)).tables).Some?
  {
    match fetch(FallbackUrl(mh, count))
    case RequestFailed => None
    case Response(status, tables) =>
      if status != 200 then None
      else match FirstUsable(tables)
        case None => None
        case Some(i) => BuildFrame(tables[i][0], DataRows(tables[i]))
  }

  /** The loop over the rows after the header that keeps the rows having cells. */
  method CollectData(rows: Table) returns (data: seq<seq<string>>)
    requires |rows| >= 1
    ensures data == DataRows(rows)
  {
    data := [];
    var r := 1;
    while r < |rows|
      invariant 1 <= r <= |rows|
      invariant data == RowsWithCells(rows[1..r])
    {
      assert rows[1..r + 1][..r - 1] == rows[1..r] && rows[1..r + 1][r - 1] == rows[r];
      if rows[r] != [] {
        data := data + [rows[r]];
      }
      r := r + 1;
    }
    assert rows[1..r] == rows[1..];
  }

  /** `get_market_highlight_alternative` as the source runs it: a scan of the tables with
      an early return, and a loop that collects the data rows. */
  method GetMarketHighlightAlternative(mh: Constants.MarketHighlight, count: int, fetch: string -> HttpOutcome)
    returns (result: Option<Frame>)
    ensures result == Alternative(mh, count, fetch)
  {
    var url := FallbackUrl(mh, count);
    var response := fetch(url);
    if response.RequestFailed? || response.status != 200 {
      return None;
    }
    var tables := response.tables;
    var i := 0;
    while i < |tables|
      invariant 0 <= i <= |tables|
      invariant forall j :: 0 <= j < i ==> !Usable(tables[j])
    {
      var rows := tables[i];
      if |rows| > 1 {
        var headers := rows[0];
        if LooksLikeStockTable(headers) {
          var data := CollectData(rows);
          if data != [] {
            FirstUsableAt(tables, i);
            result := BuildTable(headers, data);
            return;
          }
        }
      }
      assert !Usable(rows);
      i := i + 1;
    }
    NoneUsable(tables);
    return None;
  }

  /** A usable table with none usable before it is the first usable one. */
  lemma FirstUsableAt(tables: seq<Table>, i: nat)
    requires i < |tables| && Usable(tables[i])
    requires forall j :: 0 <= j < i ==> !Usable(tables[j])
    ensures FirstUsable(tables) == Some(i)
  {
  }

  /** With no usable table, the scraper finds none. */
  lemma NoneUsable(tables: seq<Table>)
    requires forall j :: 0 <= j < |tables| ==> !Usable(tables[j])
    ensures FirstUsable(tables).None?
  {
  }

  /** Distinct headers: no label repeats. */
  predicate Distinct(headers: seq<string>) {
    forall i, j :: 0 <= i < j < |headers| ==> headers[i] != headers[j]
  }

  /** The position a surviving column moves to once column 2 is dropped. */
  function Shifted(j: nat): nat
    requires j != 2
  {
    if j < 2 then j else j - 1
  }

  /** Dropping the label of column 2 from the page frame with distinct headers removes
      exactly that column and moves every other page cell left past it. */
  lemma DropThird(headers: seq<string>, data: seq<seq<string>>)
    requires Distinct(headers) && MaxWidth(data) == |headers| && |headers| >= 3
    ensures var d := DropLabel(MakeFrame(headers, data).value, headers[2]);
            && d.columns == headers[..2] + headers[3..] && |d.rows| == |data|
            && forall k, j :: 0 <= k < |data| && 0 <= j < |headers| && j != 2 ==>
                 |d.rows[k]| == |headers| - 1 && d.rows[k][Shifted(j)] == Cell(data[k], j)
  {
    var df := MakeFrame(headers, data).value;
    assert df.columns == headers && |df.rows| == |data| && WellFormed(df);
    var d := DropLabel(df, headers[2]);
    assert d.columns == headers[..2] + headers[3..] &&
           forall k :: 0 <= k < |data| ==> d.rows[k] == df.rows[k][..2] + df.rows[k][3..] by {
      DropSingle(df, 2);
    }
    forall k, j | 0 <= k < |data| && 0 <= j < |headers| && j != 2
      ensures |d.rows[k]| == |headers| - 1 && d.rows[k][Shifted(j)] == Cell(data[k], j)
    {
      var row := df.rows[k];
      assert |row| == |headers| && row[j] == Cell(data[k], j);
      assert d.rows[k] == row[..2] + row[3..];
      assert d.rows[k][Shifted(j)] == row[j];
    }
  }

  /** After the drop, Price sits at the shifted position of its page column. */
  lemma PriceShifted(headers: seq<string>, p: nat)
    requires Distinct(headers) && |headers| >= 3 && p < |headers| && headers[p] == "Price" && p != 2
    ensures IndexOf(headers[..2] + headers[3..], "Price") == Some(Shifted(p))
  {
    var cols := headers[..2] + headers[3..];
    assert cols[Shifted(p)] == "Price";
    forall t | 0 <= t < Shifted(p)
      ensures cols[t] != "Price"
    {
      assert cols[t] == headers[if t < 2 then t else t + 1];
    }
    assert "Price" !in cols[..Shifted(p)];
  }

  /** Cutting Price changes only the Price cell of each row, to the text before its first
      space. */
  lemma PricesCutCells(df: Frame, p: nat)
    requires WellFormed(df) && IndexOf(df.columns, "Price") == Some(p) && PricesCut(df).Some?
    ensures forall k, t :: 0 <= k < |df.rows| && 0 <= t < |df.columns| ==>
              df.rows[k][p].Str? &&
              PricesCut(df).value.rows[k][t] == if t == p then Str(BeforeFirstSpace(df.rows[k][p].s)) else df.rows[k][t]
  {
  }

  /** With rows present and Price at `p`, cutting Price succeeds exactly when every row
      holds text there. */
  lemma PricesCutSome(df: Frame, p: nat)
    requires WellFormed(df) && |df.rows| > 0 && IndexOf(df.columns, "Price") == Some(p)
    ensures PricesCut(df).Some? <==> forall k :: 0 <= k < |df.rows| ==> df.rows[k][p].Str?
  {
  }

  /** With distinct headers, the scraper's frame exists exactly when pandas accepts the
      rows, there is a column 2 to drop, a Price column survives it and every row reaches
      Price. */
  lemma BuildFrameDistinct(headers: seq<string>, data: seq<seq<string>>)
    requires Distinct(headers) && data != []
    ensures BuildFrame(headers, data).Some? <==>
            && MaxWidth(data) == |headers| && |headers| >= 3
            && "Price" in headers && headers[2] != "Price"
            && forall k :: 0 <= k < |data| ==> IndexOf(headers, "Price").value < |data[k]|
  {
    if MaxWidth(data) == |headers| && |headers| >= 3 {
      var d := DropLabel(MakeFrame(headers, data).value, headers[2]);
      assert BuildFrame(headers, data) == PricesCut(d);
      if "Price" in headers && headers[2] != "Price" {
        PriceKept(headers, data, IndexOf(headers, "Price").value);
      } else {
        DropThird(headers, data);
        assert "Price" !in d.columns;
      }
    }
  }

  /** With Price at page column `p` (not column 2), cutting Price after the drop succeeds
      exactly when every row reaches column `p`. */
  lemma PriceKept(headers: seq<string>, data: seq<seq<string>>, p: nat)
    requires Distinct(headers) && data != [] && MaxWidth(data) == |headers| && |headers| >= 3
    requires p < |headers| && headers[p] == "Price" && p != 2
    ensures PricesCut(DropLabel(MakeFrame(headers, data).value, headers[2])).Some? <==>
            forall k :: 0 <= k < |data| ==> p < |data[k]|
  {
    var d := DropLabel(MakeFrame(headers, data).value, headers[2]);
    var q := Shifted(p);
    assert d.columns == headers[..2] + headers[3..] && |d.rows| == |data| by {
      DropThird(headers, data);
    }
    assert IndexOf(d.columns, "Price") == Some(q) by {
      PriceShifted(headers, p);
    }
    assert forall k :: 0 <= k < |data| ==> (d.rows[k][q].Str? <==> p < |data[k]|) by {
      DropThird(headers, data);
    }
    PricesCutSome(d, q);
  }

  /** The scraper's frame, when there is one, has the headers minus position 2, and every
      other page cell keeps its text, moved left past the dropped column, with Price cut
      at its first space. */
  lemma BuildFrameCells(headers: seq<string>, data: seq<seq<string>>)
    requires Distinct(headers) && data != [] && BuildFrame(headers, data).Some?
    ensures var f := BuildFrame(headers, data).value;
            && f.columns == headers[..2] + headers[3..] && |f.rows| == |data| && WellFormed(f)
            && forall k, j :: 0 <= k < |data| && 0 <= j < |headers| && j != 2 ==>
                 f.rows[k][Shifted(j)] ==
                 (if headers[j] == "Price" then Str(BeforeFirstSpace(data[k][j])) else Cell(data[k], j))
  {
    var d := DropLabel(MakeFrame(headers, data).value, headers[2]);
    assert BuildFrame(headers, data) == PricesCut(d);
    assert d.columns == headers[..2] + headers[3..] && |d.rows| == |data| by {
      BuildFrameDistinct(headers, data);
      DropThird(headers, data);
    }
    var f := BuildFrame(headers, data).value;
    forall k, j | 0 <= k < |data| && 0 <= j < |headers| && j != 2
      ensures f.rows[k][Shifted(j)] ==
              (if headers[j] == "Price" then Str(BeforeFirstSpace(data[k][j])) else Cell(data[k], j))
    {
      BuildFrameCell(headers, data, k, j);
    }
  }

  /** One cell of the scraper's frame. */
  lemma BuildFrameCell(headers: seq<string>, data: seq<seq<string>>, k: nat, j: nat)
    requires Distinct(headers) && data != [] && BuildFrame(headers, data).Some?
    requires k < |data| && j < |headers| && j != 2
    ensures |headers| >= 3 && Shifted(j) < |headers| - 1
    ensures var f := BuildFrame(headers, data).value;
            && |f.rows| == |data| && |f.rows[k]| == |headers| - 1
            && f.rows[k][Shifted(j)] ==
               (if headers[j] == "Price" then Str(BeforeFirstSpace(data[k][j])) else Cell(data[k], j))
  {
    BuildFrameDistinct(headers, data);
    DropThird(headers, data);
    var d := DropLabel(MakeFrame(headers, data).value, headers[2]);
    var p := IndexOf(headers, "Price").value;
    PriceShifted(headers, p);
    PricesCutCells(d, Shifted(p));
    if headers[j] == "Price" {
      assert j == p;
    } else {
      assert Shifted(j) != Shifted(p);
    }
  }

  /** The example of a quoted price with its change: "123.45 +1.2%" becomes "123.45". */
  lemma PriceCutExample()
    ensures BeforeFirstSpace("123.45 +1.2%") == "123.45"
  {
    var s := "123.45 +1.2%";
    assert s[6] == ' ' && ' ' !in s[..6];
    assert FirstIndex(s, ' ') == 6;
  }

  /** The scraper is tried exactly for a KeyError whose text mentions '52 Week Range'. */
  predicate FallsBack(outcome: PrimaryOutcome) {
    outcome.KeyError? && Contains(outcome.message, KnownIssue)
  }

  /** `get_market_highlight`: the provider's table when it returns one; the scraper's
      result, for the same view and count, after the known KeyError; None after any
      other exception. Nothing escapes. */
  function GetMarketHighlight(mh: Constants.MarketHighlight, count: int,
                              primary: (string, int) -> PrimaryOutcome, fetch: string -> HttpOutcome): (r: Option<Frame>)
    ensures primary(mh.Method(), count).Returned? ==> r == Some(primary(mh.Method(), count).table)
    ensures FallsBack(primary(mh.Method(), count)) ==> r == Alternative(mh, count, fetch)
    ensures !primary(mh.Method(), count).Returned? && !FallsBack(primary(mh.Method(), count)) ==> r == None
  {
    match primary(mh.Method(), count)
    case Returned(table) => Some(table)
    case KeyError(message) =>
      if Contains(message, KnownIssue) then Alternative(mh, count, fetch) else None
    case OtherError(_) => None
  }

  /** The page is consulted only on the known KeyError: otherwise the result is the same
      whatever the page holds. */
  lemma FallbackOnlyOnKnownIssue(mh: Constants.MarketHighlight, count: int, primary: (string, int) -> PrimaryOutcome,
                                 fetch1: string -> HttpOutcome, fetch2: string -> HttpOutcome)
    requires !FallsBack(primary(mh.Method(), count))
    ensures GetMarketHighlight(mh, count, primary, fetch1) == GetMarketHighlight(mh, count, primary, fetch2)
  {
  }

  /** What one view contributes: its frame at its dated path, or nothing for a None. */
  function ViewWrites(mh: Constants.MarketHighlight, date: string,
                      primary: (string, int) -> PrimaryOutcome, fetch: string -> HttpOutcome): (writes: seq<Write>)
    ensures |writes| <= 1
    ensures writes != [] <==> GetMarketHighlight(mh, 100, primary, fetch).Some?
  {
    match GetMarketHighlight(mh, 100, primary, fetch)
    case Some(f) => [TableWrite(Constants.DatedPath("day_actives", date, mh.Method()), f)]
    case None => []
  }

  /** The `__main__` loop: each view in declaration order, with count 100; a frame is
      written to the dated path of its method, and a None writes nothing. */
  function DayActivesWrites(mhs: seq<Constants.MarketHighlight>, date: string,
                            primary: (string, int) -> PrimaryOutcome, fetch: string -> HttpOutcome): (writes: seq<Write>)
    ensures |writes| <= |mhs|
    ensures forall w :: w in writes ==>
              exists m :: m in mhs && GetMarketHighlight(m, 100, primary, fetch).Some? &&
                          w == TableWrite(Constants.DatedPath("day_actives", date, m.Method()), GetMarketHighlight(m, 100, primary, fetch).value)
    decreases |mhs|
  {
    if mhs == [] then []
    else ViewWrites(mhs[0], date, primary, fetch) + DayActivesWrites(mhs[1..], date, primary, fetch)
  }

  /** The writes follow the views' order: two blocks of views write the first block's
      tables, then the second's. */
  lemma {:induction false} DayActivesWritesAppend(a: seq<Constants.MarketHighlight>, b: seq<Constants.MarketHighlight>,
                                                  date: string, primary: (string, int) -> PrimaryOutcome,
                                                  fetch: string -> HttpOutcome)
    ensures DayActivesWrites(a + b, date, primary, fetch) ==
            DayActivesWrites(a, date, primary, fetch) + DayActivesWrites(b, date, primary, fetch)
    decreases |a|
  {
    if a == [] {
      assert a + b == b;
    } else {
      var ab := a + b;
      assert ab != [] && ab[0] == a[0] && ab[1..] == a[1..] + b;
      DayActivesWritesAppend(a[1..], b, date, primary, fetch);
      assert DayActivesWrites(ab, date, primary, fetch) ==
             ViewWrites(a[0], date, primary, fetch) + DayActivesWrites(a[1..] + b, date, primary, fetch);
    }
  }

  /** Every view whose lookup gives a table is written, with that table, to its path. */
  lemma {:induction false} DayActivesComplete(mhs: seq<Constants.MarketHighlight>, date: string,
                                              primary: (string, int) -> PrimaryOutcome, fetch: string -> HttpOutcome,
                                              mh: Constants.MarketHighlight)
    requires mh in mhs && GetMarketHighlight(mh, 100, primary, fetch).Some?
    ensures TableWrite(Constants.DatedPath("day_actives", date, mh.Method()), GetMarketHighlight(mh, 100, primary, fetch).value)
            in DayActivesWrites(mhs, date, primary, fetch)
    decreases |mhs|
  {
    if mhs[0] != mh {
      DayActivesComplete(mhs[1..], date, primary, fetch, mh);
    }
  }

  /** The `__main__` loop over the views in declaration order, with count 100: each view's
      table, when its lookup gives one, goes to its dated path. */
  method DayActivesMain(date: string, primary: (string, int) -> PrimaryOutcome, fetch: string -> HttpOutcome)
    returns (writes: seq<Write>)
    ensures writes == DayActivesWrites(Constants.MarketHighlights, date, primary, fetch)
    ensures forall mh: Constants.MarketHighlight :: GetMarketHighlight(mh, 100, primary, fetch).Some? ==>
              TableWrite(Constants.DatedPath("day_actives", date, mh.Method()), GetMarketHighlight(mh, 100, primary, fetch).value) in writes
  {
    var mhs := Constants.MarketHighlights;
    writes := [];
    for i := 0 to |mhs|
      invariant writes == DayActivesWrites(mhs[..i], date, primary, fetch)
    {
      var mh := mhs[i];
      var result := GetMarketHighlight(mh, 100, primary, fetch);
      DayActivesSnoc(mhs, i, date, primary, fetch);
      if result.Some? {
        writes := writes + [TableWrite(Constants.DatedPath("day_actives", date, mh.Method()), result.value)];
      }
    }
    assert mhs[..|mhs|] == mhs;
    DayActivesEveryView(date, primary, fetch);
  }

  /** One more view appends that view's writes. */
  lemma DayActivesSnoc(mhs: seq<Constants.MarketHighlight>, i: nat, date: string,
                       primary: (string, int) -> PrimaryOutcome, fetch: string -> HttpOutcome)
    requires i < |mhs|
    ensures DayActivesWrites(mhs[..i + 1], date, primary, fetch) ==
            DayActivesWrites(mhs[..i], date, primary, fetch) + ViewWrites(mhs[i], date, primary, fetch)
  {
    assert mhs[..i + 1] == mhs[..i] + [mhs[i]];
    DayActivesWritesAppend(mhs[..i], [mhs[i]], date, primary, fetch);
    assert DayActivesWrites([mhs[i]], date, primary, fetch) == ViewWrites(mhs[i], date, primary, fetch) + [];
  }

  /** Over the three views, every view whose lookup gives a table is written. */
  lemma DayActivesEveryView(date: string, primary: (string, int) -> PrimaryOutcome, fetch: string -> HttpOutcome)
    ensures forall mh: Constants.MarketHighlight :: GetMarketHighlight(mh, 100, primary, fetch).Some? ==>
              TableWrite(Constants.DatedPath("day_actives", date, mh.Method()), GetMarketHighlight(mh, 100, primary, fetch).value)
              in DayActivesWrites(Constants.MarketHighlights, date, primary, fetch)
  {
    Constants.MarketHighlightsDistinct();
    forall mh: Constants.MarketHighlight | GetMarketHighlight(mh, 100, primary, fetch).Some?
      ensures TableWrite(Constants.DatedPath("day_actives", date, mh.Method()), GetMarketHighlight(mh, 100, primary, fetch).value)
              in DayActivesWrites(Constants.MarketHighlights, date, primary, fetch)
    {
      DayActivesComplete(Constants.MarketHighlights, date, primary, fetch, mh);
    }
  }
}
