# fin_utils batch scripts, modelled in Dafny

This project models the batch scripts of `fin_utils`. The scripts pull market data
from a provider, decide what to keep and write CSV and text files. Every file goes under
`/Invest/research/yahoo` except the classification summary, which goes to the relative path
`../data/ticker_classification_summary.csv`. The provider, the HTTP client, the HTML parser, pandas and the
file system are not modelled as code: each becomes a parameter or a small value model.
What remains is the scripts' own logic, and each part has its own module:

- `Constants` (`constants.dfy`): the output root, the three market-highlight views and the
  three exchange listings. Each listing carries its slug, its provider method, its column
  renames and its constant columns.
- `TickerClassification` (`classification.dfy`):
  - reading a symbols file;
  - the rule cascade that labels a ticker STOCK, ETF, UNKNOWN or ERROR from its attribute bag;
  - the loop that sorts tickers into four lists;
  - the summary table, grouped by label;
  - the files a run writes.
- `DayGainers` (`day_gainers.dfy`):
  - the provider call, whose one known failure (a KeyError about `'52 Week Range'`) falls
    back to scraping the Yahoo Finance page;
  - the scraper, which takes the first stock-like table that has data, drops its third
    column and cuts every Price at the first space;
  - the daily export, a loop over the three views in declaration order.
- `TickerVolatility` (`volatility.dfy`):
  - the six-field record drawn from each stock's attribute bag;
  - the batch loop, which writes a partial table every 100 symbols;
  - the final table.
- `SymbolTable` (`symbol_table.dfy`): the exchange-table export. It renames columns, sets
  the listing's constant columns and selects four columns in a fixed order.
- `SymbolList` (`symbol_list.dfy`): the exchange symbol-list export, a loop over the three
  listings in declaration order that writes a header line plus the symbols joined by newlines.

Three shared modules support them:

- `Values`: Python's None-or-value, attribute-bag values and the lookup outcome.
- `Text`: the Python string operations the scripts use. These are `strip`, `upper`/`lower`,
  `in` on strings, `join`, `split`, `replace` and `split(" ")[0]`.
- `Frames`: the part of a pandas DataFrame the scripts use:
  - columns over rows;
  - label lookup;
  - drop by label;
  - rename;
  - scalar column assignment;
  - `loc` selection;
  - the files written.

The provider and the page are passed in as functions:

- `info: string -> Lookup` is `yf.Ticker(t).info`, or an exception.
- `primary: (string, int) -> PrimaryOutcome` is the highlight method of the provider.
- `fetch: string -> HttpOutcome` is `requests.get` followed by parsing the page's tables.
- `listing: (string, bool) -> ...` is the listing method of the provider.

Each gives the same answer for the same argument within one run. The date that names
the output directories is a parameter as well.

The classification summary lists the ERROR tickers too
(`src/get_ticker_classification.py:153-154`). So a run where AAA is a stock and the lookup
of BBB fails writes a two-row summary: see `TickerClassification.SummaryGrouped` and
`TickerClassification.TwoTickerRun`.

## Model

| member | source | states |
|---|---|---|
| Constants.MarketHighlightsDistinct | src/constants.py:5-14 | the enumeration holds each of the three views once, in declaration order, and no two views share a slug or a method name |
| Constants.ExchangesDistinct | src/constants.py:16-27 | the enumeration holds each of the three listings once, in declaration order, and no two listings share a value or a method name |
| Constants.Exchange.ColRename | src/constants.py:17-19 | every rename map sends "Symbol" to "Symbol Name" and exactly one other column to "Description" |
| Constants.Exchange.ColAdd | src/constants.py:17-19 | every listing sets Category to "Stocks" first; NASDAQ then sets Exchange to "NASDAQ", SP500 sets it to "", and only DOW sets no Exchange |
| Constants.DatedPath | src/get_symbol_table.py:31-34 | the file a script writes for a provider method on a date lies in `{OUTPUT_DIR}/{kind}/{date}/` and ends in ".csv"; the symbol-list, symbol-table and day-actives exports all name their files this way |
| Constants.DatedPathInjective | src/get_symbol_table.py:31-34 | within one dated directory, two methods share a file only if they are the same method |
| Text.StripResult | src/get_ticker_classification.py:15 | `strip()` leaves text with no whitespace at either end, and that text occurs in the original |
| Text.StripEmptyIffBlank | src/get_ticker_classification.py:15 | `line.strip()` is empty, so the line is skipped, exactly when the line is all whitespace |
| Text.StripTrailingBlank | src/get_ticker_classification.py:15 | stripping a symbol followed by its line ending gives the symbol back |
| Text.UpperStrip | src/get_ticker_classification.py:15 | stripping commutes with upper-casing, and an upper-cased text is upper case |
| Text.ContainsIffOccurs | src/get_ticker_classification.py:42 | Python's `needle in hay` holds exactly when the needle occurs at some position of the hay |
| Text.Split | src/get_symbol_list.py:32 | splitting gives at least one part, and no part contains the separator; text without the separator splits to itself |
| Text.SplitJoin | src/get_symbol_list.py:32 | joining newline-free items with a separator and splitting on it gives the items back |
| Text.JoinSplit | src/get_symbol_list.py:32 | splitting on a separator and joining with it gives the text back |
| Text.JoinOccurs | src/get_day_gainers.py:67 | every item of `sep.join(xs)` occurs in the joined text |
| Text.BeforeFirstSpaceResult | src/get_day_gainers.py:82 | `split(" ")[0]` has no space, is a prefix of its input, ends at the first space and leaves a space-free text unchanged |
| Text.ReplaceCsvSuffix | src/get_ticker_volatility.py:99 | replacing ".csv" in a dot-free stem plus ".csv" puts the replacement in place of the suffix |
| Frames.IndexOf | src/get_symbol_table.py:30 | a label resolves to the position of its first column, and is missing exactly when no column has that label |
| Frames.DropLabelColumns | src/get_day_gainers.py:80 | after dropping a label, the columns are exactly the other labels, with the rows kept |
| Frames.DropSingle | src/get_day_gainers.py:80 | dropping a label that names one column removes that position from the header and from every row |
| Frames.Rename | src/get_symbol_table.py:27 | renaming replaces exactly the labels that are keys of the map, keeps the others in place and leaves the cells alone |
| Frames.SetColumn | src/get_symbol_table.py:29 | `df[key] = v` sets every column named `key` to `v` on every row, or appends one such column, and touches no other cell |
| Frames.AddConstantColumns | src/get_symbol_table.py:28-29 | the assignment loop computes the assignments applied in order |
| Frames.AddAllColumns | src/get_symbol_table.py:28-29 | after the assignments, the original columns keep their places, only assigned keys are appended, and every key is a column |
| Frames.AddAllCells | src/get_symbol_table.py:28-29 | with distinct keys, each assigned column holds its value on every row, and a column no assignment names keeps its cells |
| Frames.AddAllResult | src/get_symbol_table.py:28-29 | after the assignments, the original columns keep their places and only assigned keys are appended; each key holds its value on every row; other columns are untouched |
| Frames.Select | src/get_symbol_table.py:30 | `loc[:, labels]` succeeds exactly when every label is a column; it then has those columns in that order and the same rows, each cell taken from its label's column |
| TickerClassification.ReadSymbols | src/get_ticker_classification.py:11-19 | a missing file gives no symbols; otherwise at most one symbol per line, each non-empty, stripped and upper case |
| TickerClassification.NormalizedAreSymbols | src/get_ticker_classification.py:15 | every symbol read from the lines is non-empty, stripped and upper case |
| TickerClassification.NormalizeIsSymbol | src/get_ticker_classification.py:15 | a line that is not blank normalises to a valid symbol |
| TickerClassification.ReadSymbolsAppend | src/get_ticker_classification.py:15 | reading keeps line order: the symbols of two blocks of lines are those of the first block, then the second |
| TickerClassification.ReadSymbolsMembers | src/get_ticker_classification.py:15 | a symbol is read exactly when some non-blank line normalises to it |
| TickerClassification.SymbolsFileSplit | src/get_ticker_classification.py:57-59 | a written list file split on "\n" gives the symbols and then the empty text after the last line ending |
| TickerClassification.SymbolsFileContent | src/get_ticker_classification.py:53-59 | the file text is the per-symbol writes of "symbol\n", one after the other |
| TickerClassification.SymbolLineReadsBack | src/get_ticker_classification.py:15 | a line written as a symbol plus "\n" is not blank and normalises back to the symbol |
| TickerClassification.ReadBack | src/get_ticker_classification.py:53-59 | reading back a list file written from read symbols gives the same symbols, in order |
| TickerClassification.ClassifyTicker | src/get_ticker_classification.py:21-51 | exactly one label per lookup:<br>- quoteType ETF or EQUITY (default 'UNKNOWN') decides first;<br>- otherwise a legal type naming an ETF, then a set fund family other than 'Unknown', give ETF;<br>- a failed lookup, or a non-string legalType, gives ERROR;<br>- everything else is UNKNOWN |
| TickerClassification.PartitionTickers | src/get_ticker_classification.py:89-108 | the loop puts each ticker in the list of its label, in input order |
| TickerClassification.PartitionCovers | src/get_ticker_classification.py:89-108 | the four lists together hold exactly the input tickers, each as often as in the input (equal multisets) |
| TickerClassification.PartitionLengths | src/get_ticker_classification.py:89-108 | the lengths of the four lists sum to the number of input tickers |
| TickerClassification.BucketMembers | src/get_ticker_classification.py:89-100 | a ticker is in a label's list exactly when it is an input ticker with that label |
| TickerClassification.BuildSummary | src/get_ticker_classification.py:146-154 | the four loops build the summary: stocks, then ETFs, then unknown, then errors, each row holding the ticker and its label |
| TickerClassification.SummaryRowAt | src/get_ticker_classification.py:146-154 | the row at each position is the ticker of the list that covers that position, with that list's label |
| TickerClassification.SummaryGrouped | src/get_ticker_classification.py:146-157 | the summary has one row per input ticker: its Ticker cells are the input tickers, each as often as in the input (equal multisets); each Type cell is that ticker's label; the rows are grouped STOCK, ETF, UNKNOWN, ERROR |
| TickerClassification.SummaryTickerCells | src/get_ticker_classification.py:146-154 | the summary's Ticker column is the stocks, then the ETFs, then the unknown, then the errors |
| TickerClassification.ClassifyMain | src/get_ticker_classification.py:64-159 | an empty or missing symbols file writes nothing; otherwise the stocks and ETF lists (each only when non-empty) and then the summary (when it has rows) are written |
| TickerClassification.SummaryAlwaysWritten | src/get_ticker_classification.py:146-159 | for a non-empty symbol list the summary always has rows, so it is always written, as the last write |
| TickerClassification.TwoTickerRun | src/get_ticker_classification.py:89-100 | with AAA quoted as EQUITY and the lookup of BBB failing, AAA is a stock, BBB an error, and the other lists are empty |
| DayGainers.FirstUsable | src/get_day_gainers.py:54-86 | the chosen table is usable and every earlier table is not; no table is chosen only when none is usable |
| DayGainers.FallbackUrl | src/get_day_gainers.py:38 | the scraper's URL is the Yahoo Finance page of the view's slug, with offset 0, ending in the count |
| DayGainers.FallbackUrlExample | src/get_day_gainers.py:38 | the most-active view with count 100 fetches "https://finance.yahoo.com/most-active?offset=0&count=100" |
| DayGainers.LooksLikeStockTable | src/get_day_gainers.py:66-67 | a table whose header row is empty is never stock-like |
| DayGainers.KeywordHeaderIsStockLike | src/get_day_gainers.py:66-67 | a header cell equal to a keyword, in any letter case, makes the table stock-like |
| DayGainers.RowsWithCells | src/get_day_gainers.py:71-76 | the collected data rows are rows of the table, and each has cells |
| DayGainers.RowsWithCellsAppend | src/get_day_gainers.py:71-76 | collecting keeps order: the rows kept from two blocks are those of the first, then those of the second |
| DayGainers.RowsWithCellsMembers | src/get_day_gainers.py:71-76 | a row is kept exactly when it is a row of the table and has a cell |
| DayGainers.CollectData | src/get_day_gainers.py:71-76 | the row loop collects exactly the rows after the header that have cells, in order |
| DayGainers.MaxWidth | src/get_day_gainers.py:79 | the width bounds every row and is reached by some row |
| DayGainers.MakeFrame | src/get_day_gainers.py:79 | pandas accepts the rows exactly when there are none or the widest row matches the header; each short row is padded with None |
| DayGainers.PricesCut | src/get_day_gainers.py:81-82 | cutting Price keeps the columns and the row count; with rows present it succeeds only when there is a Price column; with no rows it changes nothing |
| DayGainers.CutPrices | src/get_day_gainers.py:81-82 | the per-row loop cuts every Price, and fails on a missing Price column or a padded cell |
| DayGainers.PricesCutSome | src/get_day_gainers.py:81-82 | with rows present, the cut succeeds exactly when every row holds text under Price |
| DayGainers.PricesCutCells | src/get_day_gainers.py:81-82 | the cut changes only each row's Price cell, to the text before its first space |
| DayGainers.BuildFrame | src/get_day_gainers.py:79-82 | a built frame needs a column 2 and rows pandas accepts; it has one row per data row, loses column 2's label and, with rows present, has a Price column |
| DayGainers.BuildTable | src/get_day_gainers.py:79-82 | frame building is pandas construction, the drop of column 2's label and the Price cut, failing where any of them raises |
| DayGainers.BuildFrameNoData | src/get_day_gainers.py:79-82 | with no data rows, a frame (with no rows) results exactly when there is a column 2 to drop |
| DayGainers.DropThird | src/get_day_gainers.py:80 | with distinct headers, the drop removes column 2 alone and moves every later page cell left by one |
| DayGainers.PriceShifted | src/get_day_gainers.py:80-82 | after the drop, Price is found at its page position moved past column 2 |
| DayGainers.BuildFrameDistinct | src/get_day_gainers.py:78-85 | with distinct headers, a frame results exactly when:<br>- the rows fit the header;<br>- there are at least three columns;<br>- Price is a column other than column 2;<br>- every row reaches Price |
| DayGainers.PriceKept | src/get_day_gainers.py:80-82 | with Price outside column 2, the cut after the drop succeeds exactly when every row reaches Price |
| DayGainers.BuildFrameCells | src/get_day_gainers.py:72-82 | the resulting frame has the headers without column 2 and one row per data row; each other cell keeps its page text, and Price is cut at the first space |
| DayGainers.Alternative | src/get_day_gainers.py:35-96 | a failed request gives None; a frame comes only from a status-200 response that has a usable table |
| DayGainers.GetMarketHighlightAlternative | src/get_day_gainers.py:35-96 | the scraper fetches the view's URL; a failed request or a status other than 200 gives None; otherwise it builds from the first table with more than one row, a keyword in its header and data rows, or gives None |
| DayGainers.PriceCutExample | src/get_day_gainers.py:82 | "123.45 +1.2%" is cut to "123.45" |
| DayGainers.GetMarketHighlight | src/get_day_gainers.py:13-33 | a returned table comes back unchanged; a KeyError mentioning '52 Week Range' gives the scraper's result for the same view and count; any other failure gives None |
| DayGainers.FallbackOnlyOnKnownIssue | src/get_day_gainers.py:21-33 | unless the known KeyError occurs, the result does not depend on the page |
| DayGainers.ViewWrites | src/get_day_gainers.py:100-107 | one view writes one table exactly when its lookup with count 100 gives one |
| DayGainers.DayActivesWrites | src/get_day_gainers.py:98-108 | each write is a view's table fetched with count 100, written to that view's dated path; a view with no table writes nothing |
| DayGainers.DayActivesWritesAppend | src/get_day_gainers.py:99-107 | the writes follow the views' order: two blocks of views write the first block's tables, then the second's |
| DayGainers.DayActivesComplete | src/get_day_gainers.py:99-107 | every view whose lookup gives a table is written, with that table, to its dated path |
| DayGainers.DayActivesEveryView | src/get_day_gainers.py:99-107 | over the three views, every view whose lookup gives a table is written |
| DayGainers.DayActivesMain | src/get_day_gainers.py:98-108 | the main loop writes the three views' tables in declaration order, and every view whose lookup gives a table is written |
| TickerVolatility.StocksFeedVolatility | src/get_ticker_volatility.py:59 | the volatility script reads the stocks list file the classification script writes (src/get_ticker_classification.py line 69) |
| TickerVolatility.ExtractVolatilityData | src/get_ticker_volatility.py:21-53 | the record has exactly the six fields; Ticker is the input; each other field is its bag value, or None when absent; all five are None when the lookup fails |
| TickerVolatility.ProjectRow | src/get_ticker_volatility.py:96-98 | a record's row lists its fields in the fixed column order |
| TickerVolatility.Project | src/get_ticker_volatility.py:103-108 | the table has the fixed columns, Ticker first, and one row per record, in order |
| TickerVolatility.RecordsSnoc | src/get_ticker_volatility.py:77-80 | the records of one more symbol are the earlier records followed by that symbol's own |
| TickerVolatility.Records | src/get_ticker_volatility.py:77-80 | one record per symbol, in input order |
| TickerVolatility.Checkpoints | src/get_ticker_volatility.py:90-99 | the loop over the first n symbols writes n / 100 checkpoints, each a table to the partial path |
| TickerVolatility.VolatilityWrites | src/get_ticker_volatility.py:64-114 | nothing is written exactly when there are no symbols; otherwise one checkpoint per full hundred, all to the partial path, then the final table to the output path |
| TickerVolatility.PartialPathValue | src/get_ticker_volatility.py:59-60 | the checkpoint path is the output path with ".csv" replaced by "_partial.csv" |
| TickerVolatility.ProcessTickers | src/get_ticker_volatility.py:73-99 | the loop keeps one record per symbol, in order; the failure list stays empty; the checkpoints are those due after every hundredth symbol |
| TickerVolatility.VolatilityMain | src/get_ticker_volatility.py:55-115 | an empty or missing symbols file writes nothing; otherwise the checkpoints are written, then the full table to the output path |
| TickerVolatility.OneRowPerSymbol | src/get_ticker_volatility.py:102-114 | the final table goes to the output path, with one row per input symbol, in order, and the symbol in the Ticker column |
| TickerVolatility.CheckpointsArePrefixes | src/get_ticker_volatility.py:90-99 | there is one checkpoint per full hundred symbols; checkpoint t goes to the partial path and holds the first 100·(t+1) rows of the final table |
| TickerVolatility.WritesShareColumns | src/get_ticker_volatility.py:96-108 | every table written, partial or final, has the same columns, Ticker first |
| SymbolTable.GetTickerTable | src/get_symbol_table.py:11-19 | the listing method is called with True; its table comes back on success, and None on any exception |
| SymbolTable.Adds | src/get_symbol_table.py:28-29 | one cell assignment per `col_add` entry, in order, with the constant as a text cell |
| SymbolTable.AddsKeys | src/get_symbol_table.py:28-29 | the keys assigned are distinct: Category, plus Exchange outside DOW |
| SymbolTable.ReshapeTable | src/get_symbol_table.py:27-30 | the export runs the rename, then the assignment loop, then the selection |
| SymbolTable.AugmentedKeeps | src/get_symbol_table.py:28-29 | the assignments add or drop no other label and do not move one |
| SymbolTable.IndexOfPrefix | src/get_symbol_table.py:30 | appending columns does not change where an existing label is first found |
| SymbolTable.HasOutputColumns | src/get_symbol_table.py:30 | the selection finds its columns exactly when Symbol Name, Description, Exchange and Category are all present |
| SymbolTable.ReshapeSucceeds | src/get_symbol_table.py:27-30 | the export succeeds exactly when the renamed table has Symbol Name and Description, and, for DOW, an Exchange column of its own |
| SymbolTable.ReshapeByListing | src/get_symbol_table.py:27-30 | outside DOW, a table with Symbol and its description column exports; a DOW table without Exchange fails |
| SymbolTable.AugmentedCell | src/get_symbol_table.py:27-29 | a column the assignments do not name keeps, after them, the cells of the renamed table |
| SymbolTable.AddedCell | src/get_symbol_table.py:28-29 | an assigned column holds its constant on every row |
| SymbolTable.ReshapeResult | src/get_symbol_table.py:27-30 | an exported table has Symbol Name, Description, Exchange, Category in order and one row per fetched row:<br>- the first two come from the renamed columns;<br>- Category is "Stocks" everywhere;<br>- Exchange is "NASDAQ" for NASDAQ and "" for SP500 |
| SymbolTable.TableRun | src/get_symbol_table.py:22-36 | the run over the listings writes at most one table per listing |
| SymbolTable.RunListings | src/get_symbol_table.py:23-34 | the loop processes the listings in order: a failed fetch writes nothing, a reshaped table goes to its dated path, and a failing selection stops the run |
| SymbolTable.SymbolTableMain | src/get_symbol_table.py:22-36 | the main block runs that loop over the three listings in declaration order; each write is an exported listing's reshaped table at its dated path; it stops exactly when some listing's table cannot be exported; without a stop, every listing whose fetch succeeded is written; after a stop, the writes are exactly those of the listings before the first failing one |
| SymbolTable.TableRunWrites | src/get_symbol_table.py:22-36 | for any listings: each write is an exported listing's reshaped table at its dated path; the run stops exactly when some fetched table is malformed or its selection raises; a run that does not stop writes every listing whose fetch succeeded |
| SymbolTable.TableRunAppend | src/get_symbol_table.py:22-36 | the run follows listing order: over two blocks of listings, a stop in the first block ends the whole run with the first block's writes; otherwise the second block's writes follow the first's |
| SymbolTable.TableRunStopsAt | src/get_symbol_table.py:22-36 | when listing k is the first whose table cannot be exported, the run stops and writes exactly what the listings before k write; no later listing is exported |
| SymbolTable.TableRunPaths | src/get_symbol_table.py:23-34 | each write belongs to a listing whose fetch succeeded, and no two writes share a path |
| SymbolTable.MainPathsDistinct | src/get_symbol_table.py:22-34 | the main block's writes, over the three listings, go to pairwise distinct paths |
| SymbolList.GetTickerList | src/get_symbol_list.py:12-20 | the listing method is called with False; its symbols come back on success, and None on any exception |
| SymbolList.ListContent | src/get_symbol_list.py:31-32 | the file text starts with the header line "Symbol\n" |
| SymbolList.ListContentLines | src/get_symbol_list.py:31-32 | for newline-free symbols, a non-empty list splits back to "Symbol" followed by the list, and an empty list gives exactly "Symbol\n" |
| SymbolList.ListingWrites | src/get_symbol_list.py:25-35 | one listing writes one file exactly when its fetch succeeds |
| SymbolList.ListWrites | src/get_symbol_list.py:23-35 | each write is a listing's text at its dated path, and only listings whose fetch succeeded are written |
| SymbolList.ListWritesComplete | src/get_symbol_list.py:23-35 | every listing whose fetch succeeds is written with its own symbols |
| SymbolList.ListWritesAppend | src/get_symbol_list.py:23-35 | the writes follow the listings' order: two blocks of listings write the first block's files, then the second's |
| SymbolList.SymbolListMain | src/get_symbol_list.py:22-35 | the main loop writes the three listings' files in declaration order, and every listing whose fetch succeeds is written |

## Left out

- `src/http_server.py`: a blocking HTTP server that writes request bodies to disk. It is I/O only.
- Provider, HTTP and HTML calls (`yf.Ticker(...).info`, the `yahoo_fin` methods,
  `requests.get`, BeautifulSoup): they are function parameters. Each is assumed to answer
  the same way for the same argument. The page is given already parsed into tables of
  stripped cell texts.
- CSV rendering, `os.makedirs`, `os.path.exists`, `date.today()`: a write is recorded as a
  path plus a text or a table, and the date is a parameter.
- Failing writes: every write is assumed to succeed. So the model does not capture the error
  that `write_symbols_to_file` catches and logs (`src/get_ticker_classification.py:61-62`).
  It also does not capture a missing directory. The volatility checkpoint is written
  (`src/get_ticker_volatility.py:99`) before the only `os.makedirs` of that script (:111).
  So if `symbol_info/` does not exist yet, the run would likely stop at the hundredth symbol
  in the source. The model has no directories and cannot show this.
- Read errors other than a missing file: `read_symbols` catches only `FileNotFoundError`
  (`src/get_ticker_classification.py:17`), so any other read error propagates and ends the
  script. `TickerClassification.SymbolsFile` has no case for it.
- Logging (`print`, `traceback`), `time.sleep`, `tqdm`, the progress prints every 100
  tickers, the value counts, and the percentage and completeness statistics: these are
  output and floating point only.
- Text.Upper: only ASCII letters change case. Python's full Unicode case mapping is not modelled.
- Text.Lower: only ASCII letters change case, as for Text.Upper. The keyword test of the scraper
  uses it.
- Text.IsSpace: Python's `str.strip()` whitespace set is written out. Universal-newline
  translation on reading is left out: a file is the sequence of lines Python iterates.
- Text.ReplaceAll: only non-empty patterns are modelled. The source replaces only ".csv".
- Frames.Select: for a label that names several columns, the model takes the first. pandas
  would return all of them.
- DayGainers.PricesCut: the Price update is applied to the table. In the source it
  assigns into the rows `iterrows` yields, and whether that reaches the table depends on
  pandas' copy semantics. The model takes the first column labelled Price, where
  `to_dict` would take the last.
- DayGainers.PricesCut: only the result's shape is stated here. Its cells are stated by
  DayGainers.PricesCutCells and DayGainers.PricesCutSome.
- Values.Value: bag values are texts, numbers or None. Lists, booleans and nested
  dictionaries in the attribute bag are not modelled.
- SymbolTable.TableRun: a fetched table whose rows do not match its header cannot come
  from pandas. The model treats one as a failing run.
