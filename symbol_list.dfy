/** The exchange symbol-list export: each listing's symbols from the provider, written
    as a one-column CSV text under a dated directory. */
module SymbolList {
  import opened Values
  import opened Text
  import opened Frames
  import opened Constants

  /** How the provider's listing method ended when asked for the symbols only. */
  datatype ListFetch = Symbols(symbols: seq<string>) | Raised

  /** `get_ticker_list`: the listing method called with False, its symbols on success and
      None on any exception. */
  function GetTickerList(ex: Exchange, listing: (string, bool) -> ListFetch): (r: Option<seq<string>>)
    ensures listing(ex.Method(), false).Symbols? ==> r == Some(listing(ex.Method(), false).symbols)
    ensures listing(ex.Method(), false).Raised? ==> r == None
  {
    match listing(ex.Method(), false)
    case Symbols(symbols) => Some(symbols)
    case Raised => None
  }

  /** The file text: a "Symbol" header line, then the symbols joined by newlines, with no
      newline after the last. */
  function ListContent(symbols: seq<string>): (content: string)
    ensures |content| >= 7 && content[..7] == "Symbol\n"
  {
    "Symbol\n" + Join(symbols, "\n")
  }

  /** Reading the text back line by line gives the header and then the symbols; an empty
      list leaves only the header line. */
  lemma ListContentLines(symbols: seq<string>)
    requires forall k :: 0 <= k < |symbols| ==> '\n' !in symbols[k]
    ensures symbols != [] ==> Split(ListContent(symbols), '\n') == ["Symbol"] + symbols
    ensures symbols == [] ==> ListContent(symbols) == "Symbol\n"
  {
    if symbols != [] {
      var xs := ["Symbol"] + symbols;
      assert ListContent(symbols) == Join(xs, "\n") by {
        assert |xs| > 1 && xs[0] == "Symbol" && xs[1..] == symbols;
      }
      assert Split(Join(xs, "\n"), '\n') == xs by {
        forall k | 0 <= k < |xs|
          ensures '\n' !in xs[k]
        {
          if k > 0 {
            assert xs[k] == symbols[k - 1];
          }
        }
        SplitJoin(xs, '\n');
      }
    }
  }

  /** What one listing contributes: its text at its dated path, or nothing when the
      fetch failed. */
  function ListingWrites(ex: Exchange, date: string, listing: (string, bool) -> ListFetch): (writes: seq<Write>)
    ensures |writes| <= 1
    ensures writes != [] <==> GetTickerList(ex, listing).Some?
  {
    match GetTickerList(ex, listing)
    case Some(symbols) => [TextWrite(DatedPath("symbols_list", date, ex.Method()), ListContent(symbols))]
    case None => []
  }

  /** The `__main__` loop: for each listing in order, its text to its dated path when the
      fetch succeeded, and nothing when it failed. */
  function ListWrites(exs: seq<Exchange>, date: string, listing: (string, bool) -> ListFetch): (writes: seq<Write>)
    ensures |writes| <= |exs|
    ensures forall w :: w in writes ==>
              exists ex :: ex in exs && GetTickerList(ex, listing).Some? &&
                           w == TextWrite(DatedPath("symbols_list", date, ex.Method()), ListContent(GetTickerList(ex, listing).value))
    decreases |exs|
  {
    if exs == [] then []
    else ListingWrites(exs[0], date, listing) + ListWrites(exs[1..], date, listing)
  }

  /** The writes follow the listings' order: two blocks of listings write the first
      block's files, then the second's. */
  lemma {:induction false} ListWritesAppend(a: seq<Exchange>, b: seq<Exchange>, date: string,
                                            listing: (string, bool) -> ListFetch)
    ensures ListWrites(a + b, date, listing) == ListWrites(a, date, listing) + ListWrites(b, date, listing)
    decreases |a|
  {
    if a == [] {
      assert a + b == b;
    } else {
      assert (a + b)[0] == a[0] && (a + b)[1..] == a[1..] + b;
      ListWritesAppend(a[1..], b, date, listing);
    }
  }

  /** Every listing whose fetch succeeds is written, with its own symbols, to its own path. */
  lemma {:induction false} ListWritesComplete(exs: seq<Exchange>, date: string,
                                              listing: (string, bool) -> ListFetch, ex: Exchange)
    requires ex in exs && GetTickerList(ex, listing).Some?
    ensures TextWrite(DatedPath("symbols_list", date, ex.Method()), ListContent(GetTickerList(ex, listing).value))
            in ListWrites(exs, date, listing)
    decreases |exs|
  {
    if exs[0] != ex {
      ListWritesComplete(exs[1..], date, listing, ex);
    }
  }

  /** The `__main__` loop over the listings in declaration order: each listing's text,
      when its fetch succeeds, goes to its dated path. */
  method SymbolListMain(date: string, listing: (string, bool) -> ListFetch) returns (writes: seq<Write>)
    ensures writes == ListWrites(Exchanges, date, listing)
    ensures forall ex: Exchange :: GetTickerList(ex, listing).Some? ==>
              TextWrite(DatedPath("symbols_list", date, ex.Method()), ListContent(GetTickerList(ex, listing).value)) in writes
  {
    var exs := Exchanges;
    writes := [];
    for i := 0 to |exs|
      invariant writes == ListWrites(exs[..i], date, listing)
    {
      var ex := exs[i];
      var result := GetTickerList(ex, listing);
      assert ListWrites(exs[..i + 1], date, listing) == writes + ListingWrites(ex, date, listing) by {
        assert exs[..i + 1] == exs[..i] + [ex];
        ListWritesAppend(exs[..i], [ex], date, listing);
        assert ListWrites([ex], date, listing) == ListingWrites(ex, date, listing) + [];
      }
      if result.Some? {
        writes := writes + [TextWrite(DatedPath("symbols_list", date, ex.Method()), ListContent(result.value))];
      }
    }
    assert exs[..|exs|] == exs;
    forall ex: Exchange | GetTickerList(ex, listing).Some?
      ensures TextWrite(DatedPath("symbols_list", date, ex.Method()), ListContent(GetTickerList(ex, listing).value)) in writes
    {
      ExchangesDistinct();
      ListWritesComplete(exs, date, listing, ex);
    }
  }
}
