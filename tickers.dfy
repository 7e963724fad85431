/** Ticker selection: for each stock of the index lists, pick one Yahoo symbol
    with a three-pass preference (EUR and Frankfurt/Xetra, then any
    Frankfurt/Xetra, then any EUR), and keep a stock only if its pick is
    non-empty and not already taken by an earlier stock. */
module Tickers {
  import opened Wrappers

  /** One entry of a stock's symbol list. A dictionary entry has a Yahoo symbol
      and a currency (a missing key reads as ""); anything else is skipped. */
  datatype SymbolEntry = Entry(yahoo: string, currency: string) | NotADict

  datatype Stock = Stock(name: string, symbols: seq<SymbolEntry>)

  /** A chosen (company name, Yahoo ticker) pair. */
  datatype Listing = Listing(name: string, ticker: string)

  /** The three passes of the preference, in the order they are tried. */
  datatype Pass = EurFrankfurt | Frankfurt | Eur

  predicate EndsWith(s: string, suffix: string)
  {
    |suffix| <= |s| && s[|s| - |suffix|..] == suffix
  }

  /** A Frankfurt (".F") or Xetra (".DE") Yahoo symbol. */
  predicate IsFrankfurt(ticker: string)
  {
    EndsWith(ticker, ".F") || EndsWith(ticker, ".DE")
  }

  predicate Accepts(pass: Pass, e: SymbolEntry)
  {
    e.Entry? &&
    match pass
    case EurFrankfurt => e.currency == "EUR" && IsFrankfurt(e.yahoo)
    case Frankfurt => IsFrankfurt(e.yahoo)
    case Eur => e.currency == "EUR"
  }

  /** The Yahoo symbol of the first entry a pass accepts, if any. */
  function FirstAccepted(symbols: seq<SymbolEntry>, pass: Pass): Option<string>
  {
    if symbols == [] then None
    else if Accepts(pass, symbols[0]) then Some(symbols[0].yahoo)
    else FirstAccepted(symbols[1..], pass)
  }

  /** The symbol a stock contributes; "" when no pass yields a non-empty one. */
  function Preferred(symbols: seq<SymbolEntry>): string
  {
    var first := FirstAccepted(symbols, EurFrankfurt);
    if first.Some? && first.value != "" then first.value
    else
      var second := FirstAccepted(symbols, Frankfurt);
      if second.Some? && second.value != "" then second.value
      else
        var third := FirstAccepted(symbols, Eur);
        if third.Some? then third.value else ""
  }

  predicate DistinctTickers(listings: seq<Listing>)
  {
    forall i, j :: 0 <= i < j < |listings| ==> listings[i].ticker != listings[j].ticker
  }

  function TickersOf(listings: seq<Listing>): set<string>
  {
    set l | l in listings :: l.ticker
  }

  /** The listings kept from `stocks`, stock by stock. */
  function Selected(stocks: seq<Stock>): seq<Listing>
  {
    if stocks == [] then []
    else
      var kept := Selected(stocks[..|stocks| - 1]);
      var stock := stocks[|stocks| - 1];
      var ticker := Preferred(stock.symbols);
      if ticker != "" && ticker !in TickersOf(kept) then kept + [Listing(stock.name, ticker)]
      else kept
  }

  // ---------------------------------------------------------------------------
  // The selection loop

  /** One pass over a symbol list, stopping at the first accepted entry. */
  method Scan(symbols: seq<SymbolEntry>, pass: Pass) returns (found: Option<string>)
    ensures found == FirstAccepted(symbols, pass)
  {
    found := None;
    var i := 0;
    while i < |symbols|
      invariant 0 <= i <= |symbols|
      invariant FirstAccepted(symbols, pass) == FirstAccepted(symbols[i..], pass)
    {
      assert symbols[i..][1..] == symbols[i + 1..];
      if Accepts(pass, symbols[i]) {
        found := Some(symbols[i].yahoo);
        break;
      }
      i := i + 1;
    }
  }

  /** The stock loop: choose each stock's symbol, then append it unless it
      is empty or already seen. `stocks` is the DAX, MDAX and SDAX lists in
      that order, concatenated. */
  method GermanTickers(stocks: seq<Stock>) returns (tickers: seq<Listing>)
    ensures tickers == Selected(stocks)
    ensures DistinctTickers(tickers)
    ensures forall l :: l in tickers ==> l.ticker != ""
  {
    var seen: set<string> := {};
    tickers := [];
    for k := 0 to |stocks|
      invariant tickers == Selected(stocks[..k])
      invariant seen == TickersOf(tickers)
    {
      var stock := stocks[k];
      var yahoo := "";
      var choice := Scan(stock.symbols, EurFrankfurt);
      if choice.Some? { yahoo := choice.value; }
      if yahoo == "" {
        choice := Scan(stock.symbols, Frankfurt);
        if choice.Some? { yahoo := choice.value; }
      }
      if yahoo == "" {
        choice := Scan(stock.symbols, Eur);
        if choice.Some? { yahoo := choice.value; }
      }
      assert yahoo == Preferred(stock.symbols);
      assert stocks[..k + 1][..k] == stocks[..k];
      if yahoo != "" && yahoo !in seen {
        seen := seen + {yahoo};
        tickers := tickers + [Listing(stock.name, yahoo)];
      }
    }
    assert stocks[..|stocks|] == stocks;
    SelectedDistinct(stocks);
    SelectedNonEmpty(stocks);
  }

  // ---------------------------------------------------------------------------
  // Properties of one stock's choice

  /** A pass yields nothing exactly when it accepts no entry, and otherwise
      yields the symbol of the first entry it accepts. */
  lemma {:induction false} FirstAcceptedIsFirst(symbols: seq<SymbolEntry>, pass: Pass)
    ensures FirstAccepted(symbols, pass).None? <==>
              forall i :: 0 <= i < |symbols| ==> !Accepts(pass, symbols[i])
    ensures forall i :: 0 <= i < |symbols| && Accepts(pass, symbols[i]) &&
                        (forall j :: 0 <= j < i ==> !Accepts(pass, symbols[j])) ==>
                          FirstAccepted(symbols, pass) == Some(symbols[i].yahoo)
  {
    if symbols != [] {
      FirstAcceptedIsFirst(symbols[1..], pass);
      if !Accepts(pass, symbols[0]) {
        forall i | 0 < i < |symbols| && Accepts(pass, symbols[i]) &&
                   (forall j :: 0 <= j < i ==> !Accepts(pass, symbols[j]))
          ensures FirstAccepted(symbols, pass) == Some(symbols[i].yahoo)
        {
          assert symbols[1..][i - 1] == symbols[i];
          forall j | 0 <= j < i - 1 ensures !Accepts(pass, symbols[1..][j]) {
            assert symbols[1..][j] == symbols[j + 1];
          }
        }
        if FirstAccepted(symbols, pass).None? {
          forall i | 0 < i < |symbols| ensures !Accepts(pass, symbols[i]) {
            assert symbols[1..][i - 1] == symbols[i];
          }
        }
      }
    }
  }

  /** When some entry is in EUR and on Frankfurt or Xetra, the first such
      entry is chosen. */
  lemma PreferredEurFrankfurt(symbols: seq<SymbolEntry>, i: nat)
    requires i < |symbols| && Accepts(EurFrankfurt, symbols[i])
    requires forall j :: 0 <= j < i ==> !Accepts(EurFrankfurt, symbols[j])
    ensures Preferred(symbols) == symbols[i].yahoo
  {
    FirstAcceptedIsFirst(symbols, EurFrankfurt);
  }

  /** Otherwise, when some entry is on Frankfurt or Xetra, the first such entry
      is chosen whatever its currency. */
  lemma PreferredFrankfurt(symbols: seq<SymbolEntry>, i: nat)
    requires forall j :: 0 <= j < |symbols| ==> !Accepts(EurFrankfurt, symbols[j])
    requires i < |symbols| && Accepts(Frankfurt, symbols[i])
    requires forall j :: 0 <= j < i ==> !Accepts(Frankfurt, symbols[j])
    ensures Preferred(symbols) == symbols[i].yahoo
  {
    FirstAcceptedIsFirst(symbols, EurFrankfurt);
    FirstAcceptedIsFirst(symbols, Frankfurt);
  }

  /** Otherwise the first EUR entry decides, even when its symbol is empty,
      and with no EUR entry either the stock contributes nothing. */
  lemma PreferredEur(symbols: seq<SymbolEntry>)
    requires forall j :: 0 <= j < |symbols| ==> !Accepts(Frankfurt, symbols[j])
    ensures forall i :: 0 <= i < |symbols| && Accepts(Eur, symbols[i]) &&
                        (forall j :: 0 <= j < i ==> !Accepts(Eur, symbols[j])) ==>
                          Preferred(symbols) == symbols[i].yahoo
    ensures (forall j :: 0 <= j < |symbols| ==> !Accepts(Eur, symbols[j])) ==> Preferred(symbols) == ""
  {
    forall j | 0 <= j < |symbols| ensures !Accepts(EurFrankfurt, symbols[j]) {
      assert !Accepts(Frankfurt, symbols[j]);
    }
    FirstAcceptedIsFirst(symbols, EurFrankfurt);
    FirstAcceptedIsFirst(symbols, Frankfurt);
    FirstAcceptedIsFirst(symbols, Eur);
  }

  // ---------------------------------------------------------------------------
  // Properties of the selected list

  /** No ticker is listed twice. */
  lemma {:induction false} SelectedDistinct(stocks: seq<Stock>)
    ensures DistinctTickers(Selected(stocks))
  {
    if stocks != [] {
      var kept := Selected(stocks[..|stocks| - 1]);
      SelectedDistinct(stocks[..|stocks| - 1]);
      var out := Selected(stocks);
      if out != kept {
        var added := out[|kept|];
        assert out == kept + [added] && added.ticker !in TickersOf(kept);
        forall i, j | 0 <= i < j < |out| ensures out[i].ticker != out[j].ticker {
          if j == |kept| {
            assert kept[i] in kept && kept[i].ticker in TickersOf(kept);
          } else {
            assert out[i] == kept[i] && out[j] == kept[j];
          }
        }
      }
    }
  }

  /** No listed ticker is empty. */
  lemma {:induction false} SelectedNonEmpty(stocks: seq<Stock>)
    ensures forall l :: l in Selected(stocks) ==> l.ticker != ""
  {
    if stocks != [] {
      SelectedNonEmpty(stocks[..|stocks| - 1]);
    }
  }

  /** Stock order is kept: the listings of any leading run of stocks are a
      prefix of the listings of all of them. */
  lemma {:induction false} SelectedPrefix(stocks: seq<Stock>, k: nat)
    requires k <= |stocks|
    ensures Selected(stocks[..k]) <= Selected(stocks)
  {
    if k < |stocks| {
      var front := stocks[..|stocks| - 1];
      SelectedPrefix(front, k);
      assert front[..k] == stocks[..k];
    } else {
      assert stocks[..k] == stocks;
    }
  }

  /** Every listing comes from some stock: its name and its preferred symbol. */
  lemma {:induction false} SelectedSound(stocks: seq<Stock>)
    ensures forall l :: l in Selected(stocks) ==>
              exists i :: 0 <= i < |stocks| && l == Listing(stocks[i].name, Preferred(stocks[i].symbols))
  {
    if stocks != [] {
      var front := stocks[..|stocks| - 1];
      SelectedSound(front);
      forall l | l in Selected(stocks)
        ensures exists i :: 0 <= i < |stocks| && l == Listing(stocks[i].name, Preferred(stocks[i].symbols))
      {
        if l in Selected(front) {
          var i :| 0 <= i < |front| && l == Listing(front[i].name, Preferred(front[i].symbols));
          assert front[i] == stocks[i];
        } else {
          var i := |stocks| - 1;
          assert l == Listing(stocks[i].name, Preferred(stocks[i].symbols));
        }
      }
    }
  }

  /** Deduplication keeps the first occurrence: a stock whose symbol no earlier
      stock chose is listed under its own name. */
  lemma {:induction false} SelectedKeepsFirst(stocks: seq<Stock>, i: nat)
    requires i < |stocks|
    requires Preferred(stocks[i].symbols) != ""
    requires forall j :: 0 <= j < i ==> Preferred(stocks[j].symbols) != Preferred(stocks[i].symbols)
    ensures Listing(stocks[i].name, Preferred(stocks[i].symbols)) in Selected(stocks)
  {
    var front := stocks[..|stocks| - 1];
    var t := Preferred(stocks[i].symbols);
    if i < |stocks| - 1 {
      assert front[i] == stocks[i];
      forall j | 0 <= j < i ensures Preferred(front[j].symbols) != t {
        assert front[j] == stocks[j];
      }
      SelectedKeepsFirst(front, i);
      SelectedPrefix(stocks, |stocks| - 1);
    } else {
      SelectedSound(front);
    }
  }

  /** Every non-empty preferred symbol of any stock is among the selected
      tickers, whichever stock it was first chosen for. */
  lemma SelectedComplete(stocks: seq<Stock>, i: nat)
    requires i < |stocks|
    requires Preferred(stocks[i].symbols) != ""
    ensures Preferred(stocks[i].symbols) in TickersOf(Selected(stocks))
  {
    var t := Preferred(stocks[i].symbols);
    var first := FirstWithTicker(stocks, t, i);
    SelectedKeepsFirst(stocks, first);
  }

  /** The earliest stock, at or before `i`, whose preferred symbol is `t`. */
  lemma {:induction false} FirstWithTickerExists(stocks: seq<Stock>, t: string, i: nat)
    requires i < |stocks| && Preferred(stocks[i].symbols) == t
    ensures exists k :: 0 <= k <= i && Preferred(stocks[k].symbols) == t &&
                        forall j :: 0 <= j < k ==> Preferred(stocks[j].symbols) != t
  {
    if exists j :: 0 <= j < i && Preferred(stocks[j].symbols) == t {
      var j :| 0 <= j < i && Preferred(stocks[j].symbols) == t;
      FirstWithTickerExists(stocks, t, j);
    }
  }

  ghost function FirstWithTicker(stocks: seq<Stock>, t: string, i: nat): (k: nat)
    requires i < |stocks| && Preferred(stocks[i].symbols) == t
    ensures k <= i && Preferred(stocks[k].symbols) == t
    ensures forall j :: 0 <= j < k ==> Preferred(stocks[j].symbols) != t
  {
    FirstWithTickerExists(stocks, t, i);
    var k :| 0 <= k <= i && Preferred(stocks[k].symbols) == t &&
             forall j :: 0 <= j < k ==> Preferred(stocks[j].symbols) != t;
    k
  }
}
