/** The global state of options_bot.py and its callbacks, in place: MARKET with the order of its
    keys, and the per-ticker holdings PORTFOLIO records on first buys. Each method is proved to end
    in the state its specification function in ObMarket describes. */
module ObBot {
  import opened Common
  import opened Rolling
  import opened ObMarket

  class Bot {
    var market: map<string, Security>
    /** The insertion order of MARKET's keys. */
    var keys: seq<string>
    /** PORTFOLIO[security] for the tickers bought so far. */
    var holdings: map<string, Holding>

    ghost predicate Valid()
      reads this
    {
      KeysMatch(market, keys)
    }

    constructor()
      ensures Valid()
      ensures market == map[] && keys == [] && holdings == map[]
    {
      market, keys, holdings := map[], [], map[];
    }

    /** ack_register_method over msg['case_meta']['securities'], in message order. */
    method Register(secs: seq<SecInfo>, iv: IvSolver) returns (out: Outcome)
      requires Valid()
      modifies this
      ensures Valid()
      ensures holdings == old(holdings)
      ensures (market, keys, out) == RegisterAll(old(market), old(keys), secs, iv)
    {
      var i := 0;
      while i < |secs|
        invariant 0 <= i <= |secs|
        invariant Valid() && holdings == old(holdings)
        invariant RegisterAll(old(market), old(keys), secs, iv) == RegisterAll(market, keys, secs[i..], iv)
      {
        assert secs[i..][1..] == secs[i + 1..];
        var info := secs[i];
        if info.tradeable {
          if info.ticker == [] {
            return Fail(IndexError);
          }
          RegisterOneKeeps(market, keys, info, iv);
          var (r, o) := NewRecord(info, iv);
          if info.ticker !in market {
            keys := keys + [info.ticker];
          }
          market := market[info.ticker := r];
          if o.Fail? {
            return o;
          }
        }
        i := i + 1;
      }
      out := Pass;
    }

    /** market_update_method for one new last price, `elapsed` seconds into the case. */
    method MarketUpdate(ticker: string, lastPrice: real, elapsed: real, iv: IvSolver) returns (out: Outcome)
      requires Valid()
      modifies this
      ensures Valid()
      ensures keys == old(keys) && holdings == old(holdings)
      ensures market.Keys == old(market).Keys
      ensures (market, out) == QuoteUpdate(old(market), ticker, lastPrice, ExpTime(elapsed), iv)
    {
      if ticker !in market {
        return Fail(KeyError);
      }
      var r := market[ticker];
      r := r.(curPrice := lastPrice);
      r := r.(prices := r.prices + [lastPrice]);
      var (r', o) := WithIv(r, ticker, lastPrice, ExpTime(elapsed), iv);
      market := market[ticker := r'];
      out := o;
    }

    /** trade_method over msg['trades'], in message order. */
    method Trade(trades: seq<TradeRecord>, elapsed: real, iv: IvSolver) returns (out: Outcome)
      requires Valid()
      modifies this
      ensures Valid()
      ensures keys == old(keys) && holdings == old(holdings)
      ensures (market, out) == TradeAll(old(market), trades, ExpTime(elapsed), iv)
    {
      var i := 0;
      while i < |trades|
        invariant 0 <= i <= |trades|
        invariant Valid() && keys == old(keys) && holdings == old(holdings)
        invariant TradeAll(old(market), trades, ExpTime(elapsed), iv) == TradeAll(market, trades[i..], ExpTime(elapsed), iv)
      {
        assert trades[i..][1..] == trades[i + 1..];
        out := MarketUpdate(trades[i].ticker, trades[i].price, elapsed, iv);
        if out.Fail? {
          return;
        }
        i := i + 1;
      }
      out := Pass;
    }

    /** One pass of the loop of trader_update_method, for `ticker`, after the orders `before`. */
    method TraderVisit(ticker: string, before: seq<Order>, elapsed: real, stdOf: seq<real> -> real, greek: GreekOracle)
      returns (orders: seq<Order>, out: Outcome)
      requires Valid()
      modifies this
      ensures Valid()
      ensures keys == old(keys)
      ensures (Book(market, holdings, orders), out) == TraderOne(Book(old(market), old(holdings), before), ticker, ExpTime(elapsed), stdOf, greek)
    {
      orders := before;
      if ticker !in market {
        return orders, Fail(KeyError);
      }
      var r := market[ticker];
      if |r.prices| <= WINDOW {
        return orders, Pass;
      }
      var bands := BollingerBands(r.prices, stdOf, BB_K);
      market := market[ticker := r.(bands := Some(bands))];
      out := Pass;
      if BothBelow(r.prices, bands) {
        orders := orders + [Buy(ticker, CLIP, r.curPrice)];
        if ticker !in holdings && ticker !in PORTFOLIO_KEYS {
          var h := Holding(r.curPrice, CLIP, None, None, None);
          holdings := holdings[ticker := h];
          var d := HoldingGreek(r, Delta, ExpTime(elapsed), greek);
          if d.Err? {
            assert NewHolding(r, ExpTime(elapsed), greek) == (h, Fail(d.error));
            return orders, Fail(d.error);
          }
          h := h.(delta := Some(d.value));
          holdings := holdings[ticker := h];
          var g := HoldingGreek(r, Gamma, ExpTime(elapsed), greek);
          if g.Err? {
            assert NewHolding(r, ExpTime(elapsed), greek) == (h, Fail(g.error));
            assert holdings == old(holdings)[ticker := h];
            return orders, Fail(g.error);
          }
          h := h.(gamma := Some(g.value));
          holdings := holdings[ticker := h];
          var v := HoldingGreek(r, Vega, ExpTime(elapsed), greek);
          if v.Err? {
            assert NewHolding(r, ExpTime(elapsed), greek) == (h, Fail(v.error));
            assert holdings == old(holdings)[ticker := h];
            return orders, Fail(v.error);
          }
          h := h.(vega := Some(v.value));
          assert NewHolding(r, ExpTime(elapsed), greek) == (h, Pass);
          holdings := holdings[ticker := h];
          assert holdings == old(holdings)[ticker := h];
        }
      } else if CrossUp(r.prices, bands) {
        orders := orders + [Sell(ticker, CLIP, r.curPrice)];
      }
    }

    /** trader_update_method over the tickers of msg['trader_state']['positions']. */
    method TraderUpdate(tickers: seq<string>, elapsed: real, stdOf: seq<real> -> real, greek: GreekOracle)
      returns (orders: seq<Order>, out: Outcome)
      requires Valid()
      modifies this
      ensures Valid()
      ensures keys == old(keys)
      ensures (Book(market, holdings, orders), out) == TraderAll(Book(old(market), old(holdings), []), tickers, ExpTime(elapsed), stdOf, greek)
    {
      orders := [];
      var i := 0;
      while i < |tickers|
        invariant 0 <= i <= |tickers|
        invariant Valid() && keys == old(keys)
        invariant TraderAll(Book(old(market), old(holdings), []), tickers, ExpTime(elapsed), stdOf, greek)
               == TraderAll(Book(market, holdings, orders), tickers[i..], ExpTime(elapsed), stdOf, greek)
      {
        assert tickers[i..][1..] == tickers[i + 1..];
        orders, out := TraderVisit(tickers[i], orders, elapsed, stdOf, greek);
        if out.Fail? {
          return;
        }
        i := i + 1;
      }
      out := Pass;
    }
  }
}
