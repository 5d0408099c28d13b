/** The global state of shen_wang_options.py and its callbacks, in place: MARKET (with the order of
    its keys), PORTFOLIO's positions, aggregate Greeks and options counter. Each method updates the
    fields step by step, as the Python handler does, and is proved to end in the state its
    specification function in SwMarket, SwLedger or SwSignals describes. */
module SwBot {
  import opened Common
  import opened Rolling
  import opened SwMarket
  import opened SwLedger
  import opened SwSignals

  class Bot {
    var market: map<string, Security>
    /** The order in which `MARKET.keys()` lists the securities: insertion order. */
    var keys: seq<string>
    var positions: map<string, Position>
    var delta: real
    var gamma: real
    var vega: real
    var options: int

    /** PORTFOLIO as one value. */
    function Ledger(): Portfolio
      reads this
    {
      Portfolio(positions, delta, gamma, vega, options)
    }

    ghost predicate Valid()
      reads this
    {
      WellKept(market, keys)
    }

    /** The module-level initialisation: empty MARKET, PORTFOLIO with zero Greeks and counter. */
    constructor()
      ensures Valid()
      ensures market == map[] && keys == [] && Ledger() == EMPTY_PORTFOLIO
    {
      market, keys := map[], [];
      positions, delta, gamma, vega, options := map[], 0.0, 0.0, 0.0, 0;
    }

    /** ack_register_method over msg['case_meta']['securities'], in message order. */
    method Register(secs: seq<SecInfo>, iv: IvSolver) returns (out: Outcome)
      requires Valid()
      modifies this
      ensures Valid()
      ensures Ledger() == old(Ledger())
      ensures (market, keys, out) == RegisterAll(old(market), old(keys), secs, iv)
    {
      var i := 0;
      while i < |secs|
        invariant 0 <= i <= |secs|
        invariant Valid() && Ledger() == old(Ledger())
        invariant RegisterAll(old(market), old(keys), secs, iv) == RegisterAll(market, keys, secs[i..], iv)
      {
        assert secs[i..][1..] == secs[i + 1..];
        var info := secs[i];
        if info.tradeable {
          if info.ticker == [] {
            return Fail(IndexError);
          }
          RegisterOneKeeps(market, keys, info, iv);
          var (r, o) := NewRecord(info, iv);
          if info.ticker !in market {
            keys := keys + [info.ticker];
          }
          market := market[info.ticker := r];
          if o.Fail? {
            return o;
          }
        }
        i := i + 1;
      }
      out := Pass;
    }

    /** market_update_method for one quote, `elapsed` seconds into the case. */
    method MarketUpdate(ticker: string, lastPrice: real, bids: seq<real>, asks: seq<real>, elapsed: real, iv: IvSolver) returns (out: Outcome)
      requires Valid()
      modifies this
      ensures Valid()
      ensures keys == old(keys) && Ledger() == old(Ledger())
      ensures (market, out) == QuoteUpdate(old(market), ticker, lastPrice, bids, asks, ExpTime(elapsed), iv)
    {
      ghost var spec := QuoteUpdate(market, ticker, lastPrice, bids, asks, ExpTime(elapsed), iv);
      QuoteUpdateKeeps(market, keys, ticker, lastPrice, bids, asks, ExpTime(elapsed), iv);
      if ticker !in market {
        return Fail(KeyError);
      }
      var r := market[ticker];
      r := r.(curPrice := lastPrice);
      r := r.(prices := r.prices + [lastPrice]);
      if asks == [] || bids == [] {
        market := market[ticker := r];
        assert (market, Fail(StatisticsError)) == spec;
        return Fail(StatisticsError);
      }
      var q := Quote(Mean(asks), Min(asks), Max(asks), Mean(bids), Min(bids), Max(bids));
      r := r.(quote := Some(q), spreads := r.spreads + [q.mnAsk - q.mnBid]);
      var (r', o) := WithIv(r, ticker, lastPrice, ExpTime(elapsed), iv);
      market := market[ticker := r'];
      out := o;
      assert (market, out) == spec;
    }

    /** trade_method over msg['trades'], in message order. */
    method Trade(trades: seq<TradeRecord>, elapsed: real, iv: IvSolver) returns (out: Outcome)
      requires Valid()
      modifies this
      ensures Valid()
      ensures keys == old(keys) && Ledger() == old(Ledger())
      ensures (market, out) == TradeAll(old(market), trades, ExpTime(elapsed), iv)
    {
      TradeAllKeeps(market, keys, trades, ExpTime(elapsed), iv);
      var i := 0;
      while i < |trades|
        invariant 0 <= i <= |trades|
        invariant keys == old(keys) && Ledger() == old(Ledger())
        invariant TradeAll(old(market), trades, ExpTime(elapsed), iv) == TradeAll(market, trades[i..], ExpTime(elapsed), iv)
      {
        assert trades[i..][1..] == trades[i + 1..];
        var tr := trades[i];
        if tr.ticker !in market {
          return Fail(KeyError);
        }
        var r := market[tr.ticker];
        r := r.(curPrice := tr.price, prices := r.prices + [tr.price]);
        var (r', o) := WithIv(r, tr.ticker, tr.price, ExpTime(elapsed), iv);
        market := market[tr.ticker := r'];
        if o.Fail? {
          return o;
        }
        i := i + 1;
      }
      out := Pass;
    }

    /** make_order: returns the orders it added to the order object. */
    method MakeOrder(side: Side, security: string, quant: int, price: real, elapsed: real, greek: GreekOracle)
      returns (placed: seq<Order>, out: Outcome)
      modifies this
      ensures market == old(market) && keys == old(keys)
      ensures (Ledger(), placed, out) == MakeOrderSpec(old(market), old(Ledger()), side, security, quant, price, ExpTime(elapsed), greek)
    {
      if security !in market {
        return [], Fail(KeyError);
      }
      var g := OrderGreeks(market[security], quant, ExpTime(elapsed), greek);
      if g.Err? {
        return [], Fail(g.error);
      }
      var d, gm, v := g.value.delta, g.value.gamma, g.value.vega;
      if security !in PORTFOLIO_KEYS {
        positions := positions[security := Position(0, None, 0.0, 0.0, 0.0)];
      }
      placed := [OrderFor(side, security, quant, price)];
      if security !in positions {
        return placed, Fail(KeyError);
      }
      var pos := positions[security];
      match side {
        case BuySide =>
          positions := positions[security := Position(pos.quant + quant, Some(price), pos.delta + d, pos.gamma + gm, pos.vega + v)];
          delta, gamma, vega := delta + d, gamma + gm, vega + v;
        case SellSide =>
          positions := positions[security := Position(pos.quant - quant, pos.price, pos.delta - d, pos.gamma - gm, pos.vega - v)];
          delta, gamma, vega := delta - d, gamma - gm, vega - v;
      }
      options := options + quant;
      out := Pass;
    }

    /** One pass of the loop of make_market, for `ticker`, after the orders `before`. */
    method MakeMarketVisit(ticker: string, before: seq<Order>, elapsed: real, greek: GreekOracle, round: real -> real)
      returns (orders: seq<Order>, out: Outcome)
      modifies this
      ensures market == old(market) && keys == old(keys)
      ensures (Book(market, Ledger(), orders), out) == MakeMarketOne(Book(old(market), old(Ledger()), before), ticker, ExpTime(elapsed), greek, round)
    {
      orders := before;
      if ticker !in market {
        return orders, Fail(KeyError);
      }
      match MmDecide(ticker, market[ticker]) {
        case MmSkip =>
          out := Pass;
        case MmFail(e) =>
          out := Fail(e);
        case MmQuote(price1, price2) =>
          var placed;
          placed, out := MakeOrder(BuySide, ticker, CLIP, round(price1 - 0.3), elapsed, greek);
          orders := orders + placed;
          if out.Pass? {
            placed, out := MakeOrder(SellSide, ticker, CLIP, round(price2), elapsed, greek);
            orders := orders + placed;
          }
      }
    }

    /** make_market over MARKET.keys(): returns the orders placed. */
    method MakeMarket(elapsed: real, greek: GreekOracle, round: real -> real) returns (orders: seq<Order>, out: Outcome)
      modifies this
      ensures market == old(market) && keys == old(keys)
      ensures (Book(market, Ledger(), orders), out) == MakeMarketAll(Book(old(market), old(Ledger()), []), old(keys), ExpTime(elapsed), greek, round)
    {
      orders := [];
      var i := 0;
      while i < |keys|
        invariant 0 <= i <= |keys|
        invariant market == old(market) && keys == old(keys)
        invariant MakeMarketAll(Book(old(market), old(Ledger()), []), keys, ExpTime(elapsed), greek, round)
               == MakeMarketAll(Book(market, Ledger(), orders), keys[i..], ExpTime(elapsed), greek, round)
      {
        assert keys[i..][1..] == keys[i + 1..];
        orders, out := MakeMarketVisit(keys[i], orders, elapsed, greek, round);
        if out.Fail? {
          return;
        }
        i := i + 1;
      }
      out := Pass;
    }

    /** One pass of the loop of bb_strategy, for `ticker`, after the orders `before`. */
    method BbVisit(ticker: string, before: seq<Order>, elapsed: real, stdOf: seq<real> -> real, greek: GreekOracle, round: real -> real)
      returns (orders: seq<Order>, out: Outcome)
      requires Valid()
      modifies this
      ensures Valid()
      ensures keys == old(keys)
      ensures (Book(market, Ledger(), orders), out) == BbOne(Book(old(market), old(Ledger()), before), ticker, ExpTime(elapsed), stdOf, greek, round)
    {
      orders := before;
      if ticker !in market {
        return orders, Fail(KeyError);
      }
      var r := market[ticker];
      if |r.prices| <= WINDOW {
        return orders, Pass;
      }
      var bands := BollingerBands(r.prices, stdOf, BB_K);
      r := r.(bands := Some(bands));
      assert Consistent(r);
      market := market[ticker := r];
      match BbDecide(ticker, r, bands, round) {
        case BbSkip =>
          out := Pass;
        case BbFail(e) =>
          out := Fail(e);
        case BbPlace(side, price) =>
          var placed;
          placed, out := MakeOrder(side, ticker, CLIP, price, elapsed, greek);
          orders := orders + placed;
      }
    }

    /** bb_strategy over MARKET.keys(): stores the bands and returns the orders placed. */
    method BbStrategy(elapsed: real, stdOf: seq<real> -> real, greek: GreekOracle, round: real -> real) returns (orders: seq<Order>, out: Outcome)
      requires Valid()
      modifies this
      ensures Valid()
      ensures keys == old(keys)
      ensures (Book(market, Ledger(), orders), out) == BbAll(Book(old(market), old(Ledger()), []), old(keys), ExpTime(elapsed), stdOf, greek, round)
    {
      orders := [];
      var i := 0;
      while i < |keys|
        invariant 0 <= i <= |keys|
        invariant keys == old(keys)
        invariant Valid()
        invariant BbAll(Book(old(market), old(Ledger()), []), keys, ExpTime(elapsed), stdOf, greek, round)
               == BbAll(Book(market, Ledger(), orders), keys[i..], ExpTime(elapsed), stdOf, greek, round)
      {
        assert keys[i..][1..] == keys[i + 1..];
        orders, out := BbVisit(keys[i], orders, elapsed, stdOf, greek, round);
        if out.Fail? {
          return;
        }
        i := i + 1;
      }
      out := Pass;
    }

    /** trader_update_method: bb_strategy only (the call of make_market is commented out). */
    method TraderUpdate(elapsed: real, stdOf: seq<real> -> real, greek: GreekOracle, round: real -> real) returns (orders: seq<Order>, out: Outcome)
      requires Valid()
      modifies this
      ensures Valid()
      ensures keys == old(keys)
      ensures (Book(market, Ledger(), orders), out) == BbAll(Book(old(market), old(Ledger()), []), old(keys), ExpTime(elapsed), stdOf, greek, round)
    {
      orders, out := BbStrategy(elapsed, stdOf, greek, round);
    }
  }
}
