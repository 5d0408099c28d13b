/** The two trading rules of shen_wang_options.py, make_market and bb_strategy, as functions of the
    market store and the portfolio: which orders they place, what they write back to MARKET and
    PORTFOLIO, and where they raise. */
module SwSignals {
  import opened Common
  import opened Ticker
  import opened Rolling
  import opened SwMarket
  import opened SwLedger

  /** What one callback works on: MARKET, PORTFOLIO and the orders it has added to its order object. */
  datatype Book = Book(market: map<string, Security>, portfolio: Portfolio, orders: seq<Order>)

  /** The clip size of every order the two rules place. */
  const CLIP: int := 10

  /** Bollinger multiplier of bb_strategy. */
  const BB_K: real := 2.0

  /** make_order on a Book. */
  function PlaceOrder(b: Book, side: Side, security: string, quant: int, price: real, t: real, greek: GreekOracle): (Book, Outcome)
  {
    var (p, placed, out) := MakeOrderSpec(b.market, b.portfolio, side, security, quant, price, t, greek);
    (b.(portfolio := p, orders := b.orders + placed), out)
  }

  /** Every order is a buy or a sell of one clip of an option that is in `tickers`. */
  predicate ClipsOf(orders: seq<Order>, tickers: seq<string>)
  {
    forall i :: 0 <= i < |orders| ==>
      !orders[i].Cancel? && orders[i].quantity == CLIP && orders[i].ticker != UNDERLYING && orders[i].ticker in tickers
  }

  // ---------------------------------------------------------------- market making

  datatype MmDecision = MmSkip | MmQuote(bid: real, ask: real) | MmFail(error: Error)

  /** The test and the two prices of make_market for one security: the last spread must exceed 2.5
      times the mean spread (an empty spread list raises IndexError at spreads[-1]); the bid price is
      the mean of the mean and the lowest bid, the ask price the mean of the highest and the mean
      ask; the market is made only when the bid price exceeds the intrinsic value. */
  function MmDecide(ticker: string, r: Security): MmDecision
  {
    if ticker == UNDERLYING then MmSkip
    else if r.spreads == [] then MmFail(IndexError)
    else if !(Last(r.spreads) > Mean(r.spreads) * 2.5) then MmSkip
    else if r.quote.None? then MmFail(KeyError)
    else
      var q := r.quote.value;
      var price1 := Mean([q.mnBid, q.minBid]);
      var price2 := Mean([q.maxAsk, q.mnAsk]);
      if r.intrinsic.None? then MmFail(KeyError)
      else if price1 > r.intrinsic.value as real then MmQuote(price1, price2)
      else MmSkip
  }

  /** A quote is made only for an option whose last spread is wide and whose bid price is above its
      intrinsic value; its bid is no higher than the mean bid and its ask no lower than the mean ask,
      so it is at least as wide as the last spread, and it stays inside the book's extremes. */
  lemma MmQuoteBounds(ticker: string, r: Security)
    requires Consistent(r)
    requires MmDecide(ticker, r).MmQuote?
    ensures var d := MmDecide(ticker, r);
      && ticker != UNDERLYING
      && r.spreads != [] && Last(r.spreads) > Mean(r.spreads) * 2.5
      && r.quote.Some? && r.intrinsic.Some? && d.bid > r.intrinsic.value as real
      && r.quote.value.minBid <= d.bid <= r.quote.value.mnBid
      && r.quote.value.mnAsk <= d.ask <= r.quote.value.maxAsk
      && d.ask - d.bid >= Last(r.spreads)
  {
    var q := r.quote.value;
    MeanOfTwo(q.mnBid, q.minBid);
    MeanOfTwo(q.maxAsk, q.mnAsk);
  }

  /** The first non-negative spread of a security never triggers market making: it equals the mean. */
  lemma FirstSpreadNeverTriggers(ticker: string, r: Security)
    requires |r.spreads| == 1 && r.spreads[0] >= 0.0
    ensures !MmDecide(ticker, r).MmQuote?
  {
    assert r.spreads[..0] == [];
    assert Sum(r.spreads) == r.spreads[0];
  }

  /** The loop body of make_market: a buy of one clip 0.3 below the bid price and a sell of one clip
      at the ask price, both rounded to cents; an exception of the buy stops before the sell. */
  function MakeMarketOne(b: Book, ticker: string, t: real, greek: GreekOracle, round: real -> real): (Book, Outcome)
  {
    if ticker !in b.market then (b, Fail(KeyError))
    else
      match MmDecide(ticker, b.market[ticker])
      case MmSkip => (b, Pass)
      case MmFail(e) => (b, Fail(e))
      case MmQuote(price1, price2) =>
        var (b1, out1) := PlaceOrder(b, BuySide, ticker, CLIP, round(price1 - 0.3), t, greek);
        if out1.Fail? then (b1, out1)
        else PlaceOrder(b1, SellSide, ticker, CLIP, round(price2), t, greek)
  }

  /** The orders one make_market visit places, in both directions: exactly the buy of one clip at
      the bid price less 0.3 followed by the sell of one clip at the ask price, both rounded, when
      it raised nothing and the rule fired; nothing when the rule did not fire; and when the visit
      raised, at most that buy. */
  lemma MakeMarketOnePlaces(b: Book, ticker: string, t: real, greek: GreekOracle, round: real -> real)
    ensures var (b', out) := MakeMarketOne(b, ticker, t, greek, round);
      && (ticker !in b.market ==> b' == b && out == Fail(KeyError))
      && (ticker in b.market && MmDecide(ticker, b.market[ticker]).MmSkip? ==> b' == b && out == Pass)
      && (ticker in b.market && MmDecide(ticker, b.market[ticker]).MmQuote? && out == Pass ==>
            var d := MmDecide(ticker, b.market[ticker]);
            b'.orders == b.orders + [Buy(ticker, CLIP, round(d.bid - 0.3)), Sell(ticker, CLIP, round(d.ask))])
      && (out.Fail? ==>
            b'.orders == b.orders
            || (ticker in b.market && MmDecide(ticker, b.market[ticker]).MmQuote?
                && b'.orders == b.orders + [Buy(ticker, CLIP, round(MmDecide(ticker, b.market[ticker]).bid - 0.3))]))
  {
    if ticker in b.market && MmDecide(ticker, b.market[ticker]).MmQuote? {
      var d := MmDecide(ticker, b.market[ticker]);
      var buy := round(d.bid - 0.3);
      MakeOrderPlacesOne(b.market, b.portfolio, BuySide, ticker, CLIP, buy, t, greek);
      var (b1, out1) := PlaceOrder(b, BuySide, ticker, CLIP, buy, t, greek);
      if out1.Pass? {
        MakeOrderPlacesOne(b1.market, b1.portfolio, SellSide, ticker, CLIP, round(d.ask), t, greek);
        var placed := MakeOrderSpec(b1.market, b1.portfolio, SellSide, ticker, CLIP, round(d.ask), t, greek).1;
        assert placed == [] || |placed| == 1;
      }
    }
  }

  /** make_market: the securities in MARKET's key order, stopping at the first exception. */
  function MakeMarketAll(b: Book, keys: seq<string>, t: real, greek: GreekOracle, round: real -> real): (Book, Outcome)
    decreases |keys|
  {
    if keys == [] then (b, Pass)
    else
      var (b1, out) := MakeMarketOne(b, keys[0], t, greek, round);
      if out.Fail? then (b1, out) else MakeMarketAll(b1, keys[1..], t, greek, round)
  }

  /** Orders that come in pairs: a buy directly followed by the sell of the same security. */
  predicate Paired(orders: seq<Order>)
    decreases |orders|
  {
    orders == [] || (|orders| >= 2 && orders[0].Buy? && orders[1].Sell? && orders[1].ticker == orders[0].ticker && Paired(orders[2..]))
  }

  lemma {:induction false} PairedAppend(x: seq<Order>, y: seq<Order>)
    requires Paired(x) && Paired(y)
    ensures Paired(x + y)
    decreases |x|
  {
    if x != [] {
      assert |x| >= 2 && x[0].Buy? && x[1].Sell? && x[1].ticker == x[0].ticker && Paired(x[2..]);
      assert (x + y)[0] == x[0] && (x + y)[1] == x[1];
      assert (x + y)[2..] == x[2..] + y;
      PairedAppend(x[2..], y);
      assert Paired((x + y)[2..]);
    } else {
      assert x + y == y;
    }
  }

  lemma ClipsAppend(x: seq<Order>, y: seq<Order>, tickers: seq<string>)
    requires ClipsOf(x, tickers) && ClipsOf(y, tickers)
    ensures ClipsOf(x + y, tickers)
  {
    forall i | 0 <= i < |x + y|
      ensures !(x + y)[i].Cancel? && (x + y)[i].quantity == CLIP && (x + y)[i].ticker != UNDERLYING && (x + y)[i].ticker in tickers
    {
      if i >= |x| {
        assert (x + y)[i] == y[i - |x|];
      }
    }
  }

  /** make_market leaves MARKET alone, only appends orders, and every order it places is one clip
      of an option it visited; when it raised nothing the orders come in buy/sell pairs, a buy
      directly followed by the sell of the same option. */
  lemma {:induction false} MakeMarketOrders(b: Book, keys: seq<string>, t: real, greek: GreekOracle, round: real -> real)
    ensures var (b', out) := MakeMarketAll(b, keys, t, greek, round);
      && b'.market == b.market
      && |b.orders| <= |b'.orders| && b'.orders[..|b.orders|] == b.orders
      && ClipsOf(b'.orders[|b.orders|..], keys)
      && (out == Pass ==> Paired(b'.orders[|b.orders|..]))
    decreases |keys|
  {
    if keys != [] {
      var (b1, out1) := MakeMarketOne(b, keys[0], t, greek, round);
      var placed := b1.orders[|b.orders|..];
      assert b1.market == b.market && |b.orders| <= |b1.orders| && b1.orders[..|b.orders|] == b.orders;
      assert ClipsOf(placed, keys);
      if out1.Pass? {
        assert Paired(placed) by {
          if placed != [] {
            assert placed[2..] == [];
          }
        }
        MakeMarketOrders(b1, keys[1..], t, greek, round);
        var (b2, out2) := MakeMarketAll(b1, keys[1..], t, greek, round);
        var later := b2.orders[|b1.orders|..];
        assert b2.orders[|b.orders|..] == placed + later;
        ClipsAppend(placed, later, keys);
        if out2.Pass? {
          PairedAppend(placed, later);
        }
      }
    }
  }

  // ---------------------------------------------------------------- Bollinger bands

  /** The buy rule of bb_strategy: implied volatility well below its mean, and the price crossing
      below the lower band (below it now, and above 95 % of it one step earlier). */
  predicate BuyRule(curIv: real, meanIv: real, prices: seq<real>, bands: Bands)
    requires |prices| >= 2 && |bands.lower| == |prices|
  {
    var n := |prices|;
    curIv < 0.8 * meanIv && prices[n - 1] < bands.lower[n - 1] && prices[n - 2] > bands.lower[n - 2] * 0.95
  }

  /** The sell rule, its mirror: implied volatility well above its mean, and the price crossing
      above the upper band. */
  predicate SellRule(curIv: real, meanIv: real, prices: seq<real>, bands: Bands)
    requires |prices| >= 2 && |bands.upper| == |prices|
  {
    var n := |prices|;
    curIv > 1.2 * meanIv && prices[n - 1] > bands.upper[n - 1] && prices[n - 2] < bands.upper[n - 2] * 1.05
  }

  /** With a non-negative mean IV the two rules cannot both hold. */
  lemma RulesExclusive(curIv: real, meanIv: real, prices: seq<real>, bands: Bands)
    requires |prices| >= 2 && |bands.lower| == |bands.upper| == |prices|
    requires meanIv >= 0.0
    ensures !(BuyRule(curIv, meanIv, prices, bands) && SellRule(curIv, meanIv, prices, bands))
  {
  }

  /** The time-value offset of the limit price: a tenth of the time value, but at least 0.5. */
  function LimitOffset(timeValue: real): (o: real)
    ensures o >= 0.5 && o >= 0.1 * timeValue
    ensures o == 0.5 || o == 0.1 * timeValue
  {
    if 0.1 * timeValue > 0.5 then 0.1 * timeValue else 0.5
  }

  datatype BbDecision = BbSkip | BbPlace(side: Side, price: real) | BbFail(error: Error)

  /** The decision of bb_strategy for one security with more than WINDOW prices, once its bands are
      computed: cur_iv and ivs are looked up (KeyError), mean(ivs) raises on an empty list, the buy
      rule is tested before the sell rule, and an order is placed only when the price exceeds the
      intrinsic value, at the price moved by the offset away from the market. */
  function BbDecide(ticker: string, r: Security, bands: Bands, round: real -> real): BbDecision
    requires |r.prices| > WINDOW && |bands.lower| == |bands.upper| == |r.prices|
  {
    if ticker == UNDERLYING then BbSkip
    else if r.curIv.None? || r.ivs.None? then BbFail(KeyError)
    else if r.ivs.value == [] then BbFail(StatisticsError)
    else
      var meanIv := Mean(r.ivs.value);
      var side := if BuyRule(r.curIv.value, meanIv, r.prices, bands) then Some(BuySide)
                  else if SellRule(r.curIv.value, meanIv, r.prices, bands) then Some(SellSide)
                  else None;
      if side.None? then BbSkip
      else if r.intrinsic.None? then BbFail(KeyError)
      else
        var timeValue := r.curPrice - r.intrinsic.value as real;
        if timeValue <= 0.0 then BbSkip
        else if side.value == BuySide then BbPlace(BuySide, round(r.curPrice - LimitOffset(timeValue)))
        else BbPlace(SellSide, round(r.curPrice + LimitOffset(timeValue)))
  }

  /** An order is placed exactly when the security is an option whose IV history is present and
      non-empty, one of the two rules holds, and the price is above the intrinsic value: a buy when
      the buy rule holds, else a sell, at the current price moved by LimitOffset of the time value
      (at least 0.5) down for a buy and up for a sell, then rounded. */
  lemma BbDecideOrders(ticker: string, r: Security, bands: Bands, round: real -> real)
    requires |r.prices| > WINDOW && |bands.lower| == |bands.upper| == |r.prices|
    ensures var d := BbDecide(ticker, r, bands, round);
      d.BbPlace? <==>
        && ticker != UNDERLYING && r.curIv.Some? && r.ivs.Some? && r.ivs.value != [] && r.intrinsic.Some?
        && (BuyRule(r.curIv.value, Mean(r.ivs.value), r.prices, bands) || SellRule(r.curIv.value, Mean(r.ivs.value), r.prices, bands))
        && r.curPrice > r.intrinsic.value as real
    ensures var d := BbDecide(ticker, r, bands, round);
      d.BbPlace? ==>
        var timeValue := r.curPrice - r.intrinsic.value as real;
        && (d.side == BuySide <==> BuyRule(r.curIv.value, Mean(r.ivs.value), r.prices, bands))
        && (d.side == BuySide ==> d.price == round(r.curPrice - LimitOffset(timeValue)))
        && (d.side == SellSide ==> d.price == round(r.curPrice + LimitOffset(timeValue)))
  {
  }

  /** The loop body of bb_strategy: with more than WINDOW prices the four band series are stored in
      the record (TMXFUT included), then the decision is taken and the order placed. */
  function BbOne(b: Book, ticker: string, t: real, stdOf: seq<real> -> real, greek: GreekOracle, round: real -> real): (Book, Outcome)
  {
    if ticker !in b.market then (b, Fail(KeyError))
    else
      var r := b.market[ticker];
      if |r.prices| <= WINDOW then (b, Pass)
      else
        var bands := BollingerBands(r.prices, stdOf, BB_K);
        var r' := r.(bands := Some(bands));
        var b1 := b.(market := b.market[ticker := r']);
        match BbDecide(ticker, r', bands, round)
        case BbSkip => (b1, Pass)
        case BbFail(e) => (b1, Fail(e))
        case BbPlace(side, price) => PlaceOrder(b1, side, ticker, CLIP, price, t, greek)
  }

  /** bb_strategy: the securities in MARKET's key order, stopping at the first exception. */
  function BbAll(b: Book, keys: seq<string>, t: real, stdOf: seq<real> -> real, greek: GreekOracle, round: real -> real): (Book, Outcome)
    decreases |keys|
  {
    if keys == [] then (b, Pass)
    else
      var (b1, out) := BbOne(b, keys[0], t, stdOf, greek, round);
      if out.Fail? then (b1, out) else BbAll(b1, keys[1..], t, stdOf, greek, round)
  }

  /** Two records that differ at most in their bands. */
  predicate SameButBands(r: Security, s: Security)
  {
    r.(bands := None) == s.(bands := None)
  }

  /** What bb_strategy may do to MARKET when it visits `keys`: no key added or removed, no record
      changed except visited ones, and those only in their bands, which become the Bollinger bands
      of the record's own prices, and only where there are more than WINDOW of them. */
  ghost predicate BandsOnly(m: map<string, Security>, m': map<string, Security>, keys: seq<string>, stdOf: seq<real> -> real)
  {
    && m'.Keys == m.Keys
    && (forall s :: s in m ==> SameButBands(m'[s], m[s]))
    && (forall s :: s in m && s !in keys ==> m'[s] == m[s])
    && (forall s :: s in m && m'[s].bands != m[s].bands ==>
          |m[s].prices| > WINDOW && m'[s].bands == Some(BollingerBands(m[s].prices, stdOf, BB_K)))
  }

  /** The orders o' extend o by clips of options in `keys`. */
  predicate AppendsClips(o: seq<Order>, o': seq<Order>, keys: seq<string>)
  {
    |o| <= |o'| && o'[..|o|] == o && ClipsOf(o'[|o|..], keys)
  }

  lemma BbOneEffects(b: Book, ticker: string, t: real, stdOf: seq<real> -> real, greek: GreekOracle, round: real -> real)
    ensures var (b', out) := BbOne(b, ticker, t, stdOf, greek, round);
      BandsOnly(b.market, b'.market, [ticker], stdOf) && AppendsClips(b.orders, b'.orders, [ticker])
  {
  }

  lemma BandsOnlyChain(m: map<string, Security>, m1: map<string, Security>, m2: map<string, Security>, k: string, keys: seq<string>, stdOf: seq<real> -> real)
    requires BandsOnly(m, m1, [k], stdOf) && BandsOnly(m1, m2, keys, stdOf)
    ensures BandsOnly(m, m2, [k] + keys, stdOf)
  {
    forall s | s in m && m2[s].bands != m[s].bands
      ensures |m[s].prices| > WINDOW && m2[s].bands == Some(BollingerBands(m[s].prices, stdOf, BB_K))
    {
      assert m1[s].prices == m[s].prices by {
        assert SameButBands(m1[s], m[s]);
        assert m1[s].(bands := None).prices == m[s].(bands := None).prices;
      }
    }
  }

  lemma AppendsClipsChain(o: seq<Order>, o1: seq<Order>, o2: seq<Order>, k: string, keys: seq<string>)
    requires AppendsClips(o, o1, [k]) && AppendsClips(o1, o2, keys)
    ensures AppendsClips(o, o2, [k] + keys)
  {
    assert o2[|o|..] == o1[|o|..] + o2[|o1|..];
    ClipsWiden(o1[|o|..], [k], [k] + keys);
    ClipsWiden(o2[|o1|..], keys, [k] + keys);
    ClipsAppend(o1[|o|..], o2[|o1|..], [k] + keys);
  }

  lemma ClipsWiden(x: seq<Order>, tickers: seq<string>, more: seq<string>)
    requires ClipsOf(x, tickers) && forall k :: k in tickers ==> k in more
    ensures ClipsOf(x, more)
  {
  }

  /** bb_strategy changes no key of MARKET and no record except the bands of visited ones, which it
      sets to the Bollinger bands of the record's own prices wherever there are more than WINDOW of
      them; it only appends orders, each one clip of an option it visited. */
  lemma {:induction false} BbAllEffects(b: Book, keys: seq<string>, t: real, stdOf: seq<real> -> real, greek: GreekOracle, round: real -> real)
    ensures var (b', out) := BbAll(b, keys, t, stdOf, greek, round);
      BandsOnly(b.market, b'.market, keys, stdOf) && AppendsClips(b.orders, b'.orders, keys)
    decreases |keys|
  {
    if keys != [] {
      BbOneEffects(b, keys[0], t, stdOf, greek, round);
      var (b1, out1) := BbOne(b, keys[0], t, stdOf, greek, round);
      if out1.Pass? {
        BbAllEffects(b1, keys[1..], t, stdOf, greek, round);
        var (b2, out2) := BbAll(b1, keys[1..], t, stdOf, greek, round);
        assert [keys[0]] + keys[1..] == keys;
        BandsOnlyChain(b.market, b1.market, b2.market, keys[0], keys[1..], stdOf);
        AppendsClipsChain(b.orders, b1.orders, b2.orders, keys[0], keys[1..]);
      } else {
        ClipsWiden(b1.orders[|b.orders|..], [keys[0]], keys);
      }
    } else {
      assert b.orders[|b.orders|..] == [];
    }
  }

  /** After bb_strategy raised nothing, every visited security with more than WINDOW prices carries
      the bands of its prices. */
  lemma {:induction false} BbAllStoresBands(b: Book, keys: seq<string>, t: real, stdOf: seq<real> -> real, greek: GreekOracle, round: real -> real, s: string)
    requires BbAll(b, keys, t, stdOf, greek, round).1 == Pass
    requires s in keys && s in b.market && |b.market[s].prices| > WINDOW
    ensures s in BbAll(b, keys, t, stdOf, greek, round).0.market
    ensures BbAll(b, keys, t, stdOf, greek, round).0.market[s].bands == Some(BollingerBands(b.market[s].prices, stdOf, BB_K))
    decreases |keys|
  {
    var (b1, out1) := BbOne(b, keys[0], t, stdOf, greek, round);
    BbOneEffects(b, keys[0], t, stdOf, greek, round);
    BbAllEffects(b1, keys[1..], t, stdOf, greek, round);
    var b2 := BbAll(b1, keys[1..], t, stdOf, greek, round).0;
    assert SameButBands(b1.market[s], b.market[s]);
    assert b1.market[s].prices == b.market[s].prices by {
      assert b1.market[s].(bands := None).prices == b.market[s].(bands := None).prices;
    }
    if keys[0] != s {
      BbAllStoresBands(b1, keys[1..], t, stdOf, greek, round, s);
    } else {
      assert b1.market[s].bands == Some(BollingerBands(b.market[s].prices, stdOf, BB_K));
    }
  }
}
