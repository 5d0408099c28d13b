/** options_bot.py: the simpler options bot. Its MARKET records have no spreads, quote summary or
    intrinsic value; its trader update runs a Bollinger-band rule (multiplier 1.25) over the
    securities the exchange reports among the trader's positions, and records a holding in
    PORTFOLIO on the first buy of a ticker only. */
module ObMarket {
  import opened Common
  import opened Ticker
  import opened Rolling
  import SwMarket

  /** 7.5 * 60: the length of the case, in seconds. */
  const CASE_SECONDS: real := 450.0

  /** The time to expiry registration prices the options at. */
  const REGISTRATION_EXPIRY: real := 1.0 / 12.0

  /** Bollinger multiplier of trader_update_method. */
  const BB_K: real := 1.25

  /** The clip size of every order. */
  const CLIP: int := 10

  /** The top-level keys of PORTFOLIO, which `security not in PORTFOLIO` also tests. */
  const PORTFOLIO_KEYS: set<string> := {"positions", "money", "trades", "greeks"}

  /** exp_time() with `elapsed` the seconds since START_TIME: the remaining fraction of the case. */
  function ExpTime(elapsed: real): (t: real)
    ensures elapsed == 0.0 ==> t == 1.0
    ensures elapsed == CASE_SECONDS ==> t == 0.0
    ensures t > 0.0 <==> elapsed < CASE_SECONDS
  {
    (CASE_SECONDS - elapsed) / CASE_SECONDS
  }

  lemma ExpTimeDecreasing(e1: real, e2: real)
    requires e1 < e2
    ensures ExpTime(e1) > ExpTime(e2)
  {
  }

  /** The two bots measure the same remaining time; shen_wang_options.py divides it by 12 more. */
  lemma ExpTimeTwelveFold(elapsed: real)
    ensures ExpTime(elapsed) == 12.0 * SwMarket.ExpTime(elapsed)
  {
  }

  /** MARKET[security]; a key the code has not (yet) written is None. */
  datatype Security = Security(
    kind: char,
    curPrice: real,
    prices: seq<real>,
    strike: Option<int>,
    curIv: Option<real>,
    ivs: Option<seq<real>>,
    bands: Option<Bands>)

  /** PORTFOLIO[security], as the first buy builds it; a Greek is None when computing it raised. */
  datatype Holding = Holding(price: real, quant: int, delta: Option<real>, gamma: Option<real>, vega: Option<real>)

  /** MARKET, PORTFOLIO's holdings, and the orders the current callback has placed. */
  datatype Book = Book(market: map<string, Security>, holdings: map<string, Holding>, orders: seq<Order>)

  /** MARKET and the order of its keys. */
  ghost predicate KeysMatch(m: map<string, Security>, keys: seq<string>)
  {
    && (forall t :: t in m <==> t in keys)
    && (forall i, j :: 0 <= i < j < |keys| ==> keys[i] != keys[j])
  }

  // ---------------------------------------------------------------- registration

  /** The record ack_register_method builds for a tradeable security with a non-empty ticker, and
      whether building it raised: the base keys; for an option the strike (ValueError when the middle
      of the ticker is no integer) and the implied volatility at the starting price and one month to
      expiry, outside any try. */
  function NewRecord(info: SecInfo, iv: IvSolver): (res: (Security, Outcome))
    requires info.ticker != []
    ensures res.0.kind == Kind(info.ticker).value && res.0.curPrice == info.startingPrice
    ensures res.0.prices == [] && res.0.bands.None?
  {
    var kind := Kind(info.ticker).value;
    var base := Security(kind, info.startingPrice, [], None, None, None, None);
    if info.ticker == UNDERLYING then (base, Pass)
    else
      match Strike(info.ticker)
      case None => (base, Fail(ValueError))
      case Some(strike) =>
        var priced := base.(strike := Some(strike));
        match iv(info.startingPrice, strike, REGISTRATION_EXPIRY, kind)
        case None => (priced, Fail(PricingError))
        case Some(vol) => (priced.(curIv := Some(vol), ivs := Some([])), Pass)
  }

  /** The loop body of ack_register_method for one security. */
  function RegisterOne(m: map<string, Security>, keys: seq<string>, info: SecInfo, iv: IvSolver)
    : (map<string, Security>, seq<string>, Outcome)
  {
    if !info.tradeable then (m, keys, Pass)
    else if info.ticker == [] then (m, keys, Fail(IndexError))
    else
      var (r, out) := NewRecord(info, iv);
      (m[info.ticker := r], if info.ticker in m then keys else keys + [info.ticker], out)
  }

  /** ack_register_method: the securities in message order, stopping at the first exception. */
  function RegisterAll(m: map<string, Security>, keys: seq<string>, secs: seq<SecInfo>, iv: IvSolver)
    : (map<string, Security>, seq<string>, Outcome)
    decreases |secs|
  {
    if secs == [] then (m, keys, Pass)
    else
      var (m1, keys1, out) := RegisterOne(m, keys, secs[0], iv);
      if out.Fail? then (m1, keys1, out) else RegisterAll(m1, keys1, secs[1..], iv)
  }

  /** The record a completed registration leaves for a tradeable security. */
  predicate FreshlyRegistered(r: Security, info: SecInfo)
  {
    && info.ticker != []
    && r.kind == Kind(info.ticker).value
    && r.curPrice == info.startingPrice
    && r.prices == [] && r.bands.None?
    && (info.ticker == UNDERLYING ==> r.strike.None? && r.curIv.None? && r.ivs.None?)
    && (info.ticker != UNDERLYING ==> r.strike == Strike(info.ticker) && r.strike.Some? && r.curIv.Some? && r.ivs == Some([]))
  }

  lemma RegisterOneKeeps(m: map<string, Security>, keys: seq<string>, info: SecInfo, iv: IvSolver)
    requires KeysMatch(m, keys)
    ensures var (m', keys', out) := RegisterOne(m, keys, info, iv);
      && KeysMatch(m', keys')
      && (forall t :: t in m && t != info.ticker ==> t in m' && m'[t] == m[t])
      && m'.Keys <= m.Keys + {info.ticker} && m.Keys <= m'.Keys
      && (info.tradeable && info.ticker != [] ==> info.ticker in m' && m'[info.ticker] == NewRecord(info, iv).0)
  {
    if info.tradeable && info.ticker != [] && info.ticker !in m {
      assert info.ticker !in keys;
    }
  }

  /** After a registration that raised nothing, every tradeable security of the message has a fresh
      record: kind and strike parsed from the ticker, empty price and IV histories, and for TMXFUT no
      strike or IV. */
  lemma {:induction false} RegisterAllRecords(m: map<string, Security>, keys: seq<string>, secs: seq<SecInfo>, iv: IvSolver, k: nat)
    requires KeysMatch(m, keys)
    requires forall i, j :: 0 <= i < j < |secs| ==> secs[i].ticker != secs[j].ticker
    requires k < |secs| && secs[k].tradeable
    requires RegisterAll(m, keys, secs, iv).2 == Pass
    ensures KeysMatch(RegisterAll(m, keys, secs, iv).0, RegisterAll(m, keys, secs, iv).1)
    ensures secs[k].ticker in RegisterAll(m, keys, secs, iv).0
    ensures FreshlyRegistered(RegisterAll(m, keys, secs, iv).0[secs[k].ticker], secs[k])
    decreases |secs|
  {
    RegisterOneKeeps(m, keys, secs[0], iv);
    var (m1, keys1, out) := RegisterOne(m, keys, secs[0], iv);
    if k == 0 {
      RegisterAllUntouched(m1, keys1, secs[1..], iv, secs[0].ticker);
    } else {
      RegisterAllRecords(m1, keys1, secs[1..], iv, k - 1);
    }
  }

  /** Registration keeps the map and its key order matched, and leaves a ticker absent from the
      message as it was. */
  lemma {:induction false} RegisterAllUntouched(m: map<string, Security>, keys: seq<string>, secs: seq<SecInfo>, iv: IvSolver, t: string)
    requires KeysMatch(m, keys)
    requires forall i :: 0 <= i < |secs| ==> secs[i].ticker != t
    ensures KeysMatch(RegisterAll(m, keys, secs, iv).0, RegisterAll(m, keys, secs, iv).1)
    ensures t in RegisterAll(m, keys, secs, iv).0 <==> t in m
    ensures t in m ==> RegisterAll(m, keys, secs, iv).0[t] == m[t]
    decreases |secs|
  {
    if secs != [] {
      RegisterOneKeeps(m, keys, secs[0], iv);
      var (m1, keys1, out) := RegisterOne(m, keys, secs[0], iv);
      if out.Pass? {
        RegisterAllUntouched(m1, keys1, secs[1..], iv, t);
      }
    }
  }

  // ---------------------------------------------------------------- quotes and trades

  /** The IV bookkeeping after a new price, as in shen_wang_options.py: skipped for TMXFUT; the
      sentinel 0 when the solve raises (a missing strike raises too). */
  function WithIv(r: Security, ticker: string, price: real, t: real, iv: IvSolver): (Security, Outcome)
  {
    if ticker == UNDERLYING then (r, Pass)
    else
      var solved := if r.strike.Some? then iv(price, r.strike.value, t, r.kind) else None;
      var (curIv, ivs, out) := RecordIv(r.ivs, solved);
      (r.(curIv := Some(curIv), ivs := ivs), out)
  }

  /** market_update_method: a new last price for `ticker`, at time to expiry t. */
  function QuoteUpdate(m: map<string, Security>, ticker: string, lastPrice: real, t: real, iv: IvSolver): (map<string, Security>, Outcome)
  {
    if ticker !in m then (m, Fail(KeyError))
    else
      var r := m[ticker].(curPrice := lastPrice, prices := m[ticker].prices + [lastPrice]);
      var (r', out) := WithIv(r, ticker, lastPrice, t, iv);
      (m[ticker := r'], out)
  }

  /** For an option, the IV history is as long as the price history. */
  predicate IvAligned(r: Security)
  {
    r.ivs.Some? ==> |r.ivs.value| == |r.prices|
  }

  /** A quote appends exactly one price and, for an option whose IV history exists, exactly one IV,
      the one solved at the new price (0 when the solve raised), which is also the new cur_iv, so the two histories stay aligned; an unknown ticker raises
      KeyError with nothing changed; no other record changes. */
  lemma QuoteUpdateAppendsOne(m: map<string, Security>, ticker: string, lastPrice: real, t: real, iv: IvSolver)
    ensures var (m', out) := QuoteUpdate(m, ticker, lastPrice, t, iv);
      && (ticker !in m <==> out == Fail(KeyError) && m' == m)
      && (ticker in m ==>
            && m'.Keys == m.Keys
            && (forall other :: other in m && other != ticker ==> m'[other] == m[other])
            && m'[ticker].curPrice == lastPrice
            && m'[ticker].prices == m[ticker].prices + [lastPrice]
            && (ticker != UNDERLYING && m[ticker].ivs.Some? ==>
                  out == Pass && m'[ticker].ivs == Some(m[ticker].ivs.value + [m'[ticker].curIv.value]))
            && (ticker != UNDERLYING && m[ticker].ivs.Some? ==>
                  m'[ticker].curIv == Some(SwMarket.SolvedIv(m[ticker].strike, m[ticker].kind, lastPrice, t, iv)))
            && m'[ticker].strike == m[ticker].strike && m'[ticker].kind == m[ticker].kind
            && m'[ticker].bands == m[ticker].bands
            && (ticker != UNDERLYING && IvAligned(m[ticker]) && out == Pass ==> IvAligned(m'[ticker])))
  {
  }

  /** The loop body of trade_method for one trade. */
  function TradeOne(m: map<string, Security>, tr: TradeRecord, t: real, iv: IvSolver): (map<string, Security>, Outcome)
  {
    QuoteUpdate(m, tr.ticker, tr.price, t, iv)
  }

  /** trade_method: the trades in message order, stopping at the first exception. */
  function TradeAll(m: map<string, Security>, trades: seq<TradeRecord>, t: real, iv: IvSolver): (map<string, Security>, Outcome)
    decreases |trades|
  {
    if trades == [] then (m, Pass)
    else
      var (m1, out) := TradeOne(m, trades[0], t, iv);
      if out.Fail? then (m1, out) else TradeAll(m1, trades[1..], t, iv)
  }

  /** After trades that raised nothing, each ticker's price history has grown by exactly the prices
      of its trades, in order, cur_price is its last trade's price, and an option's IV history has
      grown by the IV solved at each of those prices (0 where the solve raised), the last of them
      being cur_iv; strike, kind and bands stay. */
  lemma TradeAllPrices(m: map<string, Security>, trades: seq<TradeRecord>, t: real, iv: IvSolver, ticker: string)
    requires TradeAll(m, trades, t, iv).1 == Pass
    ensures var m' := TradeAll(m, trades, t, iv).0;
      && m'.Keys == m.Keys
      && (ticker !in m ==> PricesFor(trades, ticker) == [])
      && (ticker in m ==>
            && m'[ticker].prices == m[ticker].prices + PricesFor(trades, ticker)
            && (PricesFor(trades, ticker) == [] ==> m'[ticker] == m[ticker])
            && (PricesFor(trades, ticker) != [] ==> m'[ticker].curPrice == Last(PricesFor(trades, ticker)))
            && (ticker != UNDERLYING && IvAligned(m[ticker]) ==> IvAligned(m'[ticker]))
            && (ticker != UNDERLYING && m[ticker].ivs.Some? ==>
                  && m'[ticker].ivs.Some?
                  && m'[ticker].ivs.value == m[ticker].ivs.value + SwMarket.SolvedIvs(m[ticker].strike, m[ticker].kind, PricesFor(trades, ticker), t, iv))
            && (ticker != UNDERLYING && m[ticker].ivs.Some? && PricesFor(trades, ticker) != [] ==>
                  m'[ticker].curIv == Some(SwMarket.SolvedIv(m[ticker].strike, m[ticker].kind, Last(PricesFor(trades, ticker)), t, iv)))
            && (ticker == UNDERLYING ==> m'[ticker].ivs == m[ticker].ivs)
            && m'[ticker].strike == m[ticker].strike && m'[ticker].kind == m[ticker].kind
            && m'[ticker].bands == m[ticker].bands)
  {
    TradeAllHistory(m, trades, t, iv, ticker);
    TradeAllIvs(m, trades, t, iv, ticker);
  }

  /** The price half of TradeAllPrices. */
  lemma {:induction false} TradeAllHistory(m: map<string, Security>, trades: seq<TradeRecord>, t: real, iv: IvSolver, ticker: string)
    requires TradeAll(m, trades, t, iv).1 == Pass
    ensures var m' := TradeAll(m, trades, t, iv).0;
      && m'.Keys == m.Keys
      && (ticker !in m ==> PricesFor(trades, ticker) == [])
      && (ticker in m ==>
            && m'[ticker].prices == m[ticker].prices + PricesFor(trades, ticker)
            && (PricesFor(trades, ticker) == [] ==> m'[ticker] == m[ticker])
            && (PricesFor(trades, ticker) != [] ==> m'[ticker].curPrice == Last(PricesFor(trades, ticker)))
            && (ticker != UNDERLYING && IvAligned(m[ticker]) ==> IvAligned(m'[ticker])))
    decreases |trades|
  {
    if trades != [] {
      var (m1, out) := TradeOne(m, trades[0], t, iv);
      QuoteUpdateAppendsOne(m, trades[0].ticker, trades[0].price, t, iv);
      TradeAllHistory(m1, trades[1..], t, iv, ticker);
      assert PricesFor(trades, ticker) == (if trades[0].ticker == ticker then [trades[0].price] else []) + PricesFor(trades[1..], ticker);
    }
  }

  /** One trade that raised nothing, seen from `ticker`'s record: strike, kind and bands stay,
      and when it is the traded ticker an option's cur_iv becomes the IV solved at the trade price
      and its IV history grows by it. */
  lemma TradeOneIv(m: map<string, Security>, tr: TradeRecord, t: real, iv: IvSolver, ticker: string)
    requires TradeOne(m, tr, t, iv).1 == Pass && ticker in m
    ensures var m1 := TradeOne(m, tr, t, iv).0;
      && ticker in m1
      && m1[ticker].strike == m[ticker].strike && m1[ticker].kind == m[ticker].kind
      && (tr.ticker != ticker ==> m1[ticker] == m[ticker])
      && (tr.ticker == ticker && ticker != UNDERLYING && m[ticker].ivs.Some? ==>
            && m1[ticker].ivs == Some(m[ticker].ivs.value + [SwMarket.SolvedIv(m[ticker].strike, m[ticker].kind, tr.price, t, iv)])
            && m1[ticker].curIv == Some(SwMarket.SolvedIv(m[ticker].strike, m[ticker].kind, tr.price, t, iv)))
      && m1[ticker].bands == m[ticker].bands
      && (ticker == UNDERLYING ==> m1[ticker].ivs == m[ticker].ivs)
  {
  }

  /** The IV half of TradeAllPrices. */
  lemma {:induction false} TradeAllIvs(m: map<string, Security>, trades: seq<TradeRecord>, t: real, iv: IvSolver, ticker: string)
    requires TradeAll(m, trades, t, iv).1 == Pass
    ensures var m' := TradeAll(m, trades, t, iv).0;
      ticker in m ==>
        && ticker in m'
        && (ticker != UNDERLYING && m[ticker].ivs.Some? ==>
              && m'[ticker].ivs.Some?
              && m'[ticker].ivs.value == m[ticker].ivs.value + SwMarket.SolvedIvs(m[ticker].strike, m[ticker].kind, PricesFor(trades, ticker), t, iv))
        && (ticker != UNDERLYING && m[ticker].ivs.Some? && PricesFor(trades, ticker) != [] ==>
              m'[ticker].curIv == Some(SwMarket.SolvedIv(m[ticker].strike, m[ticker].kind, Last(PricesFor(trades, ticker)), t, iv)))
        && (ticker == UNDERLYING ==> m'[ticker].ivs == m[ticker].ivs)
        && m'[ticker].strike == m[ticker].strike && m'[ticker].kind == m[ticker].kind
        && m'[ticker].bands == m[ticker].bands
        && (PricesFor(trades, ticker) == [] ==> m'[ticker] == m[ticker])
    decreases |trades|
  {
    if trades != [] && ticker in m {
      var (m1, out) := TradeOne(m, trades[0], t, iv);
      TradeOneIv(m, trades[0], t, iv, ticker);
      TradeAllIvs(m1, trades[1..], t, iv, ticker);
      var r := m[ticker];
      var rest := PricesFor(trades[1..], ticker);
      var later := SwMarket.SolvedIvs(r.strike, r.kind, rest, t, iv);
      if trades[0].ticker == ticker {
        assert PricesFor(trades, ticker) == [trades[0].price] + rest;
        assert ([trades[0].price] + rest)[1..] == rest;
        if r.ivs.Some? && ticker != UNDERLYING {
          var v := SwMarket.SolvedIv(r.strike, r.kind, trades[0].price, t, iv);
          assert SwMarket.SolvedIvs(r.strike, r.kind, [trades[0].price] + rest, t, iv) == [v] + later;
          assert r.ivs.value + [v] + later == r.ivs.value + ([v] + later);
          assert rest != [] ==> Last([trades[0].price] + rest) == Last(rest);
        }
      } else {
        assert PricesFor(trades, ticker) == rest;
      }
    }
  }

  // ---------------------------------------------------------------- trader update

  /** The buy rule: the last two prices both below their lower bands (a level test, not a crossing). */
  predicate BothBelow(prices: seq<real>, bands: Bands)
    requires |prices| >= 2 && |bands.lower| == |prices|
  {
    var n := |prices|;
    prices[n - 1] < bands.lower[n - 1] && prices[n - 2] < bands.lower[n - 2]
  }

  /** The sell rule: the price crossing the upper band, above it now and below it one step earlier. */
  predicate CrossUp(prices: seq<real>, bands: Bands)
    requires |prices| >= 2 && |bands.upper| == |prices|
  {
    var n := |prices|;
    prices[n - 1] > bands.upper[n - 1] && prices[n - 2] < bands.upper[n - 2]
  }

  /** With ordered bands at the last price, the two rules exclude each other, so the `elif` never
      hides a sell behind a buy. */
  lemma RulesExclusive(prices: seq<real>, bands: Bands)
    requires |prices| >= 2 && |bands.lower| == |bands.upper| == |prices|
    requires bands.lower[|prices| - 1] <= bands.upper[|prices| - 1]
    ensures !(BothBelow(prices, bands) && CrossUp(prices, bands))
  {
  }

  /** 10 * delta(...), 10 * gamma(...) or 10 * vega(...) for the record: the arguments
      MARKET[security]['strike'] and ['cur_iv'] raise KeyError when absent (TMXFUT has neither), and
      the py_vollib call may raise. */
  function HoldingGreek(r: Security, which: Greek, t: real, greek: GreekOracle): (g: Result<real>)
    ensures g == Err(KeyError) <==> r.strike.None? || r.curIv.None?
    ensures g.Ok? <==> r.strike.Some? && r.curIv.Some? && greek(which, r.kind, r.strike.value, t, r.curIv.value).Some?
    ensures g.Ok? ==> g.value == 10.0 * greek(which, r.kind, r.strike.value, t, r.curIv.value).value
  {
    if r.strike.None? || r.curIv.None? then Err(KeyError)
    else
      match greek(which, r.kind, r.strike.value, t, r.curIv.value)
      case None => Err(PricingError)
      case Some(unit) => Ok(CLIP as real * unit)
  }

  /** The holding the first buy records: price and quantity first, then delta, gamma and vega in
      that order; an exception leaves the holding with the keys written so far. */
  function NewHolding(r: Security, t: real, greek: GreekOracle): (res: (Holding, Outcome))
    ensures res.0.price == r.curPrice && res.0.quant == CLIP
    ensures res.1 == Pass <==> res.0.delta.Some? && res.0.gamma.Some? && res.0.vega.Some?
    ensures res.0.delta.Some? <==> HoldingGreek(r, Delta, t, greek).Ok?
    ensures res.0.delta.Some? ==> res.0.delta.value == HoldingGreek(r, Delta, t, greek).value
    ensures res.0.gamma.Some? <==> res.0.delta.Some? && HoldingGreek(r, Gamma, t, greek).Ok?
    ensures res.0.gamma.Some? ==> res.0.gamma.value == HoldingGreek(r, Gamma, t, greek).value
    ensures res.0.vega.Some? <==> res.0.gamma.Some? && HoldingGreek(r, Vega, t, greek).Ok?
    ensures res.0.vega.Some? ==> res.0.vega.value == HoldingGreek(r, Vega, t, greek).value
    ensures res.0.delta.None? ==> res.1 == Fail(HoldingGreek(r, Delta, t, greek).error)
    ensures res.0.delta.Some? && res.0.gamma.None? ==> res.1 == Fail(HoldingGreek(r, Gamma, t, greek).error)
    ensures res.0.gamma.Some? && res.0.vega.None? ==> res.1 == Fail(HoldingGreek(r, Vega, t, greek).error)
  {
    var h := Holding(r.curPrice, CLIP, None, None, None);
    match HoldingGreek(r, Delta, t, greek)
    case Err(e) => (h, Fail(e))
    case Ok(d) =>
      var h := h.(delta := Some(d));
      match HoldingGreek(r, Gamma, t, greek)
      case Err(e) => (h, Fail(e))
      case Ok(g) =>
        var h := h.(gamma := Some(g));
        match HoldingGreek(r, Vega, t, greek)
        case Err(e) => (h, Fail(e))
        case Ok(v) => (h.(vega := Some(v)), Pass)
  }

  /** The loop body of trader_update_method for one ticker of msg['trader_state']['positions']:
      MARKET[security] raises KeyError for an unregistered ticker; with more than WINDOW prices the
      bands are stored, then a buy of one clip at the current price when both prices are below the
      lower band (and the holding created if the ticker has none), else a sell of one clip at the
      current price when the price crosses the upper band. */
  function TraderOne(b: Book, ticker: string, t: real, stdOf: seq<real> -> real, greek: GreekOracle): (Book, Outcome)
  {
    if ticker !in b.market then (b, Fail(KeyError))
    else
      var r := b.market[ticker];
      if |r.prices| <= WINDOW then (b, Pass)
      else
        var bands := BollingerBands(r.prices, stdOf, BB_K);
        var b1 := b.(market := b.market[ticker := r.(bands := Some(bands))]);
        if BothBelow(r.prices, bands) then
          var b2 := b1.(orders := b1.orders + [Buy(ticker, CLIP, r.curPrice)]);
          if ticker in b.holdings || ticker in PORTFOLIO_KEYS then (b2, Pass)
          else
            var (h, out) := NewHolding(r, t, greek);
            (b2.(holdings := b2.holdings[ticker := h]), out)
        else if CrossUp(r.prices, bands) then (b1.(orders := b1.orders + [Sell(ticker, CLIP, r.curPrice)]), Pass)
        else (b1, Pass)
  }

  /** trader_update_method: the tickers of the positions message in order, stopping at the first
      exception. */
  function TraderAll(b: Book, tickers: seq<string>, t: real, stdOf: seq<real> -> real, greek: GreekOracle): (Book, Outcome)
    decreases |tickers|
  {
    if tickers == [] then (b, Pass)
    else
      var (b1, out) := TraderOne(b, tickers[0], t, stdOf, greek);
      if out.Fail? then (b1, out) else TraderAll(b1, tickers[1..], t, stdOf, greek)
  }

  /** Every order is one clip of a ticker of `tickers` with more than WINDOW prices, at its current
      price. */
  predicate RuleOrders(orders: seq<Order>, tickers: seq<string>, m: map<string, Security>)
  {
    forall i :: 0 <= i < |orders| ==> RuleOrder(orders[i], tickers, m)
  }

  predicate RuleOrder(o: Order, tickers: seq<string>, m: map<string, Security>)
  {
    && !o.Cancel? && o.quantity == CLIP && o.ticker in tickers && o.ticker in m
    && |m[o.ticker].prices| > WINDOW && o.price == m[o.ticker].curPrice
  }

  /** What a trader update did, when it visited `tickers`: MARKET changed only in the bands of
      visited records; the orders were extended by rule orders; existing holdings are unchanged and a
      new holding, of one clip at the current price, exists only for a visited ticker that was
      bought. */
  ghost predicate TraderEffect(b: Book, b': Book, tickers: seq<string>)
  {
    && b'.market.Keys == b.market.Keys
    && (forall s :: s in b.market ==> b'.market[s].(bands := None) == b.market[s].(bands := None))
    && (forall s :: s in b.market && s !in tickers ==> b'.market[s] == b.market[s])
    && |b.orders| <= |b'.orders| && b'.orders[..|b.orders|] == b.orders
    && RuleOrders(b'.orders[|b.orders|..], tickers, b.market)
    && b.holdings.Keys <= b'.holdings.Keys
    && (forall s :: s in b.holdings ==> b'.holdings[s] == b.holdings[s])
    && (forall s :: s in b'.holdings && s !in b.holdings ==>
          && s in tickers && s in b.market && s !in PORTFOLIO_KEYS
          && b'.holdings[s].quant == CLIP && b'.holdings[s].price == b.market[s].curPrice
          && Buy(s, CLIP, b.market[s].curPrice) in b'.orders[|b.orders|..])
  }

  /** The buy rule of trader_update_method holds for `s` in MARKET `m`: more than WINDOW prices,
      both of the last two below the lower band. */
  predicate Bought(m: map<string, Security>, s: string, stdOf: seq<real> -> real)
  {
    s in m && |m[s].prices| > WINDOW && BothBelow(m[s].prices, BollingerBands(m[s].prices, stdOf, BB_K))
  }

  /** The holding a first buy records is the same for two records that differ only in their bands. */
  lemma NewHoldingIgnoresBands(r: Security, r': Security, t: real, greek: GreekOracle)
    requires r.(bands := None) == r'.(bands := None)
    ensures NewHolding(r, t, greek) == NewHolding(r', t, greek)
  {
    assert r.curPrice == r.(bands := None).curPrice && r.strike == r.(bands := None).strike;
    assert r.curIv == r.(bands := None).curIv && r.kind == r.(bands := None).kind;
  }

  /** One visit: TraderEffect, and a first buy of a ticker with no holding (and no top-level
      PORTFOLIO key for a name) records exactly the holding NewHolding builds. */
  lemma TraderOneEffect(b: Book, ticker: string, t: real, stdOf: seq<real> -> real, greek: GreekOracle)
    ensures TraderEffect(b, TraderOne(b, ticker, t, stdOf, greek).0, [ticker])
    ensures var b' := TraderOne(b, ticker, t, stdOf, greek).0;
      (Bought(b.market, ticker, stdOf) && ticker !in b.holdings && ticker !in PORTFOLIO_KEYS)
        ==> ticker in b'.holdings && b'.holdings[ticker] == NewHolding(b.market[ticker], t, greek).0
    ensures var b' := TraderOne(b, ticker, t, stdOf, greek).0;
      (ticker in b'.holdings && ticker !in b.holdings)
        ==> Bought(b.market, ticker, stdOf) && b'.holdings[ticker] == NewHolding(b.market[ticker], t, greek).0
  {
    var b' := TraderOne(b, ticker, t, stdOf, greek).0;
    assert b'.orders[..|b.orders|] == b.orders;
    if ticker in b.market && |b.market[ticker].prices| > WINDOW && BothBelow(b.market[ticker].prices, BollingerBands(b.market[ticker].prices, stdOf, BB_K)) {
      assert b'.orders[|b.orders|..] == [Buy(ticker, CLIP, b.market[ticker].curPrice)];
    }
  }

  lemma TraderEffectChain(b: Book, b1: Book, b2: Book, k: string, tickers: seq<string>)
    requires TraderEffect(b, b1, [k]) && TraderEffect(b1, b2, tickers)
    ensures TraderEffect(b, b2, [k] + tickers)
  {
    var all := [k] + tickers;
    var first, later := b1.orders[|b.orders|..], b2.orders[|b1.orders|..];
    assert b2.orders[|b.orders|..] == first + later;
    forall s | s in b.market
      ensures b1.market[s].prices == b.market[s].prices && b1.market[s].curPrice == b.market[s].curPrice
    {
      assert b1.market[s].(bands := None).prices == b.market[s].(bands := None).prices;
      assert b1.market[s].(bands := None).curPrice == b.market[s].(bands := None).curPrice;
    }
    forall i | 0 <= i < |first + later|
      ensures RuleOrder((first + later)[i], all, b.market)
    {
      if i >= |first| {
        assert (first + later)[i] == later[i - |first|];
      }
    }
    forall s | s in b2.holdings && s !in b.holdings
      ensures Buy(s, CLIP, b.market[s].curPrice) in b2.orders[|b.orders|..]
    {
      if s in b1.holdings {
        assert Buy(s, CLIP, b.market[s].curPrice) in first;
      } else {
        assert Buy(s, CLIP, b.market[s].curPrice) in later;
      }
    }
  }

  /** A trader update changes MARKET only in the bands of the tickers it visited, places only orders
      of one clip at the current price for visited tickers with more than WINDOW prices, never
      changes an existing holding, and creates a holding (one clip at the current price) only for a
      visited ticker that it bought and that had none. */
  lemma {:induction false} TraderAllEffect(b: Book, tickers: seq<string>, t: real, stdOf: seq<real> -> real, greek: GreekOracle)
    ensures TraderEffect(b, TraderAll(b, tickers, t, stdOf, greek).0, tickers)
    ensures TraderCreates(b, TraderAll(b, tickers, t, stdOf, greek), tickers, t, stdOf, greek)
    decreases |tickers|
  {
    if tickers == [] {
      assert b.orders[|b.orders|..] == [];
    } else {
      TraderOneEffect(b, tickers[0], t, stdOf, greek);
      var (b1, out1) := TraderOne(b, tickers[0], t, stdOf, greek);
      if out1.Pass? {
        TraderAllEffect(b1, tickers[1..], t, stdOf, greek);
        assert [tickers[0]] + tickers[1..] == tickers;
        var res := TraderAll(b1, tickers[1..], t, stdOf, greek);
        TraderEffectChain(b, b1, res.0, tickers[0], tickers[1..]);
        TraderCreatesChain(b, b1, res, tickers, t, stdOf, greek);
      } else {
        TraderEffectWiden(b, b1, [tickers[0]], tickers);
      }
    }
  }

  /** The holdings a trader update created, in both directions: each new holding is the one
      NewHolding builds from the ticker's record, and when the update raised nothing every visited
      ticker that the buy rule picked and that had no holding has one. */
  ghost predicate TraderCreates(b: Book, res: (Book, Outcome), tickers: seq<string>, t: real, stdOf: seq<real> -> real, greek: GreekOracle)
  {
    && (forall s :: s in res.0.holdings && s !in b.holdings ==>
          s in b.market && res.0.holdings[s] == NewHolding(b.market[s], t, greek).0)
    && (res.1 == Pass ==> forall s :: s in tickers && s !in b.holdings && s !in PORTFOLIO_KEYS && Bought(b.market, s, stdOf) ==>
          s in res.0.holdings)
  }

  lemma TraderCreatesChain(b: Book, b1: Book, res: (Book, Outcome), tickers: seq<string>, t: real, stdOf: seq<real> -> real, greek: GreekOracle)
    requires tickers != [] && (b1, Pass) == TraderOne(b, tickers[0], t, stdOf, greek)
    requires TraderEffect(b, b1, [tickers[0]]) && TraderEffect(b1, res.0, tickers[1..])
    requires TraderCreates(b1, res, tickers[1..], t, stdOf, greek)
    requires (Bought(b.market, tickers[0], stdOf) && tickers[0] !in b.holdings && tickers[0] !in PORTFOLIO_KEYS)
          ==> tickers[0] in b1.holdings
    requires (tickers[0] in b1.holdings && tickers[0] !in b.holdings)
          ==> b1.holdings[tickers[0]] == NewHolding(b.market[tickers[0]], t, greek).0
    ensures TraderCreates(b, res, tickers, t, stdOf, greek)
  {
    forall s | s in b.market
      ensures b1.market[s].prices == b.market[s].prices
      ensures NewHolding(b1.market[s], t, greek) == NewHolding(b.market[s], t, greek)
    {
      assert b1.market[s].(bands := None).prices == b.market[s].(bands := None).prices;
      NewHoldingIgnoresBands(b1.market[s], b.market[s], t, greek);
    }
    forall s | s in tickers && s !in b.holdings && s !in PORTFOLIO_KEYS && Bought(b.market, s, stdOf) && res.1 == Pass
      ensures s in res.0.holdings
    {
      if s != tickers[0] && s !in b1.holdings {
        assert s in tickers[1..];
        assert Bought(b1.market, s, stdOf);
      }
    }
  }

  lemma TraderEffectWiden(b: Book, b': Book, tickers: seq<string>, more: seq<string>)
    requires TraderEffect(b, b', tickers) && forall k :: k in tickers ==> k in more
    ensures TraderEffect(b, b', more)
  {
  }

  /** The decision for a ticker with more than WINDOW prices, in both directions: a buy exactly when
      both prices are below the lower band, a sell exactly when they are not and the price crosses
      the upper band, and no order otherwise. */
  lemma TraderOneDecides(b: Book, ticker: string, t: real, stdOf: seq<real> -> real, greek: GreekOracle)
    requires ticker in b.market && |b.market[ticker].prices| > WINDOW
    ensures var r := b.market[ticker];
      var bands := BollingerBands(r.prices, stdOf, BB_K);
      var b' := TraderOne(b, ticker, t, stdOf, greek).0;
      && b'.market[ticker].bands == Some(bands)
      && (BothBelow(r.prices, bands) <==> b'.orders == b.orders + [Buy(ticker, CLIP, r.curPrice)])
      && (!BothBelow(r.prices, bands) && CrossUp(r.prices, bands) <==> b'.orders == b.orders + [Sell(ticker, CLIP, r.curPrice)])
      && (!BothBelow(r.prices, bands) && !CrossUp(r.prices, bands) <==> b'.orders == b.orders)
  {
    var r := b.market[ticker];
    var buy, sell := Buy(ticker, CLIP, r.curPrice), Sell(ticker, CLIP, r.curPrice);
    assert (b.orders + [buy])[|b.orders|] == buy;
    assert (b.orders + [sell])[|b.orders|] == sell;
  }
}
