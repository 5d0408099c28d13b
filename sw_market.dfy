/** The market-state store of shen_wang_options.py: the MARKET dictionary, one record per
    tradeable security, filled by the registration, quote and trade handlers. Every function here
    is the specification of one handler: the new MARKET (and its key order) and whether a Python
    exception escaped, with the state exactly as far as the handler got before raising. */
module SwMarket {
  import opened Common
  import opened Ticker
  import opened Rolling

  /** 7.5 * 60: the length of the case, in seconds. */
  const CASE_SECONDS: real := 450.0

  /** The time to expiry registration prices the options at: one month, in years. */
  const REGISTRATION_EXPIRY: real := 1.0 / 12.0

  /** exp_time() with `elapsed` the seconds since START_TIME: the remaining part of the case,
      read as a fraction of a twelfth of a year. */
  function ExpTime(elapsed: real): (t: real)
    ensures elapsed == 0.0 ==> t == REGISTRATION_EXPIRY
    ensures elapsed == CASE_SECONDS ==> t == 0.0
    ensures t > 0.0 <==> elapsed < CASE_SECONDS
  {
    (CASE_SECONDS - elapsed) / (CASE_SECONDS * 12.0)
  }

  lemma ExpTimeDecreasing(e1: real, e2: real)
    requires e1 < e2
    ensures ExpTime(e1) > ExpTime(e2)
  {
  }

  /** The order book summary market_update_method keeps: mean, min and max of the ask and bid prices. */
  datatype Quote = Quote(mnAsk: real, minAsk: real, maxAsk: real, mnBid: real, minBid: real, maxBid: real)

  /** MARKET[security]. A key the code has not (yet) written is None; `intrinsic` is an int because the
      strike is. */
  datatype Security = Security(
    kind: char,
    curPrice: real,
    prices: seq<real>,
    spreads: seq<real>,
    strike: Option<int>,
    intrinsic: Option<int>,
    curIv: Option<real>,
    ivs: Option<seq<real>>,
    quote: Option<Quote>,
    bands: Option<Bands>)

  /** What MARKET[security] holds right after `MARKET[security] = {}` and the type, cur_price,
      prices and spreads assignments. */
  function BaseRecord(kind: char, price: real): Security
  {
    Security(kind, price, [], [], None, None, None, None, None, None)
  }

  /** The quote summary agrees with itself and with the last spread. */
  predicate QuoteOrdered(q: Quote)
  {
    q.minBid <= q.mnBid <= q.maxBid && q.minAsk <= q.mnAsk <= q.maxAsk
  }

  /** What every record keeps: there is a quote summary exactly when a spread has been recorded,
      the summary is ordered, and the last spread is the difference of its means. */
  predicate Consistent(r: Security)
  {
    (r.quote.Some? <==> r.spreads != [])
    && (r.quote.Some? ==> QuoteOrdered(r.quote.value) && Last(r.spreads) == r.quote.value.mnAsk - r.quote.value.mnBid)
  }

  /** MARKET and the order in which Python iterates over its keys. */
  ghost predicate WellKept(m: map<string, Security>, keys: seq<string>)
  {
    && (forall t :: t in m <==> t in keys)
    && (forall i, j :: 0 <= i < j < |keys| ==> keys[i] != keys[j])
    && (forall t :: t in m ==> Consistent(m[t]))
  }

  // ---------------------------------------------------------------- registration

  /** The record ack_register_method builds for a tradeable security with a non-empty ticker, and
      whether building it raised: after the base keys, TMXFUT is done; an option gets its strike
      (ValueError when the middle of the ticker is no integer), its intrinsic value, and its
      implied volatility at the starting price and one month to expiry, which is not guarded by a
      try (a raise leaves the record without cur_iv and ivs). */
  function NewRecord(info: SecInfo, iv: IvSolver): (res: (Security, Outcome))
    requires info.ticker != []
    ensures res.0.prices == [] && res.0.spreads == [] && res.0.quote.None? && res.0.bands.None?
  {
    var kind := Kind(info.ticker).value;
    var base := BaseRecord(kind, info.startingPrice);
    if info.ticker == UNDERLYING then (base, Pass)
    else
      match Strike(info.ticker)
      case None => (base, Fail(ValueError))
      case Some(strike) =>
        var priced := base.(strike := Some(strike), intrinsic := Some(Intrinsic(kind, strike)));
        match iv(info.startingPrice, strike, REGISTRATION_EXPIRY, kind)
        case None => (priced, Fail(PricingError))
        case Some(vol) => (priced.(curIv := Some(vol), ivs := Some([])), Pass)
  }

  /** The loop body of ack_register_method for one security: untradeable ones are skipped, an
      empty ticker raises IndexError at security[-1] before MARKET is touched. */
  function RegisterOne(m: map<string, Security>, keys: seq<string>, info: SecInfo, iv: IvSolver)
    : (map<string, Security>, seq<string>, Outcome)
  {
    if !info.tradeable then (m, keys, Pass)
    else if info.ticker == [] then (m, keys, Fail(IndexError))
    else
      var (r, out) := NewRecord(info, iv);
      (m[info.ticker := r], if info.ticker in m then keys else keys + [info.ticker], out)
  }

  /** ack_register_method: the securities in message order, stopping at the first exception. */
  function RegisterAll(m: map<string, Security>, keys: seq<string>, secs: seq<SecInfo>, iv: IvSolver)
    : (map<string, Security>, seq<string>, Outcome)
    decreases |secs|
  {
    if secs == [] then (m, keys, Pass)
    else
      var (m1, keys1, out) := RegisterOne(m, keys, secs[0], iv);
      if out.Fail? then (m1, keys1, out) else RegisterAll(m1, keys1, secs[1..], iv)
  }

  /** The record registration leaves for one tradeable security it completed. */
  predicate FreshlyRegistered(r: Security, info: SecInfo)
  {
    && info.ticker != []
    && r.kind == Kind(info.ticker).value
    && r.curPrice == info.startingPrice
    && r.prices == [] && r.spreads == [] && r.quote.None? && r.bands.None?
    && (info.ticker == UNDERLYING ==> r.strike.None? && r.intrinsic.None? && r.curIv.None? && r.ivs.None?)
    && (info.ticker != UNDERLYING ==>
          && r.strike == Strike(info.ticker) && r.strike.Some?
          && r.intrinsic == Some(Intrinsic(r.kind, r.strike.value))
          && r.curIv.Some? && r.ivs == Some([]))
  }

  predicate DistinctTickers(secs: seq<SecInfo>)
  {
    forall i, j :: 0 <= i < j < |secs| ==> secs[i].ticker != secs[j].ticker
  }

  lemma RegisterOneKeeps(m: map<string, Security>, keys: seq<string>, info: SecInfo, iv: IvSolver)
    requires WellKept(m, keys)
    ensures WellKept(RegisterOne(m, keys, info, iv).0, RegisterOne(m, keys, info, iv).1)
    ensures RegisterOne(m, keys, info, iv).0.Keys <= m.Keys + {info.ticker}
    ensures forall t :: t in m && t != info.ticker ==> t in RegisterOne(m, keys, info, iv).0 && RegisterOne(m, keys, info, iv).0[t] == m[t]
    ensures m.Keys <= RegisterOne(m, keys, info, iv).0.Keys
  {
    if info.tradeable && info.ticker != [] {
      var (r, out) := NewRecord(info, iv);
      assert Consistent(r);
      if info.ticker !in m {
        assert info.ticker !in keys;
      }
    }
  }

  /** Registration keeps the store well kept, touches only the tickers of tradeable securities,
      and an untradeable or absent security keeps whatever MARKET held for it. */
  lemma {:induction false} RegisterAllKeeps(m: map<string, Security>, keys: seq<string>, secs: seq<SecInfo>, iv: IvSolver, t: string)
    requires WellKept(m, keys)
    requires forall i :: 0 <= i < |secs| ==> secs[i].ticker != t || !secs[i].tradeable
    ensures WellKept(RegisterAll(m, keys, secs, iv).0, RegisterAll(m, keys, secs, iv).1)
    ensures t in RegisterAll(m, keys, secs, iv).0 <==> t in m
    ensures t in m ==> RegisterAll(m, keys, secs, iv).0[t] == m[t]
    decreases |secs|
  {
    if secs != [] {
      RegisterOneKeeps(m, keys, secs[0], iv);
      var (m1, keys1, out) := RegisterOne(m, keys, secs[0], iv);
      if out.Pass? {
        RegisterAllKeeps(m1, keys1, secs[1..], iv, t);
      }
    }
  }

  /** After a registration that raised nothing, every tradeable security of the message has a fresh
      record: its kind and strike parsed from the ticker, its intrinsic value, empty price, spread
      and IV histories, and for TMXFUT no strike, intrinsic or IV. */
  lemma {:induction false} RegisterAllRecords(m: map<string, Security>, keys: seq<string>, secs: seq<SecInfo>, iv: IvSolver, k: nat)
    requires WellKept(m, keys)
    requires DistinctTickers(secs)
    requires k < |secs| && secs[k].tradeable
    requires RegisterAll(m, keys, secs, iv).2 == Pass
    ensures secs[k].ticker in RegisterAll(m, keys, secs, iv).0
    ensures FreshlyRegistered(RegisterAll(m, keys, secs, iv).0[secs[k].ticker], secs[k])
    decreases |secs|
  {
    RegisterOneKeeps(m, keys, secs[0], iv);
    var (m1, keys1, out) := RegisterOne(m, keys, secs[0], iv);
    if k == 0 {
      assert FreshlyRegistered(m1[secs[0].ticker], secs[0]);
      RegisterAllKeeps(m1, keys1, secs[1..], iv, secs[0].ticker);
    } else {
      RegisterAllRecords(m1, keys1, secs[1..], iv, k - 1);
    }
  }

  // ---------------------------------------------------------------- quotes and trades

  /** The IV bookkeeping after a new price: skipped for TMXFUT; for an option the solve at the
      current time to expiry, with the sentinel 0 when it raises (a missing strike raises too). */
  function WithIv(r: Security, ticker: string, price: real, t: real, iv: IvSolver): (Security, Outcome)
  {
    if ticker == UNDERLYING then (r, Pass)
    else
      var solved := if r.strike.Some? then iv(price, r.strike.value, t, r.kind) else None;
      var (curIv, ivs, out) := RecordIv(r.ivs, solved);
      (r.(curIv := Some(curIv), ivs := ivs), out)
  }

  /** The IV an option's record gets for a new price: the solved value, or the sentinel 0 when the
      solve raises (a record without a strike raises too). */
  function SolvedIv(strike: Option<int>, kind: char, price: real, t: real, iv: IvSolver): real
  {
    if strike.Some? then iv(price, strike.value, t, kind).GetOr(0.0) else 0.0
  }

  /** SolvedIv for each price in turn. */
  function SolvedIvs(strike: Option<int>, kind: char, prices: seq<real>, t: real, iv: IvSolver): (r: seq<real>)
    ensures |r| == |prices|
    decreases |prices|
  {
    if prices == [] then [] else [SolvedIv(strike, kind, prices[0], t, iv)] + SolvedIvs(strike, kind, prices[1..], t, iv)
  }

  /** market_update_method: a quote for `ticker` with the given last price and the prices of the
      bid and ask levels, at time to expiry t. */
  function QuoteUpdate(m: map<string, Security>, ticker: string, lastPrice: real, bids: seq<real>, asks: seq<real>, t: real, iv: IvSolver)
    : (map<string, Security>, Outcome)
  {
    if ticker !in m then (m, Fail(KeyError))
    else
      var r := m[ticker].(curPrice := lastPrice, prices := m[ticker].prices + [lastPrice]);
      if asks == [] || bids == [] then (m[ticker := r], Fail(StatisticsError))
      else
        var q := Quote(Mean(asks), Min(asks), Max(asks), Mean(bids), Min(bids), Max(bids));
        var (r', out) := WithIv(r.(quote := Some(q), spreads := r.spreads + [q.mnAsk - q.mnBid]), ticker, lastPrice, t, iv);
        (m[ticker := r'], out)
  }

  /** The loop body of trade_method for one trade. */
  function TradeOne(m: map<string, Security>, tr: TradeRecord, t: real, iv: IvSolver): (map<string, Security>, Outcome)
  {
    if tr.ticker !in m then (m, Fail(KeyError))
    else
      var r := m[tr.ticker].(curPrice := tr.price, prices := m[tr.ticker].prices + [tr.price]);
      var (r', out) := WithIv(r, tr.ticker, tr.price, t, iv);
      (m[tr.ticker := r'], out)
  }

  /** trade_method: the trades in message order, stopping at the first exception. */
  function TradeAll(m: map<string, Security>, trades: seq<TradeRecord>, t: real, iv: IvSolver): (map<string, Security>, Outcome)
    decreases |trades|
  {
    if trades == [] then (m, Pass)
    else
      var (m1, out) := TradeOne(m, trades[0], t, iv);
      if out.Fail? then (m1, out) else TradeAll(m1, trades[1..], t, iv)
  }

  /** For an option, prices and ivs grew by the same amount: the IV history stays aligned with the
      price history. */
  predicate IvAligned(r: Security)
  {
    r.ivs.Some? ==> |r.ivs.value| == |r.prices|
  }

  /** A quote that raised nothing appends exactly one price and one spread, the spread the
      difference of the ask and bid means, the quote summary ordered, and for an option exactly one
      IV (the sentinel 0 when the solve raised), so the IV history stays aligned; every other
      record is untouched. */
  lemma QuoteUpdateAppendsOne(m: map<string, Security>, ticker: string, lastPrice: real, bids: seq<real>, asks: seq<real>, t: real, iv: IvSolver)
    requires QuoteUpdate(m, ticker, lastPrice, bids, asks, t, iv).1 == Pass
    ensures ticker in m && bids != [] && asks != []
    ensures var m' := QuoteUpdate(m, ticker, lastPrice, bids, asks, t, iv).0;
      && m'.Keys == m.Keys
      && (forall other :: other in m && other != ticker ==> m'[other] == m[other])
      && m'[ticker].curPrice == lastPrice
      && m'[ticker].prices == m[ticker].prices + [lastPrice]
      && m'[ticker].spreads == m[ticker].spreads + [Mean(asks) - Mean(bids)]
      && m'[ticker].quote.Some? && QuoteOrdered(m'[ticker].quote.value)
      && Consistent(m'[ticker])
      && (ticker == UNDERLYING ==> m'[ticker].ivs == m[ticker].ivs && m'[ticker].curIv == m[ticker].curIv)
      && (ticker != UNDERLYING ==>
            && m'[ticker].ivs.Some? && m[ticker].ivs.Some?
            && m'[ticker].curIv == Some(SolvedIv(m[ticker].strike, m[ticker].kind, lastPrice, t, iv))
            && m'[ticker].ivs.value == m[ticker].ivs.value + [m'[ticker].curIv.value])
      && (ticker != UNDERLYING && IvAligned(m[ticker]) ==> IvAligned(m'[ticker]))
      && m'[ticker].strike == m[ticker].strike && m'[ticker].kind == m[ticker].kind
      && m'[ticker].intrinsic == m[ticker].intrinsic && m'[ticker].bands == m[ticker].bands
  {
    MeanBounds(asks);
    MeanBounds(bids);
  }

  /** An empty side of the book makes statistics.mean raise after the price has been appended:
      the spread and IV histories are not extended, and the prices run one ahead of the IVs. */
  lemma QuoteWithEmptyBook(m: map<string, Security>, ticker: string, lastPrice: real, bids: seq<real>, asks: seq<real>, t: real, iv: IvSolver)
    requires ticker in m && (bids == [] || asks == [])
    ensures var (m', out) := QuoteUpdate(m, ticker, lastPrice, bids, asks, t, iv);
      && out == Fail(StatisticsError)
      && m'[ticker].prices == m[ticker].prices + [lastPrice]
      && m'[ticker].spreads == m[ticker].spreads && m'[ticker].ivs == m[ticker].ivs
  {
  }

  /** A quote for an unregistered ticker raises KeyError before anything changes. */
  lemma QuoteUnknownTicker(m: map<string, Security>, ticker: string, lastPrice: real, bids: seq<real>, asks: seq<real>, t: real, iv: IvSolver)
    requires ticker !in m
    ensures QuoteUpdate(m, ticker, lastPrice, bids, asks, t, iv) == (m, Fail(KeyError))
  {
  }

  lemma QuoteUpdateKeeps(m: map<string, Security>, keys: seq<string>, ticker: string, lastPrice: real, bids: seq<real>, asks: seq<real>, t: real, iv: IvSolver)
    requires WellKept(m, keys)
    ensures WellKept(QuoteUpdate(m, ticker, lastPrice, bids, asks, t, iv).0, keys)
  {
    if ticker in m && bids != [] && asks != [] {
      MeanBounds(asks);
      MeanBounds(bids);
    }
  }

  /** After trades that raised nothing, each ticker's price history has grown by exactly the prices
      of its trades, in order, cur_price is its last trade's price, its IV history (for an option)
      has grown by the IV solved at each of those prices (0 where the solve raised), and a ticker
      without a trade is untouched. */
  lemma {:induction false} TradeAllPrices(m: map<string, Security>, trades: seq<TradeRecord>, t: real, iv: IvSolver, ticker: string)
    requires TradeAll(m, trades, t, iv).1 == Pass
    ensures var m' := TradeAll(m, trades, t, iv).0;
      && m'.Keys == m.Keys
      && (ticker !in m ==> PricesFor(trades, ticker) == [])
      && (ticker in m ==>
            && m'[ticker].prices == m[ticker].prices + PricesFor(trades, ticker)
            && (PricesFor(trades, ticker) == [] ==> m'[ticker] == m[ticker])
            && (PricesFor(trades, ticker) != [] ==> m'[ticker].curPrice == Last(PricesFor(trades, ticker)))
            && (m[ticker].ivs.Some? && ticker != UNDERLYING ==>
                  && m'[ticker].ivs.Some?
                  && m'[ticker].ivs.value == m[ticker].ivs.value + SolvedIvs(m[ticker].strike, m[ticker].kind, PricesFor(trades, ticker), t, iv))
            && (m[ticker].ivs.Some? && ticker != UNDERLYING && PricesFor(trades, ticker) != [] ==>
                  m'[ticker].curIv == Some(SolvedIv(m[ticker].strike, m[ticker].kind, Last(PricesFor(trades, ticker)), t, iv)))
            && m'[ticker].strike == m[ticker].strike && m'[ticker].kind == m[ticker].kind
            && (ticker == UNDERLYING ==> m'[ticker].ivs == m[ticker].ivs)
            && m'[ticker].spreads == m[ticker].spreads && m'[ticker].quote == m[ticker].quote
            && m'[ticker].intrinsic == m[ticker].intrinsic && m'[ticker].bands == m[ticker].bands)
    decreases |trades|
  {
    if trades != [] {
      var (m1, out) := TradeOne(m, trades[0], t, iv);
      TradeAllPrices(m1, trades[1..], t, iv, ticker);
      var rest := PricesFor(trades[1..], ticker);
      assert PricesFor(trades, ticker) == (if trades[0].ticker == ticker then [trades[0].price] else []) + rest;
      if ticker in m && trades[0].ticker == ticker && m[ticker].ivs.Some? && ticker != UNDERLYING {
        var r := m[ticker];
        var v := SolvedIv(r.strike, r.kind, trades[0].price, t, iv);
        assert m1[ticker].ivs == Some(r.ivs.value + [v]);
        assert ([trades[0].price] + rest)[1..] == rest;
        assert SolvedIvs(r.strike, r.kind, [trades[0].price] + rest, t, iv) == [v] + SolvedIvs(r.strike, r.kind, rest, t, iv);
        assert r.ivs.value + [v] + SolvedIvs(r.strike, r.kind, rest, t, iv) == r.ivs.value + ([v] + SolvedIvs(r.strike, r.kind, rest, t, iv));
      } else if ticker in m && trades[0].ticker != ticker {
        assert [] + rest == rest;
        assert m1[ticker] == m[ticker];
      }
    }
  }

  lemma {:induction false} TradeAllKeeps(m: map<string, Security>, keys: seq<string>, trades: seq<TradeRecord>, t: real, iv: IvSolver)
    requires WellKept(m, keys)
    ensures WellKept(TradeAll(m, trades, t, iv).0, keys)
    decreases |trades|
  {
    if trades != [] {
      var (m1, out) := TradeOne(m, trades[0], t, iv);
      assert WellKept(m1, keys);
      if out.Pass? {
        TradeAllKeeps(m1, keys, trades[1..], t, iv);
      }
    }
  }
}
