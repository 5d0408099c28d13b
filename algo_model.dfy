/** shen_wang_algost.py: the news-driven desk trading TRDRS on a dark and a lit market. Its state
    is the integer dark and lit positions, the market records, the queue of news waiting to be
    scored (MARKET['cur_news']), the news history per source, and a normal belief per source about
    how much its orders predict the lit price. Every function here is the specification of one
    callback: the new state, the orders it placed, and whether a Python exception escaped. */
module AlgoModel {
  import opened Common

  const CASE_LENGTH: int := 450
  /** In the last 90 seconds the desk stops trading on news and unwinds instead. */
  const CLOSING_WINDOW: int := 90
  /** A news item is scored 9 seconds after it arrived. */
  const NEWS_DELAY: int := 9
  /** The price impact per unit of order size. */
  const C: real := 1.0 / 25000.0
  /** The lot traded per news item, and the most of the lit position unwound per update. */
  const LOT: int := 1000
  const DARK: string := "TRDRS.DARK"
  const LIT: string := "TRDRS.LIT"

  type Variance = v: real | v >= 0.0

  /** statistics[source]: the mean and the square of the standard deviation. */
  datatype Belief = Belief(mean: real, variance: Variance)

  /** {'mean': 0.5, 'std': 0.5} */
  const PRIOR: Belief := Belief(0.5, 0.25)

  /** [source, amount, action, time, lit price at the time] */
  datatype News = News(source: string, amount: int, action: Side, time: int, price: real)

  /** MARKET[security]; cur_bids and cur_asks are None until written (price level to quantity). */
  datatype Security = Security(curPrice: real, prices: seq<real>, bids: Option<map<real, int>>, asks: Option<map<real, int>>)

  /** The order book of one security in msg['market_states']. */
  datatype BookState = BookState(bids: map<real, int>, asks: map<real, int>)

  /** One entry of msg['trader_state']['open_orders']. */
  datatype OpenOrder = OpenOrder(ticker: string, buy: bool, price: real, orderId: string)

  /** The module-level state: `time`, the positions, MARKET without its 'cur_news' key, the queue
      kept under that key (None until registration writes it), news_history and statistics. */
  datatype Desk = Desk(
    time: real,
    dark: int,
    lit: int,
    market: map<string, Security>,
    curNews: Option<seq<News>>,
    history: map<string, seq<News>>,
    stats: map<string, Belief>)

  const INITIAL: Desk := Desk(0.0, 0, 0, map[], None, map[], map[])

  /** What the callbacks keep: every source has a history exactly when it has a belief, and every
      queued news item comes from a source with a belief. */
  predicate Valid(d: Desk)
  {
    && d.history.Keys == d.stats.Keys
    && (d.curNews.Some? ==> forall i :: 0 <= i < |d.curNews.value| ==> d.curNews.value[i].source in d.stats)
  }

  predicate InClosingWindow(time: real)
  {
    (CASE_LENGTH as real) - time < CLOSING_WINDOW as real
  }

  // ---------------------------------------------------------------- registration

  /** The loop body of register for one security: untradeable ones are skipped; a new record with an
      empty price history, whose order book is read from msg['market_states'] (KeyError when the
      security has none, after cur_price and prices are written). */
  function RegisterSecurity(m: map<string, Security>, info: SecInfo, states: map<string, BookState>): (map<string, Security>, Outcome)
  {
    if !info.tradeable then (m, Pass)
    else
      var r := Security(info.startingPrice, [], None, None);
      if info.ticker !in states then (m[info.ticker := r], Fail(KeyError))
      else (m[info.ticker := r.(bids := Some(states[info.ticker].bids), asks := Some(states[info.ticker].asks))], Pass)
  }

  function RegisterSecurities(m: map<string, Security>, secs: seq<SecInfo>, states: map<string, BookState>): (map<string, Security>, Outcome)
    decreases |secs|
  {
    if secs == [] then (m, Pass)
    else
      var (m1, out) := RegisterSecurity(m, secs[0], states);
      if out.Fail? then (m1, out) else RegisterSecurities(m1, secs[1..], states)
  }

  /** The loop over msg['case_meta']['news_sources']: an empty history and the prior belief. */
  function RegisterSources(d: Desk, sources: seq<string>): Desk
    decreases |sources|
  {
    if sources == [] then d
    else RegisterSources(d.(history := d.history[sources[0] := []], stats := d.stats[sources[0] := PRIOR]), sources[1..])
  }

  /** register: the clock, the securities, the news sources, then an empty news queue. */
  function RegisterSpec(d: Desk, elapsed: real, secs: seq<SecInfo>, states: map<string, BookState>, sources: seq<string>): (Desk, Outcome)
  {
    var (m, out) := RegisterSecurities(d.market, secs, states);
    var d1 := d.(time := elapsed, market := m);
    if out.Fail? then (d1, out)
    else (RegisterSources(d1, sources).(curNews := Some([])), Pass)
  }

  lemma {:induction false} RegisterSourcesEffect(d: Desk, sources: seq<string>, s: string)
    ensures var d' := RegisterSources(d, sources);
      && d'.time == d.time && d'.dark == d.dark && d'.lit == d.lit && d'.market == d.market && d'.curNews == d.curNews
      && d'.history.Keys == d.history.Keys + (set i | 0 <= i < |sources| :: sources[i])
      && d'.stats.Keys == d.stats.Keys + (set i | 0 <= i < |sources| :: sources[i])
      && (s in sources ==> d'.history[s] == [] && d'.stats[s] == PRIOR)
      && (s !in sources && s in d.history ==> d'.history[s] == d.history[s])
      && (s !in sources && s in d.stats ==> d'.stats[s] == d.stats[s])
    decreases |sources|
  {
    if sources != [] {
      var d1 := d.(history := d.history[sources[0] := []], stats := d.stats[sources[0] := PRIOR]);
      RegisterSourcesEffect(d1, sources[1..], s);
      var rest := set i | 0 <= i < |sources[1..]| :: sources[1..][i];
      var all := set i | 0 <= i < |sources| :: sources[i];
      assert all == {sources[0]} + rest by {
        forall x | x in all ensures x in {sources[0]} + rest {
          var i :| 0 <= i < |sources| && sources[i] == x;
          if i > 0 {
            assert sources[1..][i - 1] == x;
          }
        }
        forall x | x in rest ensures x in all {
          var i :| 0 <= i < |sources[1..]| && sources[1..][i] == x;
          assert sources[i + 1] == x;
        }
      }
    }
  }

  /** After a registration that raised nothing: the clock is the message's, every tradeable
      security has a record with an empty price history and the message's order book, every news
      source an empty history and the prior belief (mean 0.5, standard deviation 0.5), and the news
      queue is empty; the positions are untouched and the desk stays valid. */
  lemma RegisterSetsUp(d: Desk, elapsed: real, secs: seq<SecInfo>, states: map<string, BookState>, sources: seq<string>, s: string)
    requires Valid(d)
    requires RegisterSpec(d, elapsed, secs, states, sources).1 == Pass
    ensures var d' := RegisterSpec(d, elapsed, secs, states, sources).0;
      && Valid(d')
      && d'.time == elapsed && d'.dark == d.dark && d'.lit == d.lit
      && d'.curNews == Some([])
      && (s in sources ==> s in d'.history && d'.history[s] == [] && s in d'.stats && d'.stats[s] == PRIOR)
  {
    var (m, out) := RegisterSecurities(d.market, secs, states);
    RegisterSourcesEffect(d.(time := elapsed, market := m), sources, s);
  }

  lemma {:induction false} RegisterSecuritiesRecords(m: map<string, Security>, secs: seq<SecInfo>, states: map<string, BookState>, k: nat)
    requires forall i, j :: 0 <= i < j < |secs| ==> secs[i].ticker != secs[j].ticker
    requires k < |secs| && secs[k].tradeable
    requires RegisterSecurities(m, secs, states).1 == Pass
    ensures var m' := RegisterSecurities(m, secs, states).0;
      && secs[k].ticker in m' && secs[k].ticker in states
      && m'[secs[k].ticker] == Security(secs[k].startingPrice, [], Some(states[secs[k].ticker].bids), Some(states[secs[k].ticker].asks))
    decreases |secs|
  {
    var (m1, out) := RegisterSecurity(m, secs[0], states);
    if k == 0 {
      RegisterSecuritiesUntouched(m1, secs[1..], states, secs[0].ticker);
    } else {
      RegisterSecuritiesRecords(m1, secs[1..], states, k - 1);
    }
  }

  lemma {:induction false} RegisterSecuritiesUntouched(m: map<string, Security>, secs: seq<SecInfo>, states: map<string, BookState>, t: string)
    requires forall i :: 0 <= i < |secs| ==> secs[i].ticker != t
    ensures t in RegisterSecurities(m, secs, states).0 <==> t in m
    ensures t in m ==> RegisterSecurities(m, secs, states).0[t] == m[t]
    decreases |secs|
  {
    if secs != [] {
      var (m1, out) := RegisterSecurity(m, secs[0], states);
      if out.Pass? {
        RegisterSecuritiesUntouched(m1, secs[1..], states, t);
      }
    }
  }

  // ---------------------------------------------------------------- scoring news

  /** change / (C * amount), negated for a sell; ZeroDivisionError for an amount of 0. */
  function Proportion(change: real, amount: int, action: Side): (p: Result<real>)
    ensures p.Err? <==> amount == 0
    ensures p.Ok? ==> p.value * C * (amount as real) == (if action == BuySide then change else -change)
  {
    if amount == 0 then Err(ZeroDivisionError)
    else
      var q := change / (C * amount as real);
      Ok(if action == SellSide then -q else q)
  }

  /** The conjugate update of a normal belief by one observation p of unit variance. */
  function Posterior(b: Belief, p: real): Belief
  {
    var v := b.variance;
    Belief((b.mean + v * p) / (1.0 + v), v / (1.0 + v))
  }

  /** The new mean is a weighted average of the old mean and the observation, so it lies between
      them. */
  lemma PosteriorMeanBetween(b: Belief, p: real)
    ensures b.mean <= p ==> b.mean <= Posterior(b, p).mean <= p
    ensures p <= b.mean ==> p <= Posterior(b, p).mean <= b.mean
  {
    var v, m := b.variance, b.mean;
    var n := 1.0 + v;
    assert n * m == m + v * m;
    assert n * p == p + v * p;
    if m <= p {
      MulMonotone(v, m, p);
      DivideBounds(m + v * p, n, m, p);
    } else {
      MulMonotone(v, p, m);
      DivideBounds(m + v * p, n, p, m);
    }
  }

  /** The new variance is below 1 and strictly below the old one unless that was 0; the precision
      grows by exactly 1. */
  lemma PosteriorVarianceShrinks(b: Belief, p: real)
    ensures 0.0 <= Posterior(b, p).variance < 1.0
    ensures b.variance > 0.0 ==> Posterior(b, p).variance < b.variance
    ensures b.variance > 0.0 ==> 1.0 / Posterior(b, p).variance == 1.0 / b.variance + 1.0
    ensures b.variance == 0.0 ==> Posterior(b, p) == Belief(b.mean, 0.0)
  {
    var v := b.variance;
    var w := v / (1.0 + v);
    assert w * (1.0 + v) == v;
    if v > 0.0 {
      assert v * (1.0 + v) > v;
      assert 1.0 / w == (1.0 + v) / v;
    }
  }

  /** The observation of one queued news item: the change of the lit price since the news arrived,
      scaled by the news' size. */
  function Observation(d: Desk, head: News): Result<real>
  {
    if LIT !in d.market then Err(KeyError)
    else Proportion(d.market[LIT].curPrice - head.price, head.amount, head.action)
  }

  /** update_market: the clock, the quoted security's price, price history and book; then, when the
      oldest queued news is at least NEWS_DELAY seconds old, its source's belief is updated by the
      observation and the news leaves the queue. */
  function MarketSpec(d: Desk, elapsed: real, ticker: string, lastPrice: real, book: BookState): (Desk, Outcome)
  {
    var d1 := d.(time := elapsed);
    if ticker !in d1.market then (d1, Fail(KeyError))
    else
      var r := d1.market[ticker];
      var d2 := d1.(market := d1.market[ticker := Security(lastPrice, r.prices + [lastPrice], Some(book.bids), Some(book.asks))]);
      if d2.curNews.None? then (d2, Fail(KeyError))
      else if d2.curNews.value == [] then (d2, Pass)
      else
        var head := d2.curNews.value[0];
        if elapsed < (head.time + NEWS_DELAY) as real then (d2, Pass)
        else
          match Observation(d2, head)
          case Err(e) => (d2, Fail(e))
          case Ok(p) =>
            if head.source !in d2.stats then (d2, Fail(KeyError))
            else (d2.(stats := d2.stats[head.source := Posterior(d2.stats[head.source], p)], curNews := Some(d2.curNews.value[1..])), Pass)
  }

  /** update_market removes at most the oldest queued news, and only once it is NEWS_DELAY seconds
      old, updating exactly its source's belief; a due news item is scored and removed whenever the
      lit price can be read and its amount is not 0, and a queue whose head is not due is left as it
      is; the quoted price is recorded whatever happens after; the positions and histories never
      change. */
  lemma MarketSpecFifo(d: Desk, elapsed: real, ticker: string, lastPrice: real, book: BookState)
    requires Valid(d)
    ensures var (d', out) := MarketSpec(d, elapsed, ticker, lastPrice, book);
      && Valid(d')
      && d'.time == elapsed && d'.dark == d.dark && d'.lit == d.lit && d'.history == d.history
      && d'.market.Keys == d.market.Keys
      && (ticker in d.market ==> d'.market[ticker].curPrice == lastPrice && d'.market[ticker].prices == d.market[ticker].prices + [lastPrice])
      && (ticker !in d.market ==> out == Fail(KeyError) && d' == d.(time := elapsed))
      && (d'.curNews == d.curNews || (d.curNews.Some? && d.curNews.value != [] && d'.curNews == Some(d.curNews.value[1..])))
      && (d'.curNews != d.curNews ==>
            var head := d.curNews.value[0];
            && elapsed >= (head.time + NEWS_DELAY) as real
            && d'.stats == d.stats[head.source := Posterior(d.stats[head.source], Observation(d.(time := elapsed, market := d'.market), head).value)])
      && (d'.curNews == d.curNews ==> d'.stats == d.stats)
      && (ticker in d.market && d.curNews.Some? ==>
            (d'.curNews != d.curNews <==> Due(d, elapsed) && LIT in d.market && d.curNews.value[0].amount != 0))
      && (ticker in d.market && d.curNews.Some? && Due(d, elapsed) && LIT in d.market && d.curNews.value[0].amount != 0 ==>
            out == Pass && d'.curNews == Some(d.curNews.value[1..]))
      && (ticker in d.market && d.curNews.Some? && !Due(d, elapsed) ==> out == Pass && d'.curNews == d.curNews)
  {
  }

  /** The oldest queued news is NEWS_DELAY seconds old at `elapsed`. */
  predicate Due(d: Desk, elapsed: real)
  {
    d.curNews.Some? && d.curNews.value != [] && elapsed >= (d.curNews.value[0].time + NEWS_DELAY) as real
  }

  // ---------------------------------------------------------------- the trader update

  /** The cancel step of update_trader: only the first open order is looked at, and it is cancelled
      only when it is a buy priced above its security's current price (the price lookup raises
      KeyError for an unknown security, and is only reached for a buy). */
  function CancelStep(m: map<string, Security>, open: seq<OpenOrder>): (res: (seq<Order>, Outcome))
  {
    if open == [] || !open[0].buy then ([], Pass)
    else if open[0].ticker !in m then ([], Fail(KeyError))
    else if open[0].price > m[open[0].ticker].curPrice then ([Cancel(open[0].ticker, open[0].orderId)], Pass)
    else ([], Pass)
  }

  /** The lit position after one unwinding step: moved toward 0 by at most LOT, never past it. */
  function LitStep(lit: int): (l: int)
    ensures lit >= 0 ==> 0 <= l <= lit && l == (if lit > LOT then lit - LOT else 0)
    ensures lit <= 0 ==> lit <= l <= 0 && l == (if lit < -LOT then lit + LOT else 0)
  {
    if lit > 0 then (if lit > LOT then lit - LOT else 0)
    else if lit < 0 then (if lit < -LOT then lit + LOT else 0)
    else 0
  }

  function Abs(x: int): nat
  {
    if x < 0 then -x else x
  }

  /** The lit position after n unwinding steps. */
  function LitAfter(lit: int, n: nat): int
    decreases n
  {
    if n == 0 then lit else LitAfter(LitStep(lit), n - 1)
  }

  /** Each step takes min(|lit|, LOT) off the absolute position and keeps its sign. */
  lemma LitStepMoves(lit: int)
    ensures Abs(LitStep(lit)) == Abs(lit) - (if Abs(lit) < LOT then Abs(lit) else LOT)
    ensures LitStep(lit) == 0 || (LitStep(lit) > 0 <==> lit > 0)
  {
  }

  /** The lit position is flat after n steps exactly when n lots cover it: ceil(|lit| / LOT) calls
      are needed and enough. */
  lemma {:induction false} LitAfterFlat(lit: int, n: nat)
    ensures LitAfter(lit, n) == 0 <==> n * LOT >= Abs(lit)
    decreases n
  {
    if n > 0 {
      LitStepMoves(lit);
      LitAfterFlat(LitStep(lit), n - 1);
      if Abs(lit) >= LOT {
        assert Abs(LitStep(lit)) == Abs(lit) - LOT;
      } else {
        assert LitStep(lit) == 0;
      }
    } else {
      assert LitAfter(lit, 0) == lit;
    }
  }

  /** update_trader, with the clock as last set: the cancel step; then, in the closing window, the
      dark position is closed in one order at its price and the lit position unwound by one step.
      A negative position is bought back with the (negative) position as quantity, except a lit
      position below -LOT, which buys LOT. The price lookups raise KeyError for an unregistered
      TRDRS security, after the earlier orders are placed and the earlier position closed. */
  function TraderSpec(d: Desk, open: seq<OpenOrder>): (Desk, seq<Order>, Outcome)
  {
    var (cancels, out) := CancelStep(d.market, open);
    if out.Fail? then (d, cancels, out)
    else if !InClosingWindow(d.time) then (d, cancels, Pass)
    else
      var (d1, orders1, out1) := DarkClose(d, cancels);
      if out1.Fail? then (d1, orders1, out1)
      else LitUnwind(d1, orders1)
  }

  /** Closes the whole dark position in one order at the dark price, after the orders `before`. */
  function DarkClose(d: Desk, before: seq<Order>): (Desk, seq<Order>, Outcome)
  {
    if d.dark == 0 then (d, before, Pass)
    else if DARK !in d.market then (d, before, Fail(KeyError))
    else
      var price := d.market[DARK].curPrice;
      (d.(dark := 0), before + [if d.dark > 0 then Sell(DARK, d.dark, price) else Buy(DARK, d.dark, price)], Pass)
  }

  /** One unwinding step of the lit position at the lit price, after the orders `before`. */
  function LitUnwind(d: Desk, before: seq<Order>): (Desk, seq<Order>, Outcome)
  {
    if d.lit == 0 then (d, before, Pass)
    else if LIT !in d.market then (d, before, Fail(KeyError))
    else
      var price := d.market[LIT].curPrice;
      var lit := d.lit;
      var order := if lit > LOT then Sell(LIT, LOT, price)
                   else if lit > 0 then Sell(LIT, lit, price)
                   else if lit < -LOT then Buy(LIT, LOT, price)
                   else Buy(LIT, lit, price);
      (d.(lit := LitStep(lit)), before + [order], Pass)
  }

  /** At most one cancel is placed, for the first open order only, and exactly when that order is a
      buy priced above its security's current price. */
  lemma TraderCancels(d: Desk, open: seq<OpenOrder>)
    ensures var (d', orders, out) := TraderSpec(d, open);
      && (forall i :: 0 <= i < |orders| && orders[i].Cancel? ==> i == 0 && orders[i] == Cancel(open[0].ticker, open[0].orderId))
      && ((|orders| > 0 && orders[0].Cancel?) <==>
            open != [] && open[0].buy && open[0].ticker in d.market && open[0].price > d.market[open[0].ticker].curPrice)
  {
  }

  /** Outside the closing window the positions stay; inside it, when nothing raised, the dark
      position is flat after one call and the lit position has made one unwinding step; the desk is
      otherwise unchanged. */
  lemma TraderLiquidates(d: Desk, open: seq<OpenOrder>)
    ensures var (d', orders, out) := TraderSpec(d, open);
      && d'.(dark := d.dark, lit := d.lit) == d
      && (!InClosingWindow(d.time) ==> d' == d)
      && (InClosingWindow(d.time) && out == Pass ==> d'.dark == 0 && d'.lit == LitStep(d.lit))
      && |orders| <= 3
  {
  }

  /** A short dark position is bought back with a negative quantity argument. */
  lemma ShortDarkBuysNegative(d: Desk)
    requires InClosingWindow(d.time) && d.dark < 0 && DARK in d.market
    ensures var (d', orders, out) := TraderSpec(d, []);
      orders != [] && orders[0] == Buy(DARK, d.dark, d.market[DARK].curPrice) && orders[0].quantity < 0
  {
  }

  /** So is a short lit position of at most one lot, which is closed in one call. */
  lemma ShortLitBuysNegative(d: Desk)
    requires InClosingWindow(d.time) && d.dark == 0 && -LOT <= d.lit < 0 && LIT in d.market
    ensures var (d', orders, out) := TraderSpec(d, []);
      orders == [Buy(LIT, d.lit, d.market[LIT].curPrice)] && orders[0].quantity < 0 && d'.lit == 0 && out == Pass
  {
  }

  // ---------------------------------------------------------------- trades

  function TradeOne(d: Desk, tr: TradeRecord): (Desk, Outcome)
  {
    if tr.ticker !in d.market then (d, Fail(KeyError))
    else
      var r := d.market[tr.ticker];
      (d.(market := d.market[tr.ticker := r.(curPrice := tr.price, prices := r.prices + [tr.price])]), Pass)
  }

  /** trade_method: the trades in order, stopping at the first exception. */
  function TradeAll(d: Desk, trades: seq<TradeRecord>): (Desk, Outcome)
    decreases |trades|
  {
    if trades == [] then (d, Pass)
    else
      var (d1, out) := TradeOne(d, trades[0]);
      if out.Fail? then (d1, out) else TradeAll(d1, trades[1..])
  }

  /** After trades that raised nothing, each security's price history has grown by exactly the
      prices of its trades and cur_price is its last one; the rest of the desk is untouched. */
  lemma {:induction false} TradeAllPrices(d: Desk, trades: seq<TradeRecord>, ticker: string)
    requires TradeAll(d, trades).1 == Pass
    ensures var d' := TradeAll(d, trades).0;
      && d'.(market := d.market) == d
      && d'.market.Keys == d.market.Keys
      && (ticker in d.market ==>
            && d'.market[ticker].prices == d.market[ticker].prices + PricesFor(trades, ticker)
            && (PricesFor(trades, ticker) != [] ==> d'.market[ticker].curPrice == Last(PricesFor(trades, ticker)))
            && (PricesFor(trades, ticker) == [] ==> d'.market[ticker] == d.market[ticker])
            && d'.market[ticker].bids == d.market[ticker].bids && d'.market[ticker].asks == d.market[ticker].asks)
    decreases |trades|
  {
    if trades != [] {
      var (d1, out) := TradeOne(d, trades[0]);
      TradeAllPrices(d1, trades[1..], ticker);
      assert PricesFor(trades, ticker) == (if trades[0].ticker == ticker then [trades[0].price] else []) + PricesFor(trades[1..], ticker);
    }
  }

  // ---------------------------------------------------------------- news

  /** `word in headline` */
  predicate Contains(headline: string, word: string)
  {
    exists i :: 0 <= i <= |headline| - |word| && OccursAt(headline, word, i)
  }

  predicate OccursAt(headline: string, word: string, i: int)
    requires 0 <= i <= |headline| - |word|
  {
    headline[i..i + |word|] == word
  }

  /** The action a headline announces: "buying" wins over "selling"; neither is None. */
  function Announced(headline: string): Option<Side>
  {
    if Contains(headline, "buying") then Some(BuySide)
    else if Contains(headline, "selling") then Some(SellSide)
    else None
  }

  /** The hedge of one news item on the announced side: against a customer buying, sell a lot on
      the dark market and buy a lot on the lit market, each priced off its current price by the
      source's mean belief times C times the amount; the mirror for selling. The dark position
      moves by -LOT (buying) or +LOT (selling), the lit one by the opposite, and the news is queued
      and added to the source's history. Each lookup raises KeyError where the code reaches it. */
  function Hedge(d: Desk, source: string, amount: int, newsTime: int, action: Side): (Desk, seq<Order>, Outcome)
  {
    if DARK !in d.market || source !in d.stats then (d, [], Fail(KeyError))
    else
      var edge := d.stats[source].mean * C * amount as real;
      var darkPrice := d.market[DARK].curPrice;
      var first := if action == BuySide then Sell(DARK, LOT, darkPrice + edge) else Buy(DARK, LOT, darkPrice - edge);
      if LIT !in d.market then (d, [first], Fail(KeyError))
      else
        var litPrice := d.market[LIT].curPrice;
        var second := if action == BuySide then Buy(LIT, LOT, litPrice + edge) else Sell(LIT, LOT, litPrice - edge);
        var shift := if action == BuySide then -LOT else LOT;
        var d1 := d.(dark := d.dark + shift, lit := d.lit - shift);
        if d1.curNews.None? then (d1, [first, second], Fail(KeyError))
        else
          var item := News(source, amount, action, newsTime, litPrice);
          var d2 := d1.(curNews := Some(d1.curNews.value + [item]));
          if source !in d2.history then (d2, [first, second], Fail(KeyError))
          else (d2.(history := d2.history[source := d2.history[source] + [item]]), [first, second], Pass)
  }

  /** update_news for one message: nothing at all in the closing window (measured at the news' own
      time), else the hedge on the announced side, else ValueError. */
  function NewsSpec(d: Desk, source: string, amount: int, newsTime: int, headline: string): (Desk, seq<Order>, Outcome)
  {
    if InClosingWindow(newsTime as real) then (d, [], Pass)
    else
      match Announced(headline)
      case None => (d, [], Fail(ValueError))
      case Some(action) => Hedge(d, source, amount, newsTime, action)
  }

  /** update_news never changes dark + lit (the hedge is market-neutral), and changes nothing in the
      closing window or for a headline with neither word. When it raised nothing outside the window,
      "buying" (which takes precedence) moved dark by -LOT and lit by +LOT, "selling" the reverse,
      and exactly one record was appended to the queue and to the source's history. */
  lemma NewsHedges(d: Desk, source: string, amount: int, newsTime: int, headline: string)
    requires Valid(d)
    ensures var (d', orders, out) := NewsSpec(d, source, amount, newsTime, headline);
      && Valid(d')
      && d'.dark + d'.lit == d.dark + d.lit
      && d'.time == d.time && d'.market == d.market && d'.stats == d.stats
      && (InClosingWindow(newsTime as real) ==> d' == d && orders == [] && out == Pass)
      && (!InClosingWindow(newsTime as real) && Announced(headline).None? ==> d' == d && orders == [] && out == Fail(ValueError))
      && (!InClosingWindow(newsTime as real) && out == Pass ==>
            && Announced(headline).Some?
            && (Contains(headline, "buying") ==> d'.dark == d.dark - LOT && d'.lit == d.lit + LOT)
            && (!Contains(headline, "buying") ==> Contains(headline, "selling") && d'.dark == d.dark + LOT && d'.lit == d.lit - LOT)
            && |orders| == 2
            && d.curNews.Some? && source in d.history
            && d'.curNews == Some(d.curNews.value + [News(source, amount, Announced(headline).value, newsTime, d.market[LIT].curPrice)])
            && d'.history == d.history[source := d.history[source] + [News(source, amount, Announced(headline).value, newsTime, d.market[LIT].curPrice)]])
  {
  }

  /** A headline with both words is treated as buying. */
  lemma BuyingTakesPrecedence(headline: string)
    requires Contains(headline, "buying") && Contains(headline, "selling")
    ensures Announced(headline) == Some(BuySide)
  {
  }

  lemma ContainsAt(headline: string, word: string, i: nat)
    requires i + |word| <= |headline| && headline[i..i + |word|] == word
    ensures Contains(headline, word)
  {
    assert OccursAt(headline, word, i);
  }

  /** A headline naming both sides is hedged as a customer buying, wherever the words occur. */
  lemma MixedHeadline()
    ensures Contains("selling, then buying", "buying") && Contains("selling, then buying", "selling")
    ensures Announced("selling, then buying") == Some(BuySide)
  {
    ContainsAt("selling, then buying", "buying", 14);
    ContainsAt("selling, then buying", "selling", 0);
  }
}
