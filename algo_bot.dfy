/** The module-level state of shen_wang_algost.py and its callbacks, in place. Each method updates
    the globals step by step, as the Python callback does, and is proved to end in the state its
    specification function in AlgoModel describes; the lemmas there say what those states are. */
module AlgoBot {
  import opened Common
  import opened AlgoModel

  class Engine {
    var time: real
    var dark: int
    var lit: int
    var market: map<string, Security>
    var curNews: Option<seq<News>>
    var history: map<string, seq<News>>
    var stats: map<string, Belief>

    /** The globals as one value. */
    function State(): Desk
      reads this
    {
      Desk(time, dark, lit, market, curNews, history, stats)
    }

    ghost predicate Valid()
      reads this
    {
      AlgoModel.Valid(State())
    }

    /** The module-level initialisation: time 0, flat positions, everything else empty. */
    constructor()
      ensures Valid()
      ensures State() == INITIAL
    {
      time, dark, lit := 0.0, 0, 0;
      market, curNews, history, stats := map[], None, map[], map[];
    }

    /** register, with msg['case_meta']['securities'] and ['news_sources'] in dictionary order. */
    method Register(elapsed: real, secs: seq<SecInfo>, states: map<string, BookState>, sources: seq<string>) returns (out: Outcome)
      requires Valid()
      modifies this
      ensures Valid()
      ensures (State(), out) == RegisterSpec(old(State()), elapsed, secs, states, sources)
    {
      time := elapsed;
      var i := 0;
      while i < |secs|
        invariant 0 <= i <= |secs|
        invariant State() == old(State()).(time := elapsed, market := market)
        invariant RegisterSecurities(old(market), secs, states) == RegisterSecurities(market, secs[i..], states)
      {
        assert secs[i..][1..] == secs[i + 1..];
        var info := secs[i];
        if info.tradeable {
          var r := Security(info.startingPrice, [], None, None);
          if info.ticker !in states {
            market := market[info.ticker := r];
            return Fail(KeyError);
          }
          r := r.(bids := Some(states[info.ticker].bids));
          r := r.(asks := Some(states[info.ticker].asks));
          market := market[info.ticker := r];
        }
        i := i + 1;
      }
      ghost var registered := State();
      RegisterSourcesEffect(registered, sources, "");
      var j := 0;
      while j < |sources|
        invariant 0 <= j <= |sources|
        invariant RegisterSources(registered, sources) == RegisterSources(State(), sources[j..])
        invariant State().(history := registered.history, stats := registered.stats) == registered
      {
        assert sources[j..][1..] == sources[j + 1..];
        history := history[sources[j] := []];
        stats := stats[sources[j] := PRIOR];
        j := j + 1;
      }
      curNews := Some([]);
      out := Pass;
      RegisterSetsUp(old(State()), elapsed, secs, states, sources, "");
    }

    /** update_market for one message: the market state of `ticker`, `elapsed` seconds in. */
    method MarketUpdate(elapsed: real, ticker: string, lastPrice: real, book: BookState) returns (out: Outcome)
      requires Valid()
      modifies this
      ensures Valid()
      ensures (State(), out) == MarketSpec(old(State()), elapsed, ticker, lastPrice, book)
    {
      MarketSpecFifo(State(), elapsed, ticker, lastPrice, book);
      ghost var spec := MarketSpec(State(), elapsed, ticker, lastPrice, book);
      time := elapsed;
      if ticker !in market {
        return Fail(KeyError);
      }
      var r := market[ticker];
      r := r.(curPrice := lastPrice);
      r := r.(prices := r.prices + [r.curPrice]);
      r := r.(bids := Some(book.bids), asks := Some(book.asks));
      market := market[ticker := r];
      if curNews.None? {
        assert spec == (State(), Fail(KeyError));
        return Fail(KeyError);
      }
      var queue := curNews.value;
      if |queue| == 0 || time < (queue[0].time + NEWS_DELAY) as real {
        assert spec == (State(), Pass);
        return Pass;
      }
      var head := queue[0];
      if LIT !in market {
        assert spec == (State(), Fail(KeyError));
        return Fail(KeyError);
      }
      var change := market[LIT].curPrice - head.price;
      var proportion := Proportion(change, head.amount, head.action);
      assert proportion == Observation(State(), head);
      if proportion.Err? {
        assert spec == (State(), Fail(proportion.error));
        return Fail(proportion.error);
      }
      // The source of a queued news item always has a belief (Valid), so the KeyError the
      // specification allows here cannot be raised by the engine.
      var belief := stats[head.source];
      var v := belief.variance;
      var mean := (belief.mean + v * proportion.value) / (1.0 + v);
      var variance := v / (1.0 + v);
      assert Belief(mean, variance) == Posterior(belief, proportion.value);
      stats := stats[head.source := Belief(mean, variance)];
      curNews := Some(queue[1..]);
      out := Pass;
      assert spec == (State(), Pass);
    }

    /** update_trader for one message, with msg['trader_state']['open_orders'] in dictionary order:
        returns the orders it added. */
    method TraderUpdate(open: seq<OpenOrder>) returns (orders: seq<Order>, out: Outcome)
      requires Valid()
      modifies this
      ensures Valid()
      ensures (State(), orders, out) == TraderSpec(old(State()), open)
    {
      TraderLiquidates(State(), open);
      ghost var start := State();
      orders := [];
      if |open| > 0 {
        var first := open[0];
        if first.buy {
          if first.ticker !in market {
            return orders, Fail(KeyError);
          }
          if first.price > market[first.ticker].curPrice {
            orders := [Cancel(first.ticker, first.orderId)];
          }
        }
      }
      assert CancelStep(market, open) == (orders, Pass);
      out := Pass;
      if CASE_LENGTH as real - time < CLOSING_WINDOW as real {
        ghost var cancels := orders;
        if dark > 0 {
          if DARK !in market {
            return orders, Fail(KeyError);
          }
          orders := orders + [Sell(DARK, dark, market[DARK].curPrice)];
          dark := 0;
        } else if dark < 0 {
          if DARK !in market {
            return orders, Fail(KeyError);
          }
          orders := orders + [Buy(DARK, dark, market[DARK].curPrice)];
          dark := 0;
        }
        assert DarkClose(start, cancels) == (State(), orders, Pass);
        ghost var closed := State();
        ghost var darkOrders := orders;
        if lit > 0 {
          if LIT !in market {
            return orders, Fail(KeyError);
          }
          if lit > LOT {
            orders := orders + [Sell(LIT, LOT, market[LIT].curPrice)];
            lit := lit - LOT;
          } else {
            orders := orders + [Sell(LIT, lit, market[LIT].curPrice)];
            lit := 0;
          }
        } else if lit < 0 {
          if LIT !in market {
            return orders, Fail(KeyError);
          }
          if lit < -LOT {
            orders := orders + [Buy(LIT, LOT, market[LIT].curPrice)];
            lit := lit + LOT;
          } else {
            orders := orders + [Buy(LIT, lit, market[LIT].curPrice)];
            lit := 0;
          }
        }
        assert LitUnwind(closed, darkOrders) == (State(), orders, Pass);
      }
    }

    /** trade_method over msg['trades'], in message order. */
    method Trade(trades: seq<TradeRecord>) returns (out: Outcome)
      requires Valid()
      modifies this
      ensures Valid()
      ensures (State(), out) == TradeAll(old(State()), trades)
    {
      var i := 0;
      while i < |trades|
        invariant 0 <= i <= |trades|
        invariant State() == old(State()).(market := market)
        invariant TradeAll(old(State()), trades) == TradeAll(State(), trades[i..])
      {
        assert trades[i..][1..] == trades[i + 1..];
        var tr := trades[i];
        if tr.ticker !in market {
          return Fail(KeyError);
        }
        var r := market[tr.ticker];
        r := r.(curPrice := tr.price);
        r := r.(prices := r.prices + [r.curPrice]);
        market := market[tr.ticker := r];
        i := i + 1;
      }
      out := Pass;
    }

    /** update_news for one message: the fields of msg['news'], the body and time already read as
        integers. Returns the orders it added. */
    method NewsUpdate(source: string, amount: int, newsTime: int, headline: string) returns (orders: seq<Order>, out: Outcome)
      requires Valid()
      modifies this
      ensures Valid()
      ensures (State(), orders, out) == NewsSpec(old(State()), source, amount, newsTime, headline)
    {
      NewsHedges(State(), source, amount, newsTime, headline);
      orders := [];
      if CASE_LENGTH - newsTime < CLOSING_WINDOW {
        return orders, Pass;
      }
      var action;
      if Contains(headline, "buying") {
        action := BuySide;
      } else if Contains(headline, "selling") {
        action := SellSide;
      } else {
        return orders, Fail(ValueError);
      }
      assert NewsSpec(State(), source, amount, newsTime, headline) == Hedge(State(), source, amount, newsTime, action);
      if DARK !in market || source !in stats {
        return orders, Fail(KeyError);
      }
      var edge := stats[source].mean * C * amount as real;
      var first := if action == BuySide then Sell(DARK, LOT, market[DARK].curPrice + edge) else Buy(DARK, LOT, market[DARK].curPrice - edge);
      orders := [first];
      if LIT !in market {
        ghost var h := Hedge(old(State()), source, amount, newsTime, action);
        assert |h.1| == 1 && h.1[0] == first;
        return orders, Fail(KeyError);
      }
      var second := if action == BuySide then Buy(LIT, LOT, market[LIT].curPrice + edge) else Sell(LIT, LOT, market[LIT].curPrice - edge);
      orders := [first, second];
      if action == BuySide {
        dark := dark - LOT;
        lit := lit + LOT;
      } else {
        dark := dark + LOT;
        lit := lit - LOT;
      }
      var item := News(source, amount, action, newsTime, market[LIT].curPrice);
      if curNews.None? {
        ghost var h := Hedge(old(State()), source, amount, newsTime, action);
        assert |h.1| == 2 && h.1[0] == first && h.1[1] == second;
        return orders, Fail(KeyError);
      }
      curNews := Some(curNews.value + [item]);
      // Every source with a belief has a history (Valid), so the KeyError the specification allows
      // here cannot be raised by the engine.
      history := history[source := history[source] + [item]];
      out := Pass;
      ghost var spec := Hedge(old(State()), source, amount, newsTime, action);
      assert |spec.1| == 2 && spec.1[0] == first && spec.1[1] == second;
    }
  }
}
