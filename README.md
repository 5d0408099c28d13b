# Trading-bot bookkeeping, modelled in Dafny

This project models the bookkeeping and decision layer of three trading bots written for a
TradersBot exchange simulation:

- `shen_wang_options.py` is an options bot. It keeps a market-state store (`MARKET`): one record per
  security, with a price history, a spread history, a quote summary, an implied-volatility (IV)
  history and Bollinger bands. It also keeps a Greek ledger (`PORTFOLIO`), which `make_order`
  updates with every order. A Bollinger-band rule, confirmed by IV, places orders, and so does a
  spread-triggered market-making rule.
- `options_bot.py` is a simpler variant. Its buy rule is "the last two prices are both below the
  lower band", its sell rule is a crossing of the upper band, and it uses multiplier 1.25. It records
  a holding only on the first buy of a ticker.
- `shen_wang_algost.py` is a news-driven hedging engine for the pair TRDRS.DARK / TRDRS.LIT:
  - integer dark and lit positions;
  - a FIFO queue of news waiting to be scored;
  - a conjugate-normal belief per news source, updated by how far the lit price moved after the
    source's orders;
  - an end-of-case liquidation that closes the dark position at once and unwinds the lit position
    in lots of 1000.

Each Python callback is modelled twice:

- **A specification function.** It is pure and gives the new state, the orders placed, and the
  exception that escaped (`Outcome`: `Pass` or `Fail(error)`). On an exception, the state is left
  exactly as far as the Python code had mutated it. A key the code has not written yet is an
  `Option` field.
- **A method of a class.** The class holds the module's global dictionaries as fields. The method
  updates them step by step, as the callback does, and its postcondition equates the final state
  with the specification function.

The properties are lemmas about the specification functions. Loops over dictionary keys become
folds over a sequence that gives the iteration order.

Library calls whose code is not part of this model are parameters of the functions that need them:

- py_vollib's `implied_volatility`, `delta`, `gamma` and `vega` (`IvSolver`, `GreekOracle`). Each returns
  `None` where the call raises.
- pandas' rolling standard deviation of one window (`stdOf`).
- `round(x, 2)` (`round`).
- The wall clock: `elapsed` is the time since `START_TIME` (the options bots) or
  `msg['elapsed_time']` (the hedging engine).

Behaviour of the code worth noting, which the model follows:

- Registration does not catch a failing IV solve (`shen_wang_options.py:260`, `options_bot.py:133`),
  so the exception escapes.
- A quote with an empty side of the book raises `StatisticsError` (`shen_wang_options.py:284-285`).
- `make_order` resets the position record on every call, instead of "creating on first fill"
  (`shen_wang_options.py:147-152`).
- The buy rule of `options_bot.py:201` is a level test (both of the last two prices below the lower
  band), not a crossing.
- No handler is all-or-nothing: an exception leaves the partial update in place.

Modules:

| file | module | models |
|---|---|---|
| common.dfy | Common | exceptions, orders, message records, `mean`/`min`/`max`, the IV try/except |
| ticker.dfy | Ticker | kind and strike read from a ticker, intrinsic value |
| rolling.dfy | Rolling | rolling mean, rolling std, Bollinger bands with `min_periods=1` |
| sw_market.dfy | SwMarket | `MARKET` of shen_wang_options.py: registration, quotes, trades |
| sw_ledger.dfy | SwLedger | `make_order` and `PORTFOLIO` |
| sw_signals.dfy | SwSignals | `make_market`, `bb_strategy` |
| sw_bot.dfy | SwBot | class `Bot`: the callbacks of shen_wang_options.py in place |
| ob_market.dfy | ObMarket | options_bot.py: registration, quotes, trades, trader update, holdings |
| ob_bot.dfy | ObBot | class `Bot`: the callbacks of options_bot.py in place |
| algo_model.dfy | AlgoModel | shen_wang_algost.py: register, update_market, update_trader, trade_method, update_news |
| algo_bot.dfy | AlgoBot | class `Engine`: the callbacks of shen_wang_algost.py in place |

## Model

| member | source | states |
|---|---|---|
| Common.Min | shen_wang_options.py:287-289 | `min` of a non-empty list is one of its elements and at most every element |
| Common.Max | shen_wang_options.py:288-290 | `max` of a non-empty list is one of its elements and at least every element |
| Common.MeanBounds | shen_wang_options.py:284-297 | the mean lies between the minimum and the maximum, so `min_bid <= mn_bid <= max_bid` and `min_ask <= mn_ask <= max_ask` |
| Common.MeanOfTwo | shen_wang_options.py:182-183 | `mean([a, b])` is `(a + b) / 2`, the midpoint make_market prices at |
| Common.RecordIv | shen_wang_options.py:305-310 | after an IV solve, `ivs` grows by exactly one entry, equal to the new `cur_iv`; the entry is the solved value, or 0 when the solve raised; without an `ivs` list the except clause raises KeyError after setting `cur_iv` to 0 |
| Ticker.Kind | shen_wang_options.py:247 | `security[-1].lower()` exists exactly for a non-empty ticker |
| Ticker.Middle | shen_wang_options.py:256 | `security[1:-1]` drops the first and last characters, and is empty for a ticker shorter than 2 |
| Ticker.ParseInt | shen_wang_options.py:256 | on ASCII text without whitespace or `_`, `int()` succeeds exactly on an optional sign followed by decimal digits; an unsigned result is non-negative |
| Ticker.Intrinsic | shen_wang_options.py:258-259 | the intrinsic value is never negative; it is 0 for a put; for a call it is `100 - strike` or 0, whichever is larger |
| Ticker.DecimalRoundTrip | shen_wang_options.py:256 | `int()` reads back the decimal digits of any natural number |
| Ticker.ParseOptionTicker | shen_wang_options.py:247-257 | registration recovers the lower-cased kind and the strike from any ticker of the form root letter, decimal strike, kind letter |
| Ticker.ShortTickerHasNoStrike | shen_wang_options.py:256 | a ticker of at most two characters has no strike: `int('')` raises ValueError |
| Ticker.T89C | shen_wang_options.py:247-259 | T89C is a call struck at 89 with intrinsic value 11; a put at 89 has intrinsic value 0 |
| Rolling.WindowAt | shen_wang_options.py:197-199 | the rolling window ending at price i has min(i + 1, 10) prices and ends with price i |
| Rolling.MovingAverage | shen_wang_options.py:198 | the rolling mean has one entry per price |
| Rolling.RollingStd | shen_wang_options.py:199 | the rolling std has one entry per price |
| Rolling.BollingerBands | shen_wang_options.py:198-205 | the four stored series (MA, STD, Upper, Lower) each have one entry per price |
| Rolling.MovingAverageWithinWindow | shen_wang_options.py:198 | each moving-average entry lies between the smallest and the largest price of its window |
| Rolling.BandsEncloseAverage | shen_wang_options.py:200-201 | `Lower <= MA <= Upper` wherever the std is non-negative |
| Rolling.WiderMultiplierWidensBands | options_bot.py:193-194 | for the same prices, multiplier 2.0 gives bands at least as wide as multiplier 1.25 |
| Rolling.BandsArePrefixStable | shen_wang_options.py:197-205 | appending a price leaves every earlier entry of all four series unchanged |
| Rolling.LastWindowsFull | shen_wang_options.py:196-209 | with more than WINDOW prices, the last two windows are full and the last one is the last 10 prices |
| Rolling.ElevenPrices | shen_wang_options.py:196-198 | for the prices 100 to 110, the last moving average is 105.5 |
| SwMarket.ExpTime | shen_wang_options.py:22-24 | time to expiry is 1/12 at the start and 0 at 450 s, and positive exactly before 450 s |
| SwMarket.ExpTimeDecreasing | shen_wang_options.py:22-24 | time to expiry strictly decreases as time elapses |
| SwMarket.NewRecord | shen_wang_options.py:247-261 | a new record starts with empty price and spread histories, no quote summary and no bands |
| SwMarket.RegisterOneKeeps | shen_wang_options.py:244-261 | one registration step keeps MARKET consistent with its key order, adds at most the visited ticker, and changes no other record |
| SwMarket.RegisterAllKeeps | shen_wang_options.py:243-261 | registration keeps MARKET consistent; a ticker that is not among the tradeable securities of the message is untouched |
| SwMarket.RegisterAllRecords | shen_wang_options.py:243-261 | after a registration that raised nothing, every tradeable security has: the kind from the ticker, the starting price, empty histories; for an option also the parsed strike, the intrinsic value, an IV and an empty IV list; for TMXFUT no strike and no IV |
| SwMarket.QuoteUpdateAppendsOne | shen_wang_options.py:266-310 | a quote that raised nothing: appends one price and the spread `mn_ask - mn_bid`; leaves an ordered quote summary; for an option sets `cur_iv` to the IV solved at the new price (0 when the solve raised) and appends it, keeping the IV history as long as the price history; the record's strike, kind, intrinsic value and bands stay; changes no other record |
| SwMarket.QuoteWithEmptyBook | shen_wang_options.py:269-285 | with an empty side of the book, the price is appended and then `mean` raises StatisticsError before the spread or the IV is recorded |
| SwMarket.QuoteUnknownTicker | shen_wang_options.py:268-269 | a quote for an unregistered ticker raises KeyError before anything changes |
| SwMarket.QuoteUpdateKeeps | shen_wang_options.py:266-310 | a quote keeps MARKET consistent with its key order |
| SwMarket.TradeAllPrices | shen_wang_options.py:321-339 | after trades that raised nothing: each ticker's price history grew by exactly its trade prices, in order; `cur_price` is its last trade price; an option's IV history grew by the IV solved at each of those prices, in order (0 where the solve raised), and `cur_iv` is the IV solved at its last trade price; strike, kind, intrinsic value, bands, spreads and quote are unchanged |
| SwMarket.TradeAllKeeps | shen_wang_options.py:321-339 | trades keep MARKET consistent with its key order |
| SwLedger.OrderGreeks | shen_wang_options.py:143-145 | the Greeks raise KeyError exactly when the record has no strike or no IV, and succeed exactly when all three py_vollib calls do; a zero quantity gives zero Greeks |
| SwLedger.FillLedger | shen_wang_options.py:147-176 | for a ticker that is not a top-level PORTFOLIO key, the position is reset and then filled: a buy leaves `(quant, price, d, g, v)` for this order alone and adds the Greeks to the aggregates; a sell leaves `(-quant, no price, -d, -g, -v)` and subtracts them; `options` grows by quant either way; other positions are untouched |
| SwLedger.BuyThenSellRestoresAggregates | shen_wang_options.py:154-176 | a buy and then a sell of the same quantity with the same Greeks restores the aggregate delta, gamma and vega; `options` has grown by twice the quantity |
| SwLedger.MakeOrderPlacesOne | shen_wang_options.py:142-176 | make_order places at most one order, and the one it was asked for when it raises nothing; it places none only when it raised, changing nothing; an unregistered ticker is a KeyError |
| SwSignals.MmQuoteBounds | shen_wang_options.py:181-186 | a quote is made only for an option whose last spread exceeds 2.5 times the mean spread, and whose bid exceeds its intrinsic value; the bid lies between `min_bid` and `mn_bid`, the ask between `mn_ask` and `max_ask`, so ask minus bid is at least the last spread |
| SwSignals.FirstSpreadNeverTriggers | shen_wang_options.py:181 | a single non-negative spread never triggers market making |
| SwSignals.MakeMarketOrders | shen_wang_options.py:179-189 | make_market leaves MARKET unchanged and only appends orders; each order is one clip (10) of an option in MARKET; when nothing raised, the orders come in buy/sell pairs of the same security |
| SwSignals.MakeMarketOnePlaces | shen_wang_options.py:179-189 | one make_market visit: when the rule fires and nothing raises, exactly a buy of one clip at round(bid price − 0.3) then a sell of one clip at round(ask price); nothing when the rule is skipped or the ticker is unknown (KeyError); at most that buy when it raises |
| SwSignals.RulesExclusive | shen_wang_options.py:209-221 | with a non-negative mean IV the buy and sell rules never both hold |
| SwSignals.LimitOffset | shen_wang_options.py:215-216 | the limit-price offset is `max(0.1 * time value, 0.5)`: at least 0.5 and at least a tenth of the time value, and equal to one of the two |
| SwSignals.BbDecideOrders | shen_wang_options.py:208-229 | an order is placed exactly when all hold: the security is an option with an IV history; the buy or the sell rule holds; the price exceeds the intrinsic value. The side is buy exactly when the buy rule holds; the limit price is the rounded price minus (buy) or plus (sell) the offset |
| SwSignals.BbOneEffects | shen_wang_options.py:195-229 | one bb_strategy step changes only the bands of the visited record, and sets them to the Bollinger bands of its own prices; it appends only clips of that ticker |
| SwSignals.BbAllEffects | shen_wang_options.py:194-236 | bb_strategy adds or removes no key of MARKET and changes no record except the bands of visited ones, set to the Bollinger bands of their own prices where there are more than WINDOW; it only appends orders, each one clip of a visited option |
| SwSignals.BbAllStoresBands | shen_wang_options.py:194-205 | after bb_strategy raised nothing, every visited security with more than WINDOW prices carries the bands of its prices |
| SwBot.Bot.constructor | shen_wang_options.py:51-69 | MARKET starts empty; PORTFOLIO starts with no positions, zero Greeks and a zero options counter |
| SwBot.Bot.Register | shen_wang_options.py:241-262 | ack_register_method in place ends in the state RegisterAll describes, keeping MARKET consistent |
| SwBot.Bot.MarketUpdate | shen_wang_options.py:266-310 | market_update_method in place ends in the state QuoteUpdate describes |
| SwBot.Bot.Trade | shen_wang_options.py:321-339 | trade_method in place ends in the state TradeAll describes |
| SwBot.Bot.MakeOrder | shen_wang_options.py:142-176 | make_order in place, with `+=` and `-=` on the position and the aggregates, ends in the portfolio and orders MakeOrderSpec describes |
| SwBot.Bot.MakeMarketVisit | shen_wang_options.py:180-189 | one pass of the make_market loop ends as MakeMarketOne describes |
| SwBot.Bot.MakeMarket | shen_wang_options.py:179-189 | make_market over MARKET's keys ends as MakeMarketAll describes |
| SwBot.Bot.BbVisit | shen_wang_options.py:195-236 | one pass of the bb_strategy loop ends as BbOne describes |
| SwBot.Bot.BbStrategy | shen_wang_options.py:194-236 | bb_strategy over MARKET's keys ends as BbAll describes |
| SwBot.Bot.TraderUpdate | shen_wang_options.py:344-349 | trader_update_method runs bb_strategy only |
| ObMarket.ExpTime | options_bot.py:19-21 | the remaining fraction of the case is 1 at the start and 0 at 450 s, and positive exactly before 450 s |
| ObMarket.ExpTimeDecreasing | options_bot.py:19-21 | the remaining fraction strictly decreases as time elapses |
| ObMarket.ExpTimeTwelveFold | options_bot.py:19-21 | it is exactly 12 times the time to expiry of shen_wang_options.py |
| ObMarket.NewRecord | options_bot.py:123-134 | a new record has the lower-cased last character as kind, the starting price, an empty price history and no bands |
| ObMarket.RegisterOneKeeps | options_bot.py:120-134 | one registration step keeps MARKET and its key order matched, adds at most the visited ticker, sets it to the new record and changes no other |
| ObMarket.RegisterAllRecords | options_bot.py:117-134 | after a registration that raised nothing, every tradeable security has its fresh record: for an option the parsed strike, an IV and an empty IV list; for TMXFUT neither |
| ObMarket.RegisterAllUntouched | options_bot.py:117-134 | registration keeps MARKET matched with its key order and leaves every other ticker as it was |
| ObMarket.QuoteUpdateAppendsOne | options_bot.py:139-150 | an unregistered ticker raises KeyError exactly when nothing changes; otherwise one price is appended, and for an option `cur_iv` becomes the IV solved at the new price (0 when the solve raised) and is appended, keeping the IV history as long as the price history; strike, kind and bands stay; no other record changes |
| ObMarket.TradeAllPrices | options_bot.py:160-177 | after trades that raised nothing, each ticker's price history grew by exactly its trade prices, `cur_price` is its last one, an option's IV history grew by the IV solved at each of those prices in order (0 where the solve raised) and stays aligned, and `cur_iv` is the IV solved at its last trade price; strike, kind and bands stay |
| ObMarket.RulesExclusive | options_bot.py:201-211 | with ordered bands at the last price, "both below the lower band" and "crossing the upper band" never both hold |
| ObMarket.HoldingGreek | options_bot.py:208-210 | a holding Greek raises KeyError exactly when the record has no strike or no IV, succeeds exactly when py_vollib does, and is then 10 times the unit Greek |
| ObMarket.NewHolding | options_bot.py:204-210 | the first-buy holding has the current price and quantity 10; delta, gamma and vega are stored in that order, each exactly when the Greeks before it and its own computation succeeded, each equal to the 10 × unit value HoldingGreek computes; the exception raised is the one of the first Greek that failed |
| ObMarket.TraderOneEffect | options_bot.py:187-213 | one step changes MARKET only in the visited bands and appends only rule orders; existing holdings are unchanged; a holding is created exactly when the buy rule fires for a ticker with none (and no top-level PORTFOLIO name), and it is the one NewHolding builds |
| ObMarket.TraderAllEffect | options_bot.py:181-213 | the same for the whole trader update over the positions' tickers: band-only MARKET changes and rule orders only; every new holding is the one NewHolding builds from its record, and when nothing raised every visited ticker the buy rule picked that had no holding now has one |
| ObMarket.TraderOneDecides | options_bot.py:189-213 | with more than WINDOW prices the bands are stored; the step buys one clip exactly when both prices are below the lower band; it sells one clip exactly when the price crossed the upper band and did not buy; otherwise it places nothing |
| ObBot.Bot.constructor | options_bot.py:42-59 | MARKET and the holdings start empty |
| ObBot.Bot.Register | options_bot.py:117-135 | ack_register_method in place ends as RegisterAll describes, keeping the key order matched |
| ObBot.Bot.MarketUpdate | options_bot.py:139-151 | market_update_method in place ends as QuoteUpdate describes |
| ObBot.Bot.Trade | options_bot.py:160-177 | trade_method in place ends as TradeAll describes |
| ObBot.Bot.TraderVisit | options_bot.py:187-213 | one pass of the trader loop, which builds the holding key by key, ends as TraderOne describes |
| ObBot.Bot.TraderUpdate | options_bot.py:181-213 | trader_update_method over the positions' tickers ends as TraderAll describes |
| AlgoModel.RegisterSourcesEffect | shen_wang_algost.py:44-47 | the news-source loop gives each listed source an empty history and the prior belief, keeps every other source, and touches nothing else |
| AlgoModel.RegisterSetsUp | shen_wang_algost.py:29-48 | after a registration that raised nothing: the clock is the message's; every source has an empty history and mean 0.5 with std 0.5; the news queue is empty; positions are unchanged; the desk stays valid |
| AlgoModel.RegisterSecuritiesRecords | shen_wang_algost.py:33-42 | after a registration that raised nothing, every tradeable security has its starting price, an empty price history and the message's bids and asks |
| AlgoModel.RegisterSecuritiesUntouched | shen_wang_algost.py:33-42 | registration leaves a security that is not in the message as it was |
| AlgoModel.Proportion | shen_wang_algost.py:63-67 | the observation raises ZeroDivisionError exactly for amount 0; otherwise, times `C * amount`, it gives back the price change, negated for a sell |
| AlgoModel.PosteriorMeanBetween | shen_wang_algost.py:70-75 | the updated mean lies between the old mean and the observation |
| AlgoModel.PosteriorVarianceShrinks | shen_wang_algost.py:71-76 | the updated variance is in [0, 1); it is strictly below a positive old variance; the precision grows by exactly 1 |
| AlgoModel.MarketSpecFifo | shen_wang_algost.py:51-77 | update_market records the price for a registered ticker and raises KeyError for another; it removes at most the oldest queued news, only once it is 9 seconds old, and it does remove and score a due news item whenever the lit price is known and its amount is not 0; a head not yet due stays; the removal updates exactly its source's belief by the observation; positions and histories never change, and the desk stays valid |
| AlgoModel.LitStep | shen_wang_algost.py:97-110 | one unwinding step moves the lit position toward 0 by at most 1000 and never past 0 |
| AlgoModel.LitStepMoves | shen_wang_algost.py:97-110 | each step takes min(\|lit\|, 1000) off the absolute position and keeps its sign |
| AlgoModel.LitAfterFlat | shen_wang_algost.py:97-110 | the lit position is 0 after n steps exactly when 1000 n >= \|lit\|, i.e. after ceil(\|lit\| / 1000) calls |
| AlgoModel.TraderCancels | shen_wang_algost.py:85-89 | update_trader cancels at most one order, the first open order; it cancels exactly when that order is a buy priced above its security's current price |
| AlgoModel.TraderLiquidates | shen_wang_algost.py:90-110 | update_trader changes only the positions, and only in the last 90 s; there, when nothing raised, the dark position is 0 and the lit position has made one unwinding step |
| AlgoModel.ShortDarkBuysNegative | shen_wang_algost.py:94-96 | a short dark position is bought back with its own (negative) quantity |
| AlgoModel.ShortLitBuysNegative | shen_wang_algost.py:108-110 | a short lit position of at most 1000 is bought back in one order with its own (negative) quantity |
| AlgoModel.TradeAllPrices | shen_wang_algost.py:112-121 | after trades that raised nothing, each security's price history grew by exactly its trade prices and `cur_price` is the last one, its bids and asks stay; the rest of the desk is unchanged |
| AlgoModel.NewsHedges | shen_wang_algost.py:127-155 | update_news never changes dark + lit; it does nothing in the last 90 s, and raises ValueError without changes for a headline with neither word. When it raised nothing: "buying" moved dark by -1000 and lit by +1000, "selling" the reverse; two orders were placed; exactly one record was appended to the queue and to the source's history |
| AlgoModel.BuyingTakesPrecedence | shen_wang_algost.py:138-146 | a headline with both "buying" and "selling" is treated as buying |
| AlgoModel.MixedHeadline | shen_wang_algost.py:138-146 | a headline containing "selling" before "buying" is still hedged as buying: the words are searched anywhere in the headline |
| AlgoBot.Engine.constructor | shen_wang_algost.py:7-18 | the globals start at time 0, flat positions, no news queue and empty dictionaries |
| AlgoBot.Engine.Register | shen_wang_algost.py:29-48 | register in place ends as RegisterSpec describes, keeping the desk valid |
| AlgoBot.Engine.MarketUpdate | shen_wang_algost.py:51-77 | update_market in place, including the pop, ends as MarketSpec describes |
| AlgoBot.Engine.TraderUpdate | shen_wang_algost.py:80-110 | update_trader in place ends as TraderSpec describes |
| AlgoBot.Engine.Trade | shen_wang_algost.py:112-121 | trade_method in place ends as TradeAll describes |
| AlgoBot.Engine.NewsUpdate | shen_wang_algost.py:127-155 | update_news in place ends as NewsSpec describes |

## Left out

- Ticker.ParseInt: models `int()` on ASCII text only; Python also accepts surrounding whitespace,
  `_` between digits and non-ASCII decimal digits (`int(' 89') == 89`, `int('8_9') == 89`), which
  the model reads as a ValueError. Exchange tickers contain none of these.
- The Black-Scholes kernels `calc_delta`, `calc_gamma`, `calc_vega`, `calc_price` and `calc_vol`
  (`shen_wang_options.py:74-122`, and the same in `options_bot.py`) are transcendental
  floating-point code that the callbacks never call. `calc_gamma` would also fail on the undefined
  `sqrt`.
- py_vollib is not part of this model. Its IV and Greek functions are parameters that return
  either a value or a failure.
- pandas' rolling standard deviation is a parameter applied to each window. Neither its square
  root nor its NaN for a one-price window is modelled. Neither is the pandas-to-list conversion.
- `round(x, 2)` is a parameter.
- The conversions `float(i)` of bid and ask keys, and `int()` of the news body and time, are not
  modelled: the callbacks receive the converted numbers. The hedging engine's bids and asks are
  maps from price to quantity.
- The wall clock (`time.time()`) is not modelled: elapsed seconds are a parameter. `exp_time()` is
  therefore evaluated once per callback, where Python evaluates it at each use.
- All `print` output is left out. This includes the DELTA and VEGA limit warnings of
  `bb_strategy` (`shen_wang_options.py:233-236`), which change nothing.
- `PORTFOLIO['money']`, `['futures']` and `['trades']` are never written; `options_bot.py`'s
  aggregate greeks are never written either; the algost globals `cash`, `topBid`, `topAsk` and
  `position_limit` are never used. None of them is modelled.
- `plot_vol`, `update_order` (which does nothing), the TradersBot connection, the callback wiring
  and `t.run()` are I/O.
- `make_market` is modelled and proved, but `trader_update_method` does not call it: the call is
  commented out in the source.
- Ticker.Lower: lower-cases ASCII letters only. Python's `str.lower()` also folds other Unicode
  letters.
- Python 3's `dict.keys()[0]` raises TypeError (`shen_wang_algost.py:86`). The model follows
  Python 2 and takes the first open order in dictionary order.
- Dictionary iteration order is a sequence parameter: the registration message's securities and
  sources, the open orders, and the positions' tickers. For `MARKET` it is the tracked insertion
  order.
- The hedging engine keeps `MARKET['cur_news']` as a separate field, so a security named
  `cur_news` would not clash with it as the Python dictionary key does.
- AlgoModel.Posterior: stores the belief as mean and variance (std squared). The update reads only
  `std**2`, so the square root that stores `std` back is not modelled.
- Arithmetic is exact: reals for floats (no rounding, no NaN or infinity) and unbounded integers.
  `statistics.mean` is the exact average, with no final rounding to a float.
- AlgoBot.Engine.MarketUpdate: a queued news item's source always has a belief in a valid desk,
  so the engine never takes the KeyError branch that AlgoModel.MarketSpec keeps for a missing
  belief. The same holds for the history append in AlgoBot.Engine.NewsUpdate.
