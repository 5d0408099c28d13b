/** Vocabulary shared by the three trading bots: Python's failure modes, the orders the bots
    place on the exchange's order object, the oracles standing for the py_vollib library, and the
    `statistics` module's mean, min and max over a list of floats (modelled as reals). */
module Common {

  datatype Option<T> = None | Some(value: T) {
    function GetOr(default: T): T {
      if Some? then value else default
    }
  }

  /** The Python exception a handler stops at. Whatever the handler had changed before that
      point stays changed; the model keeps exactly that partial state. */
  datatype Error =
    | KeyError           // a dictionary lookup of an absent key
    | IndexError         // s[-1] on an empty string or list
    | ValueError         // int() of a string that is no integer literal, or an explicit raise
    | StatisticsError    // statistics.mean of an empty list
    | ZeroDivisionError  // float division by zero
    | PricingError       // an exception raised inside py_vollib

  datatype Outcome = Pass | Fail(error: Error)

  datatype Result<T> = Ok(value: T) | Err(error: Error)

  /** An order added to the exchange's order object (addBuy, addSell, addCancel). */
  datatype Order =
    | Buy(ticker: string, quantity: int, price: real)
    | Sell(ticker: string, quantity: int, price: real)
    | Cancel(ticker: string, orderId: string)

  /** The side of an order a bot places. */
  datatype Side = BuySide | SellSide

  /** One entry of msg['case_meta']['securities'] of the registration message. */
  datatype SecInfo = SecInfo(ticker: string, tradeable: bool, startingPrice: real)

  /** One entry of msg['trades'] of a trade message. */
  datatype TradeRecord = TradeRecord(ticker: string, price: real)

  /** The prices of the trades in `trades` for one ticker, in order. */
  function PricesFor(trades: seq<TradeRecord>, ticker: string): seq<real>
    decreases |trades|
  {
    if trades == [] then []
    else (if trades[0].ticker == ticker then [trades[0].price] else []) + PricesFor(trades[1..], ticker)
  }

  /** py_vollib's implied_volatility(price, F = 100, K = strike, r = 0, t, flag): a value, or None
      when it raises. */
  type IvSolver = (real, int, real, char) -> Option<real>

  datatype Greek = Delta | Gamma | Vega

  /** py_vollib's analytical delta, gamma and vega(flag, F = 100, K = strike, t, r = 0, sigma), per
      unit of the option; None when it raises. Arguments: which Greek, flag, strike, t, sigma. */
  type GreekOracle = (Greek, char, int, real, real) -> Option<real>

  function Last<T>(s: seq<T>): T
    requires s != []
  {
    s[|s| - 1]
  }

  function Sum(s: seq<real>): real
  {
    if s == [] then 0.0 else Sum(s[..|s| - 1]) + s[|s| - 1]
  }

  /** statistics.mean; the caller handles the StatisticsError of an empty list. */
  function Mean(s: seq<real>): real
    requires s != []
  {
    Sum(s) / (|s| as real)
  }

  function Min(s: seq<real>): (m: real)
    requires s != []
    ensures m in s
    ensures forall i :: 0 <= i < |s| ==> m <= s[i]
  {
    if |s| == 1 then s[0]
    else
      var rest := Min(s[..|s| - 1]);
      if s[|s| - 1] < rest then s[|s| - 1] else rest
  }

  function Max(s: seq<real>): (m: real)
    requires s != []
    ensures m in s
    ensures forall i :: 0 <= i < |s| ==> s[i] <= m
  {
    if |s| == 1 then s[0]
    else
      var rest := Max(s[..|s| - 1]);
      if s[|s| - 1] > rest then s[|s| - 1] else rest
  }

  lemma MulMonotone(n: real, a: real, b: real)
    requires n >= 0.0 && a <= b
    ensures n * a <= n * b
  {
    assert n * b - n * a == n * (b - a);
  }

  /** A lower bound of every element, taken once per element, never exceeds the sum. */
  lemma {:induction false} SumAtLeast(s: seq<real>, x: real)
    requires forall i :: 0 <= i < |s| ==> x <= s[i]
    ensures (|s| as real) * x <= Sum(s)
  {
    if s != [] {
      var init := s[..|s| - 1];
      SumAtLeast(init, x);
      assert (|s| as real) * x == (|init| as real) * x + x;
    }
  }

  /** An upper bound of every element, taken once per element, is never below the sum. */
  lemma {:induction false} SumAtMost(s: seq<real>, x: real)
    requires forall i :: 0 <= i < |s| ==> s[i] <= x
    ensures Sum(s) <= (|s| as real) * x
  {
    if s != [] {
      var init := s[..|s| - 1];
      SumAtMost(init, x);
      assert (|s| as real) * x == (|init| as real) * x + x;
    }
  }

  /** The mean of a non-empty list lies between its minimum and its maximum. */
  lemma MeanBounds(s: seq<real>)
    requires s != []
    ensures Min(s) <= Mean(s) <= Max(s)
  {
    var n := |s| as real;
    var lo, hi := Min(s), Max(s);
    SumAtLeast(s, lo);
    SumAtMost(s, hi);
    DivideBounds(Sum(s), n, lo, hi);
  }

  lemma DivideBounds(total: real, n: real, lo: real, hi: real)
    requires n > 0.0 && n * lo <= total <= n * hi
    ensures lo <= total / n <= hi
  {
    var q := total / n;
    assert total == n * q;
  }

  /** statistics.mean of a two-element list, as make_market uses it. */
  lemma MeanOfTwo(a: real, b: real)
    ensures Mean([a, b]) == (a + b) / 2.0
  {
    assert [a, b][..1] == [a];
    assert [a][..0] == [];
    assert Sum([a]) == a;
    assert Sum([a, b]) == a + b;
  }

  /** The try/except around an implied-volatility solve in the quote and trade handlers: the solved
      value, or the sentinel 0 when the solve raised, becomes cur_iv and is appended to ivs. When the
      record has no ivs list the append raises KeyError inside the except clause, after cur_iv has
      been set to 0. Returns the new cur_iv, the new ivs and whether an exception escaped. */
  function RecordIv(ivs: Option<seq<real>>, solved: Option<real>): (r: (real, Option<seq<real>>, Outcome))
    ensures ivs.Some? ==> r.1.Some? && |r.1.value| == |ivs.value| + 1 && r.2 == Pass
    ensures ivs.Some? ==> r.1.value[..|ivs.value|] == ivs.value && Last(r.1.value) == r.0
    ensures ivs.None? ==> r.0 == 0.0 && r.1.None? && r.2 == Fail(KeyError)
    ensures solved.None? ==> r.0 == 0.0
    ensures solved.Some? && ivs.Some? ==> r.0 == solved.value
  {
    match ivs
    case Some(history) =>
      var v := solved.GetOr(0.0);
      (v, Some(history + [v]), Pass)
    case None => (0.0, None, Fail(KeyError))
  }
}
