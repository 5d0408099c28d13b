/** The portfolio ledger of shen_wang_options.py, make_order: every order placed adds (buy) or
    subtracts (sell) its quantity and its quantity-scaled Greeks to the position record and to the
    aggregate Greeks, and counts its quantity in PORTFOLIO['options'].
    As written, the guard meant to create a position record on the first fill tests
    `security not in PORTFOLIO` rather than `security not in PORTFOLIO['positions']`; no ticker is a
    top-level key of PORTFOLIO, so the position record is reset to zeros on every call. The model
    keeps that behaviour. */
module SwLedger {
  import opened Common
  import opened SwMarket

  /** PORTFOLIO['positions'][security]; `price` is None until a buy writes it. */
  datatype Position = Position(quant: int, price: Option<real>, delta: real, gamma: real, vega: real)

  /** PORTFOLIO: the positions, the aggregate Greeks and the options counter. */
  datatype Portfolio = Portfolio(positions: map<string, Position>, delta: real, gamma: real, vega: real, options: int)

  /** The top-level keys of PORTFOLIO, which the guard of make_order tests a ticker against. */
  const PORTFOLIO_KEYS: set<string> := {"positions", "money", "options", "futures", "greeks"}

  const EMPTY_PORTFOLIO: Portfolio := Portfolio(map[], 0.0, 0.0, 0.0, 0)

  /** quant * delta(...), quant * gamma(...), quant * vega(...) */
  datatype Greeks = Greeks(delta: real, gamma: real, vega: real)

  /** The Greeks make_order computes before touching PORTFOLIO: the arguments MARKET[security]['strike']
      and ['cur_iv'] raise KeyError when absent, and a py_vollib call may raise. */
  function OrderGreeks(r: Security, quant: int, t: real, greek: GreekOracle): (g: Result<Greeks>)
    ensures g == Err(KeyError) <==> r.strike.None? || r.curIv.None?
    ensures g.Ok? <==> && r.strike.Some? && r.curIv.Some?
                       && greek(Delta, r.kind, r.strike.value, t, r.curIv.value).Some?
                       && greek(Gamma, r.kind, r.strike.value, t, r.curIv.value).Some?
                       && greek(Vega, r.kind, r.strike.value, t, r.curIv.value).Some?
    ensures g.Ok? && quant == 0 ==> g.value == Greeks(0.0, 0.0, 0.0)
  {
    if r.strike.None? || r.curIv.None? then Err(KeyError)
    else
      var (d, gm, v) := (greek(Delta, r.kind, r.strike.value, t, r.curIv.value),
                         greek(Gamma, r.kind, r.strike.value, t, r.curIv.value),
                         greek(Vega, r.kind, r.strike.value, t, r.curIv.value));
      if d.None? || gm.None? || v.None? then Err(PricingError)
      else Ok(Greeks(quant as real * d.value, quant as real * gm.value, quant as real * v.value))
  }

  /** The ledger part of make_order, once the Greeks g are known. */
  function Fill(p: Portfolio, side: Side, security: string, quant: int, price: real, g: Greeks): (Portfolio, Outcome)
  {
    var positions := if security !in PORTFOLIO_KEYS then p.positions[security := Position(0, None, 0.0, 0.0, 0.0)] else p.positions;
    if security !in positions then (p, Fail(KeyError))
    else
      var pos := positions[security];
      match side
      case BuySide =>
        (Portfolio(positions[security := Position(pos.quant + quant, Some(price), pos.delta + g.delta, pos.gamma + g.gamma, pos.vega + g.vega)],
                   p.delta + g.delta, p.gamma + g.gamma, p.vega + g.vega, p.options + quant), Pass)
      case SellSide =>
        (Portfolio(positions[security := Position(pos.quant - quant, pos.price, pos.delta - g.delta, pos.gamma - g.gamma, pos.vega - g.vega)],
                   p.delta - g.delta, p.gamma - g.gamma, p.vega - g.vega, p.options + quant), Pass)
  }

  function OrderFor(side: Side, security: string, quant: int, price: real): Order
  {
    match side
    case BuySide => Buy(security, quant, price)
    case SellSide => Sell(security, quant, price)
  }

  /** make_order(order, side, security, quant, price) at time to expiry t: the new PORTFOLIO, the
      orders added to the order object, and whether it raised. The order is placed before the
      position is updated. */
  function MakeOrderSpec(m: map<string, Security>, p: Portfolio, side: Side, security: string, quant: int, price: real, t: real, greek: GreekOracle)
    : (Portfolio, seq<Order>, Outcome)
  {
    if security !in m then (p, [], Fail(KeyError))
    else
      match OrderGreeks(m[security], quant, t, greek)
      case Err(e) => (p, [], Fail(e))
      case Ok(g) =>
        var (p', out) := Fill(p, side, security, quant, price, g);
        (p', [OrderFor(side, security, quant, price)], out)
  }

  /** What a fill does to the aggregates: a buy adds the Greeks, a sell subtracts them, and either
      adds its quantity to the options counter; for every ticker the position is rebuilt from zero
      (the guard quirk), so it holds this fill alone; other positions are untouched. */
  lemma FillLedger(p: Portfolio, side: Side, security: string, quant: int, price: real, g: Greeks)
    requires security !in PORTFOLIO_KEYS
    ensures var (p', out) := Fill(p, side, security, quant, price, g);
      && out == Pass
      && p'.options == p.options + quant
      && (side == BuySide ==> p'.delta == p.delta + g.delta && p'.gamma == p.gamma + g.gamma && p'.vega == p.vega + g.vega)
      && (side == SellSide ==> p'.delta == p.delta - g.delta && p'.gamma == p.gamma - g.gamma && p'.vega == p.vega - g.vega)
      && p'.positions.Keys == p.positions.Keys + {security}
      && (forall s :: s in p.positions && s != security ==> p'.positions[s] == p.positions[s])
      && (side == BuySide ==> p'.positions[security] == Position(quant, Some(price), g.delta, g.gamma, g.vega))
      && (side == SellSide ==> p'.positions[security] == Position(-quant, None, -g.delta, -g.gamma, -g.vega))
  {
  }

  /** A buy followed by a sell of the same quantity with the same Greeks restores the aggregate
      delta, gamma and vega exactly, and counts the quantity twice. The position record is not
      restored: the sell reset it first, so it holds minus the quantity. */
  lemma BuyThenSellRestoresAggregates(p: Portfolio, security: string, quant: int, buyPrice: real, sellPrice: real, g: Greeks)
    requires security !in PORTFOLIO_KEYS
    ensures var p1 := Fill(p, BuySide, security, quant, buyPrice, g).0;
      var p2 := Fill(p1, SellSide, security, quant, sellPrice, g).0;
      && p2.delta == p.delta && p2.gamma == p.gamma && p2.vega == p.vega
      && p2.options == p.options + 2 * quant
      && p2.positions[security] == Position(-quant, None, -g.delta, -g.gamma, -g.vega)
  {
    FillLedger(p, BuySide, security, quant, buyPrice, g);
    FillLedger(Fill(p, BuySide, security, quant, buyPrice, g).0, SellSide, security, quant, sellPrice, g);
  }

  /** make_order places exactly the order it was asked for unless the Greeks raised, and only
      changes PORTFOLIO when it placed it. */
  lemma MakeOrderPlacesOne(m: map<string, Security>, p: Portfolio, side: Side, security: string, quant: int, price: real, t: real, greek: GreekOracle)
    ensures var (p', orders, out) := MakeOrderSpec(m, p, side, security, quant, price, t, greek);
      && |orders| <= 1
      && (orders == [] ==> p' == p && out.Fail?)
      && (out == Pass ==> orders == [OrderFor(side, security, quant, price)])
      && (security !in m ==> out == Fail(KeyError))
      && (security in m && security !in PORTFOLIO_KEYS && OrderGreeks(m[security], quant, t, greek).Ok? ==> out == Pass)
  {
  }
}
