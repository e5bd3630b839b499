/** The reference matcher: a flat list of accepted orders that is scanned from end to end.

    It has no price levels, no linked lists and no cursors.  An incoming order repeatedly takes
    the best crossing price among all resting orders of the other side, and among those the
    order that was accepted first.  Module Engine proves that tools/sim/engine.c refines it. */
module MatchSpec {
  import opened Wrappers

  /** An accepted order.  `side` is 0 for a buy and anything else for a sell; `size` is what is left. */
  datatype Order = Order(trader: nat, level: nat, side: nat, size: nat)

  /** One line of the trade log, with the ids of the two orders that met. */
  datatype Trade = Trade(buyer: nat, seller: nat, price: nat, size: nat, buyOrder: nat, sellOrder: nat)

  datatype Outcome = Outcome(orders: seq<Order>, trades: seq<Trade>)

  predicate IsBuy(o: Order) {
    o.side == 0
  }

  /** May the order `id` trade with the resting order `i`? */
  predicate Crosses(orders: seq<Order>, id: nat, i: nat)
    requires id < |orders|
  {
    && i < id
    && orders[i].size > 0
    && IsBuy(orders[i]) != IsBuy(orders[id])
    && if IsBuy(orders[id]) then orders[i].level <= orders[id].level else orders[id].level <= orders[i].level
  }

  /** Is the price of `i` strictly better than that of `j` for the order `id`? */
  predicate BetterPrice(orders: seq<Order>, id: nat, i: nat, j: nat)
    requires id < |orders| && i < |orders| && j < |orders|
  {
    if IsBuy(orders[id]) then orders[i].level < orders[j].level else orders[j].level < orders[i].level
  }

  /** Price-time priority: a better price, or the same price and an earlier id. */
  predicate Ahead(orders: seq<Order>, id: nat, i: nat, j: nat)
    requires id < |orders| && i < |orders| && j < |orders|
  {
    BetterPrice(orders, id, i, j) || (orders[i].level == orders[j].level && i < j)
  }

  /** Scan the first `n` orders for the one that `id` must trade with next. */
  function Best(orders: seq<Order>, id: nat, n: nat): (r: Option<nat>)
    requires id < |orders| && n <= id
    ensures r.Some? ==> r.value < n && Crosses(orders, id, r.value)
    ensures r.Some? ==> forall j: nat | j < n && Crosses(orders, id, j) && j != r.value :: Ahead(orders, id, r.value, j)
    ensures r.None? ==> forall j: nat | j < n :: !Crosses(orders, id, j)
  {
    if n == 0 then None
    else
      var best := Best(orders, id, n - 1);
      if Crosses(orders, id, n - 1) && (best.None? || BetterPrice(orders, id, n - 1, best.value)) then Some(n - 1)
      else best
  }

  /** Priority singles out one order, so any order that is ahead of all others is the one the scan finds. */
  lemma BestIsUnique(orders: seq<Order>, id: nat, b: nat)
    requires id < |orders|
    requires Crosses(orders, id, b)
    requires forall j: nat | j < id && Crosses(orders, id, j) && j != b :: Ahead(orders, id, b, j)
    ensures Best(orders, id, id) == Some(b)
  {
  }

  function Min(a: nat, b: nat): nat {
    if a < b then a else b
  }

  /** Take `q` from both orders. */
  function Fill(orders: seq<Order>, id: nat, b: nat, q: nat): seq<Order>
    requires b < id < |orders| && q <= orders[id].size && q <= orders[b].size
  {
    orders[id := orders[id].(size := orders[id].size - q)][b := orders[b].(size := orders[b].size - q)]
  }

  /** The trade is always at the price of the resting order. */
  function TradeOf(orders: seq<Order>, id: nat, b: nat, q: nat): Trade
    requires b < id < |orders|
  {
    if IsBuy(orders[id]) then Trade(orders[id].trader, orders[b].trader, orders[b].level, q, id, b)
    else Trade(orders[b].trader, orders[id].trader, orders[b].level, q, b, id)
  }

  function Prepend(t: Trade, o: Outcome): Outcome {
    Outcome(o.orders, [t] + o.trades)
  }

  /** Trade the order `id` against the resting orders until it is filled or nothing crosses it. */
  function MatchAll(orders: seq<Order>, id: nat): (r: Outcome)
    requires id < |orders|
    ensures |r.orders| == |orders|
    decreases orders[id].size
  {
    var best := Best(orders, id, id);
    if orders[id].size == 0 || best.None? then Outcome(orders, [])
    else
      var b := best.value;
      var q := Min(orders[id].size, orders[b].size);
      Prepend(TradeOf(orders, id, b, q), MatchAll(Fill(orders, id, b, q), id))
  }

  /** Everything the market remembers. */
  datatype Market = Market(orders: seq<Order>, trades: seq<Trade>)

  const EMPTY_MARKET := Market([], [])

  datatype Limits = Limits(maxLevel: nat, maxOrders: nat)

  predicate Accepts(m: Market, o: Order, lim: Limits) {
    |m.orders| < lim.maxOrders && 1 <= o.level <= lim.maxLevel && o.size > 0
  }

  function Limit(m: Market, o: Order, lim: Limits): Market {
    if !Accepts(m, o, lim) then m
    else
      var r := MatchAll(m.orders + [o], |m.orders|);
      Market(r.orders, m.trades + r.trades)
  }

  predicate Cancellable(m: Market, id: nat) {
    id < |m.orders| && m.orders[id].size > 0
  }

  function Cancel(m: Market, id: nat): Market {
    if !Cancellable(m, id) then m
    else m.(orders := m.orders[id := m.orders[id].(size := 0)])
  }

  datatype Command = LimitCmd(order: Order) | CancelCmd(id: nat)

  function Step(m: Market, c: Command, lim: Limits): Market {
    match c
    case LimitCmd(o) => Limit(m, o, lim)
    case CancelCmd(id) => Cancel(m, id)
  }

  /** The market after a run of commands, from the empty book. */
  function Run(cmds: seq<Command>, lim: Limits): Market
    decreases |cmds|
  {
    if cmds == [] then EMPTY_MARKET
    else Step(Run(cmds[..|cmds| - 1], lim), cmds[|cmds| - 1], lim)
  }
}
