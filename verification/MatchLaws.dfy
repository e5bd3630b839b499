/** What the reference matcher guarantees, for every incoming order and for every run. */
module MatchLaws {
  import opened MatchSpec
  import opened Wrappers

  // ----- one incoming order ---------------------------------------------------------------

  /** Total resting size among the first `n` orders that `id` may trade with. */
  ghost function Available(orders: seq<Order>, id: nat, n: nat): nat
    requires id < |orders| && n <= id
  {
    if n == 0 then 0
    else Available(orders, id, n - 1) + if Crosses(orders, id, n - 1) then orders[n - 1].size else 0
  }

  /** Total size of a list of trades. */
  ghost function Volume(trades: seq<Trade>): nat {
    if trades == [] then 0 else trades[0].size + Volume(trades[1..])
  }

  /** Size that order `i` traded in a list of trades. */
  ghost function TradedBy(trades: seq<Trade>, i: nat): nat {
    if trades == [] then 0
    else (if trades[0].buyOrder == i || trades[0].sellOrder == i then trades[0].size else 0) + TradedBy(trades[1..], i)
  }

  lemma {:induction false} AvailableAfterFill(orders: seq<Order>, id: nat, b: nat, q: nat, n: nat)
    requires id < |orders| && n <= id
    requires Crosses(orders, id, b) && q <= orders[id].size && q <= orders[b].size
    ensures Available(Fill(orders, id, b, q), id, n) == Available(orders, id, n) - (if b < n then q else 0)
  {
    if n > 0 {
      AvailableAfterFill(orders, id, b, q, n - 1);
    }
  }

  lemma {:induction false} NothingAvailable(orders: seq<Order>, id: nat, n: nat)
    requires id < |orders| && n <= id
    requires forall j: nat | j < n :: !Crosses(orders, id, j)
    ensures Available(orders, id, n) == 0
  {
    if n > 0 {
      NothingAvailable(orders, id, n - 1);
    }
  }

  lemma {:induction false} AvailableIsPositive(orders: seq<Order>, id: nat, b: nat, n: nat)
    requires id < |orders| && b < n <= id && Crosses(orders, id, b)
    ensures Available(orders, id, n) >= orders[b].size
  {
    if b < n - 1 {
      AvailableIsPositive(orders, id, b, n - 1);
    }
  }

  /** An incoming order executes exactly the smaller of its own size and everything it crosses. */
  lemma {:induction false} ExecutesExactly(orders: seq<Order>, id: nat)
    requires id < |orders|
    ensures Volume(MatchAll(orders, id).trades) == Min(orders[id].size, Available(orders, id, id))
    ensures MatchAll(orders, id).orders[id].size == orders[id].size - Volume(MatchAll(orders, id).trades)
    decreases orders[id].size
  {
    var best := Best(orders, id, id);
    if best.None? {
      NothingAvailable(orders, id, id);
    } else if orders[id].size > 0 {
      var b := best.value;
      var q := Min(orders[id].size, orders[b].size);
      AvailableAfterFill(orders, id, b, q, id);
      AvailableIsPositive(orders, id, b, id);
      ExecutesExactly(Fill(orders, id, b, q), id);
    }
  }

  /** Matching changes sizes only; every size goes down by exactly what that order traded. */
  lemma {:induction false} MatchConserves(orders: seq<Order>, id: nat, i: nat)
    requires id < |orders| && i < |orders|
    ensures var r := MatchAll(orders, id);
            && orders[i].size == r.orders[i].size + TradedBy(r.trades, i)
            && r.orders[i] == orders[i].(size := r.orders[i].size)
    decreases orders[id].size
  {
    var best := Best(orders, id, id);
    if best.Some? && orders[id].size > 0 {
      var b := best.value;
      var q := Min(orders[id].size, orders[b].size);
      MatchConserves(Fill(orders, id, b, q), id, i);
    }
  }

  /** A trade of `id` with a resting order: opposite sides, at the resting price, inside the limit of `id`. */
  ghost predicate FairTrade(orders: seq<Order>, id: nat, t: Trade) {
    && t.buyOrder < |orders| && t.sellOrder < |orders|
    && id == (if t.buyOrder > t.sellOrder then t.buyOrder else t.sellOrder)
    && IsBuy(orders[t.buyOrder]) && !IsBuy(orders[t.sellOrder])
    && t.buyer == orders[t.buyOrder].trader && t.seller == orders[t.sellOrder].trader
    && t.price == orders[if t.buyOrder == id then t.sellOrder else t.buyOrder].level
    && orders[t.sellOrder].level <= t.price <= orders[t.buyOrder].level
    && t.size > 0
  }

  lemma {:induction false} TradesAreFair(orders: seq<Order>, id: nat, k: nat)
    requires id < |orders| && k < |MatchAll(orders, id).trades|
    ensures FairTrade(orders, id, MatchAll(orders, id).trades[k])
    decreases orders[id].size
  {
    var b := Best(orders, id, id).value;
    var q := Min(orders[id].size, orders[b].size);
    if k > 0 {
      TradesAreFair(Fill(orders, id, b, q), id, k - 1);
    }
  }

  /** Price-time priority: if `j` lost anything, every crossing order ahead of `j` is exhausted. */
  lemma {:induction false} PriorityIsKept(orders: seq<Order>, id: nat, i: nat, j: nat)
    requires id < |orders| && Crosses(orders, id, i) && Crosses(orders, id, j) && Ahead(orders, id, i, j)
    ensures var r := MatchAll(orders, id).orders;
            r[j].size < orders[j].size ==> r[i].size == 0
    decreases orders[id].size
  {
    if orders[id].size > 0 {
      var b := Best(orders, id, id).value;
      var q := Min(orders[id].size, orders[b].size);
      var next := Fill(orders, id, b, q);
      if next[i].size == 0 {
        MatchConserves(next, id, i);
      } else {
        assert b != j;
        if next[id].size > 0 {
          assert b != i;
        }
        PriorityIsKept(next, id, i, j);
      }
    }
  }

  /** Matching leaves the order filled or alone: nothing it could still trade with is resting. */
  lemma {:induction false} MatchExhausts(orders: seq<Order>, id: nat, j: nat)
    requires id < |orders| && j < id
    ensures var r := MatchAll(orders, id).orders; r[id].size > 0 ==> !Crosses(r, id, j)
    decreases orders[id].size
  {
    var best := Best(orders, id, id);
    if best.Some? && orders[id].size > 0 {
      var b := best.value;
      MatchExhausts(Fill(orders, id, b, Min(orders[id].size, orders[b].size)), id, j);
    }
  }

  // ----- every run ------------------------------------------------------------------------

  /** No resting buy is priced at or above a resting sell. */
  ghost predicate Uncrossed(orders: seq<Order>) {
    forall i: nat, j: nat | i < |orders| && j < |orders| ::
      orders[i].size > 0 && orders[j].size > 0 && IsBuy(orders[i]) && !IsBuy(orders[j])
      ==> orders[i].level < orders[j].level
  }

  lemma LimitStaysUncrossed(m: Market, o: Order, lim: Limits)
    requires Uncrossed(m.orders)
    ensures Uncrossed(Limit(m, o, lim).orders)
  {
    if Accepts(m, o, lim) {
      var before := m.orders + [o];
      var id := |m.orders|;
      var after := MatchAll(before, id).orders;
      forall i: nat, j: nat | i < |after| && j < |after| && after[i].size > 0 && after[j].size > 0
                              && IsBuy(after[i]) && !IsBuy(after[j])
        ensures after[i].level < after[j].level
      {
        MatchConserves(before, id, i);
        MatchConserves(before, id, j);
        if i == id {
          MatchExhausts(before, id, j);
        } else if j == id {
          MatchExhausts(before, id, i);
        } else {
          assert before[i] == m.orders[i] && before[j] == m.orders[j];
        }
      }
    }
  }

  /** In every run the book is never crossed. */
  lemma {:induction false} NeverCrossed(cmds: seq<Command>, lim: Limits)
    ensures Uncrossed(Run(cmds, lim).orders)
    decreases |cmds|
  {
    if cmds != [] {
      var prev := cmds[..|cmds| - 1];
      NeverCrossed(prev, lim);
      match cmds[|cmds| - 1]
      case LimitCmd(o) => LimitStaysUncrossed(Run(prev, lim), o, lim);
      case CancelCmd(_) =>
    }
  }

  /** The sizes that were accepted, and the sizes that were cancelled, order by order. */
  datatype Ledger = Ledger(accepted: seq<nat>, cancelled: seq<nat>)

  ghost function Book(l: Ledger, m: Market, c: Command, lim: Limits): Ledger
    requires |l.cancelled| == |m.orders|
  {
    match c
    case LimitCmd(o) =>
      if Accepts(m, o, lim) then Ledger(l.accepted + [o.size], l.cancelled + [0]) else l
    case CancelCmd(id) =>
      if Cancellable(m, id) then l.(cancelled := l.cancelled[id := l.cancelled[id] + m.orders[id].size]) else l
  }

  ghost function RunLedger(cmds: seq<Command>, lim: Limits): (l: Ledger)
    ensures |l.accepted| == |l.cancelled| == |Run(cmds, lim).orders|
    decreases |cmds|
  {
    if cmds == [] then Ledger([], [])
    else
      var prev := cmds[..|cmds| - 1];
      Book(RunLedger(prev, lim), Run(prev, lim), cmds[|cmds| - 1], lim)
  }

  lemma {:induction false} TradedByAppend(a: seq<Trade>, b: seq<Trade>, i: nat)
    ensures TradedBy(a + b, i) == TradedBy(a, i) + TradedBy(b, i)
  {
    if a == [] {
      assert a + b == b;
    } else {
      assert (a + b)[1..] == a[1..] + b;
      TradedByAppend(a[1..], b, i);
    }
  }

  /** No trade mentions an order that was never accepted. */
  lemma {:induction false} TradesNameAccepted(cmds: seq<Command>, lim: Limits, k: nat)
    requires k < |Run(cmds, lim).trades|
    ensures var m := Run(cmds, lim); m.trades[k].buyOrder < |m.orders| && m.trades[k].sellOrder < |m.orders|
    decreases |cmds|
  {
    var prev := cmds[..|cmds| - 1];
    var m := Run(prev, lim);
    if k < |m.trades| {
      TradesNameAccepted(prev, lim, k);
    } else {
      var o := cmds[|cmds| - 1].order;
      TradesAreFair(m.orders + [o], |m.orders|, k - |m.trades|);
    }
  }

  lemma {:induction false} NotYetTraded(trades: seq<Trade>, i: nat)
    requires forall k | 0 <= k < |trades| :: trades[k].buyOrder != i && trades[k].sellOrder != i
    ensures TradedBy(trades, i) == 0
  {
    if trades != [] {
      NotYetTraded(trades[1..], i);
    }
  }

  /** Conservation: in every run, accepted size = remaining + traded + cancelled, for every order. */
  lemma {:induction false} Conservation(cmds: seq<Command>, lim: Limits, i: nat)
    requires i < |Run(cmds, lim).orders|
    ensures var m, l := Run(cmds, lim), RunLedger(cmds, lim);
            && l.accepted[i] == m.orders[i].size + TradedBy(m.trades, i) + l.cancelled[i]
    decreases |cmds|
  {
    var prev := cmds[..|cmds| - 1];
    var m, l := Run(prev, lim), RunLedger(prev, lim);
    if i < |m.orders| {
      Conservation(prev, lim, i);
    }
    match cmds[|cmds| - 1]
    case CancelCmd(_) =>
    case LimitCmd(o) =>
      if Accepts(m, o, lim) {
        var before := m.orders + [o];
        MatchConserves(before, |m.orders|, i);
        TradedByAppend(m.trades, MatchAll(before, |m.orders|).trades, i);
        if i == |m.orders| {
          forall k | 0 <= k < |m.trades|
            ensures m.trades[k].buyOrder != i && m.trades[k].sellOrder != i
          {
            TradesNameAccepted(prev, lim, k);
          }
          NotYetTraded(m.trades, i);
        }
      }
  }

  // ----- what each command does -----------------------------------------------------------

  /** Price-time priority in plain numbers: while a cheaper offer, or an earlier one at the same price, has anything
      left, a buy takes nothing from another; for a sell it is the higher bid. */
  lemma BestPriceFirst(orders: seq<Order>, id: nat, i: nat, j: nat)
    requires i < id < |orders| && j < id && orders[i].size > 0 && orders[j].size > 0
    requires (orders[i].side == 0) == (orders[j].side == 0) != (orders[id].side == 0)
    requires var best, other, limit := orders[i].level, orders[j].level, orders[id].level;
      || (orders[id].side == 0 && best <= limit && other <= limit && (best < other || (best == other && i < j)))
      || (orders[id].side != 0 && best >= limit && other >= limit && (best > other || (best == other && i < j)))
    ensures var r := MatchAll(orders, id).orders; r[j].size < orders[j].size ==> r[i].size == 0
  {
    PriorityIsKept(orders, id, i, j);
  }

  lemma RunOneMore(cmds: seq<Command>, c: Command, lim: Limits)
    ensures Run(cmds + [c], lim) == Step(Run(cmds, lim), c, lim)
  {
    assert (cmds + [c])[..|cmds + [c]| - 1] == cmds;
  }

  /** In every run a limit order is taken exactly if there is room for it, its level exists and it has a size: then
      there is one order more, with its trader, level and side, and the others keep theirs. If it is not taken,
      nothing changes. */
  lemma OrderIsTakenExactly(cmds: seq<Command>, o: Order, lim: Limits)
    ensures var m, r := Run(cmds, lim), Run(cmds + [LimitCmd(o)], lim);
      if |m.orders| < lim.maxOrders && 1 <= o.level <= lim.maxLevel && o.size >= 1 then
        && |r.orders| == |m.orders| + 1
        && r.orders[|m.orders|] == o.(size := r.orders[|m.orders|].size)
        && (forall i | 0 <= i < |m.orders| :: r.orders[i] == m.orders[i].(size := r.orders[i].size))
        && m.trades <= r.trades
      else r == m
  {
    RunOneMore(cmds, LimitCmd(o), lim);
    var m, r := Run(cmds, lim), Run(cmds + [LimitCmd(o)], lim);
    if Accepts(m, o, lim) {
      forall i | 0 <= i < |r.orders| ensures r.orders[i] == (m.orders + [o])[i].(size := r.orders[i].size) {
        MatchConserves(m.orders + [o], |m.orders|, i);
      }
    }
  }

  /** In every run a cancel takes all that is left of the order it names, and nothing else; of an order that has
      nothing left, or was never taken, it takes nothing. */
  lemma CancelTakesExactly(cmds: seq<Command>, id: nat, lim: Limits)
    ensures var m, r := Run(cmds, lim), Run(cmds + [CancelCmd(id)], lim);
      && r.trades == m.trades && |r.orders| == |m.orders|
      && (forall i | 0 <= i < |m.orders| :: r.orders[i] == if i == id then m.orders[i].(size := 0) else m.orders[i])
      && (r != m <==> id < |m.orders| && m.orders[id].size >= 1)
  {
    RunOneMore(cmds, CancelCmd(id), lim);
  }

  /** The answers of do_limit and do_cancel: a command is accepted exactly if it changes the market. */
  lemma AcceptedIfItChanges(m: Market, o: Order, id: nat, lim: Limits)
    ensures Accepts(m, o, lim) <==> Limit(m, o, lim) != m
    ensures Cancellable(m, id) <==> Cancel(m, id) != m
  {
    if Accepts(m, o, lim) {
      assert |Limit(m, o, lim).orders| == |m.orders| + 1;
    }
  }
}
