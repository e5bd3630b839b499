/** The matching engine of tools/sim/engine.c, updated in place: an array of orders, threaded into
    one doubly linked list per price level, and two cursors that bound the best prices.

    A pointer to an order is the index of its slot in `orders`; NIL is the null pointer. */
module Engine {
  import opened MatchSpec
  import opened Wrappers

  const NIL: int := -1

  /** One slot of the order array. */
  datatype Slot = Slot(trader: nat, level: nat, next: int, prev: int, side: nat, size: nat)

  datatype Level = Level(head: int, tail: int)

  // ----- linked lists ---------------------------------------------------------------------

  /** The order at position `k` of `queue` points at its two neighbours there. */
  ghost predicate LinkAt(slots: seq<Slot>, queue: seq<nat>, k: nat)
    requires k < |queue|
  {
    && queue[k] < |slots|
    && slots[queue[k]].next == (if k + 1 < |queue| then queue[k + 1] else NIL)
    && slots[queue[k]].prev == (if k > 0 then queue[k - 1] else NIL)
  }

  /** `level` and the links in `slots` are the list of the order ids `queue`. */
  ghost predicate Linked(slots: seq<Slot>, level: Level, queue: seq<nat>) {
    && level.head == (if queue == [] then NIL else queue[0])
    && level.tail == (if queue == [] then NIL else queue[|queue| - 1])
    && forall k | 0 <= k < |queue| :: LinkAt(slots, queue, k)
  }

  /** The queue of one price level: live orders of that price, in the order they were accepted. */
  ghost predicate GoodQueue(slots: seq<Slot>, count: nat, price: nat, queue: seq<nat>)
    requires count <= |slots|
  {
    && (forall k | 0 <= k < |queue| :: queue[k] < count)
    && (forall k | 0 <= k < |queue| :: slots[queue[k]].level == price && slots[queue[k]].size > 0)
    && (forall j, k | 0 <= j < k < |queue| :: queue[j] < queue[k])
  }

  /** The slots after `id` was linked behind `level.tail`. */
  ghost function Appended(slots: seq<Slot>, level: Level, id: nat): seq<Slot>
    requires id < |slots| && NIL <= level.tail < |slots| && (level.head != NIL ==> level.tail != NIL)
  {
    if level.head != NIL then
      slots[level.tail := slots[level.tail].(next := id)][id := slots[id].(prev := level.tail, next := NIL)]
    else
      slots[id := slots[id].(prev := NIL, next := NIL)]
  }

  /** The slots after `id` was unlinked from its neighbours. */
  ghost function Unlinked(slots: seq<Slot>, id: nat): seq<Slot>
    requires id < |slots| && NIL <= slots[id].prev < |slots| && NIL <= slots[id].next < |slots|
    requires slots[id].prev != id && slots[id].next != id
  {
    var prev, next := slots[id].prev, slots[id].next;
    var s := if prev == NIL then slots else slots[prev := slots[prev].(next := next)];
    if next == NIL then s else s[next := s[next].(prev := prev)]
  }

  ghost function UnlinkedLevel(level: Level, slot: Slot): Level {
    Level(if slot.prev == NIL then slot.next else level.head, if slot.next == NIL then slot.prev else level.tail)
  }

  /** Only links differ. */
  ghost predicate SameOrders(a: seq<Slot>, b: seq<Slot>) {
    && |a| == |b|
    && forall i | 0 <= i < |a| :: a[i].(next := b[i].next, prev := b[i].prev) == b[i]
  }

  ghost predicate Ascending(queue: seq<nat>) {
    forall j, k | 0 <= j < k < |queue| :: queue[j] < queue[k]
  }

  lemma AppendLinks(slots: seq<Slot>, level: Level, queue: seq<nat>, id: nat)
    requires Linked(slots, level, queue) && Ascending(queue) && id < |slots| && id !in queue
    ensures queue != [] ==> 0 <= level.tail < |slots| && level.head != NIL
    ensures Linked(Appended(slots, level, id), Level(if queue == [] then id else level.head, id), queue + [id])
    ensures SameOrders(slots, Appended(slots, level, id))
  {
    if queue != [] {
      assert LinkAt(slots, queue, |queue| - 1) && LinkAt(slots, queue, 0);
    }
    var s, q := Appended(slots, level, id), queue + [id];
    forall k | 0 <= k < |q| ensures LinkAt(s, q, k) {
      if k < |queue| {
        assert LinkAt(slots, queue, k) && queue[k] in queue;
      }
    }
  }

  lemma Neighbours(slots: seq<Slot>, level: Level, queue: seq<nat>, k: nat)
    requires Linked(slots, level, queue) && Ascending(queue) && k < |queue|
    ensures var id := queue[k];
            && id < |slots|
            && NIL <= slots[id].prev < |slots| && NIL <= slots[id].next < |slots|
            && slots[id].prev != id && slots[id].next != id
            && (slots[id].prev != NIL ==> slots[id].prev != slots[id].next)
  {
    assert LinkAt(slots, queue, k);
    if k > 0 {
      assert LinkAt(slots, queue, k - 1);
      assert queue[k - 1] < queue[k];
    }
    if k + 1 < |queue| {
      assert LinkAt(slots, queue, k + 1);
      assert queue[k] < queue[k + 1];
    }
  }

  lemma UnlinkAt(slots: seq<Slot>, level: Level, queue: seq<nat>, k: nat, i: nat)
    requires Linked(slots, level, queue) && Ascending(queue) && k < |queue| && i < |queue| && i != k
    requires var id := queue[k];
            && id < |slots|
            && NIL <= slots[id].prev < |slots| && NIL <= slots[id].next < |slots|
            && slots[id].prev != id && slots[id].next != id
    ensures queue[i] < |slots|
    ensures Unlinked(slots, queue[k])[queue[i]].next
         == (if i == k - 1 then slots[queue[k]].next else if i + 1 < |queue| then queue[i + 1] else NIL)
    ensures Unlinked(slots, queue[k])[queue[i]].prev
         == (if i == k + 1 then slots[queue[k]].prev else if i > 0 then queue[i - 1] else NIL)
  {
    assert LinkAt(slots, queue, k) && LinkAt(slots, queue, i);
  }

  lemma UnlinkLinks(slots: seq<Slot>, level: Level, queue: seq<nat>, k: nat)
    requires Linked(slots, level, queue) && Ascending(queue) && k < |queue|
    ensures var id := queue[k];
            && id < |slots|
            && NIL <= slots[id].prev < |slots| && NIL <= slots[id].next < |slots|
            && slots[id].prev != id && slots[id].next != id
            && Linked(Unlinked(slots, id), UnlinkedLevel(level, slots[id]), queue[..k] + queue[k + 1..])
            && SameOrders(slots, Unlinked(slots, id))
  {
    var id := queue[k];
    Neighbours(slots, level, queue, k);
    assert LinkAt(slots, queue, k);
    var s, q := Unlinked(slots, id), queue[..k] + queue[k + 1..];
    forall j | 0 <= j < |q| ensures LinkAt(s, q, j) {
      UnlinkAt(slots, level, queue, k, if j < k then j else j + 1);
    }
  }

  /** A list none of whose orders is among the changed slots stays a list. */
  lemma OtherListsStay(slots: seq<Slot>, s: seq<Slot>, level: Level, queue: seq<nat>)
    requires Linked(slots, level, queue) && |s| == |slots|
    requires forall k | 0 <= k < |queue| && queue[k] < |slots| ::
      s[queue[k]].next == slots[queue[k]].next && s[queue[k]].prev == slots[queue[k]].prev
    ensures Linked(s, level, queue)
  {
    forall k | 0 <= k < |queue| ensures LinkAt(s, queue, k) {
      assert LinkAt(slots, queue, k);
    }
  }

  // ----- the invariant of the book, on values ---------------------------------------------

  /** The fields of the book: slots in use and free, levels, number of accepted orders, cursors. */
  datatype Fields = Fields(slots: seq<Slot>, levels: seq<Level>, ordersNum: nat, bestAsk: nat, bestBid: nat)

  /** The first `linked` orders are where they belong; `queues` lists the ids linked at each level. */
  ghost predicate Inv(lim: Limits, f: Fields, queues: seq<seq<nat>>, linked: nat) {
    && |f.levels| == lim.maxLevel + 2 == |queues|
    && |f.slots| == lim.maxOrders
    && linked <= f.ordersNum <= |f.slots|
    && (forall p | 0 <= p < |queues| :: GoodLevel(f.slots, f.levels[p], queues[p], linked, p))
    && (forall i | 0 <= i < linked :: Placed(lim, f, queues, i))
    && f.bestBid < f.bestAsk <= lim.maxLevel + 1
  }

  ghost predicate GoodLevel(slots: seq<Slot>, level: Level, queue: seq<nat>, linked: nat, p: nat)
    requires linked <= |slots|
  {
    Linked(slots, level, queue) && GoodQueue(slots, linked, p, queue)
  }

  /** A live order is linked at its own level, on its own side of the two cursors. */
  ghost predicate Placed(lim: Limits, f: Fields, queues: seq<seq<nat>>, i: nat)
    requires i < |f.slots| && |queues| == lim.maxLevel + 2
  {
    f.slots[i].size > 0 ==>
      && 1 <= f.slots[i].level <= lim.maxLevel
      && i in queues[f.slots[i].level]
      && if f.slots[i].side == 0 then f.slots[i].level <= f.bestBid else f.bestAsk <= f.slots[i].level
  }

  /** The accepted orders, without their links. */
  ghost function View(slots: seq<Slot>, count: nat): (orders: seq<Order>)
    requires count <= |slots|
    ensures |orders| == count
    ensures forall i | 0 <= i < count :: orders[i] == OrderOf(slots[i])
  {
    seq(count, i requires 0 <= i < count => OrderOf(slots[i]))
  }

  ghost function OrderOf(s: Slot): Order {
    Order(s.trader, s.level, s.side, s.size)
  }

  /** An update that touches linked orders of price `p` only keeps the invariant if it does so at `p`. */
  lemma OneLevelChanged(lim: Limits, f: Fields, queues: seq<seq<nat>>, linked: nat,
                        f': Fields, queues': seq<seq<nat>>, linked': nat, p: nat)
    requires Inv(lim, f, queues, linked) && p < |queues|
    requires linked <= linked' <= f'.ordersNum <= |f'.slots| == |f.slots|
    requires |f'.levels| == |f.levels| && |queues'| == |queues|
    requires forall r | 0 <= r < |queues| && r != p :: f'.levels[r] == f.levels[r] && queues'[r] == queues[r]
    requires f'.bestBid == f.bestBid && f'.bestAsk == f.bestAsk
    requires forall i | 0 <= i < linked && f.slots[i].level != p :: f'.slots[i] == f.slots[i]
    requires Linked(f'.slots, f'.levels[p], queues'[p]) && GoodQueue(f'.slots, linked', p, queues'[p])
    requires forall i | 0 <= i < linked' && (i >= linked || f.slots[i].level == p) :: Placed(lim, f', queues', i)
    ensures Inv(lim, f', queues', linked')
  {
    forall r | 0 <= r < |queues| && r != p
      ensures GoodLevel(f'.slots, f'.levels[r], queues'[r], linked', r)
    {
      assert GoodLevel(f.slots, f.levels[r], queues[r], linked, r);
      OtherListsStay(f.slots, f'.slots, f.levels[r], queues[r]);
    }
    forall i | 0 <= i < linked' ensures Placed(lim, f', queues', i) {
      if i < linked && f.slots[i].level != p {
        assert Placed(lim, f, queues, i);
      }
    }
  }

  lemma QueueGrows(slots: seq<Slot>, s: seq<Slot>, p: nat, queue: seq<nat>, id: nat)
    requires SameOrders(slots, s) && id < |slots| && GoodQueue(slots, id, p, queue)
    requires slots[id].level == p && slots[id].size > 0
    ensures GoodQueue(s, id + 1, p, queue + [id])
  {
  }

  lemma InsertKeeps(lim: Limits, f: Fields, queues: seq<seq<nat>>, p: nat)
    requires f.ordersNum > 0 && Inv(lim, f, queues, f.ordersNum - 1)
    requires var s := f.slots[f.ordersNum - 1]; s.size > 0 && s.level == p && 1 <= p <= lim.maxLevel
    requires if f.slots[f.ordersNum - 1].side == 0 then p <= f.bestBid else f.bestAsk <= p
    ensures var id, level := f.ordersNum - 1, f.levels[p];
            && (level.head != NIL ==> 0 <= level.tail) && NIL <= level.tail < |f.slots|
            && Inv(lim, f.(slots := Appended(f.slots, level, id),
                           levels := f.levels[p := Level(if level.head == NIL then id else level.head, id)]),
                   queues[p := queues[p] + [id]], f.ordersNum)
            && View(Appended(f.slots, level, id), f.ordersNum) == View(f.slots, f.ordersNum)
  {
    var id, level, queue := f.ordersNum - 1, f.levels[p], queues[p];
    assert GoodLevel(f.slots, f.levels[p], queues[p], id, p);
    assert id !in queue && Ascending(queue);
    AppendLinks(f.slots, level, queue, id);
    var s := Appended(f.slots, level, id);
    var f' := f.(slots := s, levels := f.levels[p := Level(if level.head == NIL then id else level.head, id)]);
    var queues' := queues[p := queue + [id]];
    assert queue != [] ==> f.slots[queue[|queue| - 1]].level == p;
    QueueGrows(f.slots, s, p, queue, id);
    forall i | 0 <= i <= id && (i >= id || f.slots[i].level == p) ensures Placed(lim, f', queues', i) {
      if i < id {
        assert Placed(lim, f, queues, i);
      } else {
        assert queues'[p][|queue|] == id;
      }
    }
    OneLevelChanged(lim, f, queues, id, f', queues', f.ordersNum, p);
  }

  lemma QueueShrinks(slots: seq<Slot>, s: seq<Slot>, linked: nat, p: nat, queue: seq<nat>, k: nat)
    requires k < |queue| && linked <= |slots| && GoodQueue(slots, linked, p, queue)
    requires |s| == |slots|
    requires forall i | 0 <= i < |slots| && i != queue[k] :: s[i].level == slots[i].level && s[i].size == slots[i].size
    ensures GoodQueue(s, linked, p, queue[..k] + queue[k + 1..])
    ensures forall i: nat :: i in queue && i != queue[k] ==> i in queue[..k] + queue[k + 1..]
  {
    var q := queue[..k] + queue[k + 1..];
    forall i: nat | i in queue && i != queue[k] ensures i in q {
      var j :| 0 <= j < |queue| && queue[j] == i;
      assert q[if j < k then j else j - 1] == i;
    }
    assert forall j | 0 <= j < |q| :: q[j] == queue[if j < k then j else j + 1];
  }

  /** The slots once order `id` is unlinked and has no size left. */
  ghost function Retired(slots: seq<Slot>, id: nat): seq<Slot>
    requires id < |slots| && NIL <= slots[id].prev < |slots| && NIL <= slots[id].next < |slots|
    requires slots[id].prev != id && slots[id].next != id
  {
    Unlinked(slots, id)[id := slots[id].(size := 0)]
  }

  lemma RetireKeeps(lim: Limits, f: Fields, queues: seq<seq<nat>>, linked: nat, p: nat, k: nat)
    requires Inv(lim, f, queues, linked) && p < |queues| && k < |queues[p]|
    ensures var id := queues[p][k];
            && id < |f.slots|
            && NIL <= f.slots[id].prev < |f.slots| && NIL <= f.slots[id].next < |f.slots|
            && f.slots[id].prev != id && f.slots[id].next != id
            && Inv(lim, f.(slots := Retired(f.slots, id),
                           levels := f.levels[p := UnlinkedLevel(f.levels[p], f.slots[id])]),
                   queues[p := queues[p][..k] + queues[p][k + 1..]], linked)
            && (forall i | 0 <= i < |f.slots| :: OrderOf(Retired(f.slots, id)[i])
                 == if i == id then OrderOf(f.slots[i]).(size := 0) else OrderOf(f.slots[i]))
  {
    var queue, level := queues[p], f.levels[p];
    var id := queue[k];
    assert GoodLevel(f.slots, f.levels[p], queues[p], linked, p);
    assert Ascending(queue);
    UnlinkLinks(f.slots, level, queue, k);
    var s, q := Retired(f.slots, id), queue[..k] + queue[k + 1..];
    var f' := f.(slots := s, levels := f.levels[p := UnlinkedLevel(level, f.slots[id])]);
    var queues' := queues[p := q];
    Neighbours(f.slots, level, queue, k);
    QueueShrinks(f.slots, s, linked, p, queue, k);
    OtherListsStay(Unlinked(f.slots, id), s, f'.levels[p], q);
    OnlyItsLevelChanges(f, linked, p, queue, level, k);
    forall i | 0 <= i < linked && f.slots[i].level == p ensures Placed(lim, f', queues', i) {
      assert Placed(lim, f, queues, i);
    }
    OneLevelChanged(lim, f, queues, linked, f', queues', linked, p);
  }

  lemma OnlyItsLevelChanges(f: Fields, linked: nat, p: nat, queue: seq<nat>, level: Level, k: nat)
    requires Linked(f.slots, level, queue) && Ascending(queue) && k < |queue|
    requires linked <= |f.slots| && GoodQueue(f.slots, linked, p, queue)
    requires var id := queue[k];
            && NIL <= f.slots[id].prev < |f.slots| && NIL <= f.slots[id].next < |f.slots|
            && f.slots[id].prev != id && f.slots[id].next != id
    ensures forall i | 0 <= i < |f.slots| && f.slots[i].level != p :: Retired(f.slots, queue[k])[i] == f.slots[i]
  {
    assert LinkAt(f.slots, queue, k);
    assert k > 0 ==> f.slots[queue[k - 1]].level == p;
    assert k + 1 < |queue| ==> f.slots[queue[k + 1]].level == p;
  }

  /** Sizes of linked orders may shrink, short of zero; those of unlinked ones may become anything. */
  lemma ResizeKeeps(lim: Limits, f: Fields, queues: seq<seq<nat>>, linked: nat, i: nat, n: nat)
    requires Inv(lim, f, queues, linked) && i < |f.slots|
    requires i < linked ==> f.slots[i].size > 0 && n > 0
    ensures Inv(lim, f.(slots := f.slots[i := f.slots[i].(size := n)]), queues, linked)
  {
    var f' := f.(slots := f.slots[i := f.slots[i].(size := n)]);
    forall r | 0 <= r < |queues|
      ensures GoodLevel(f'.slots, f'.levels[r], queues[r], linked, r)
    {
      assert GoodLevel(f.slots, f.levels[r], queues[r], linked, r);
      OtherListsStay(f.slots, f'.slots, f.levels[r], queues[r]);
    }
    forall j | 0 <= j < linked ensures Placed(lim, f', queues, j) {
      assert Placed(lim, f, queues, j);
    }
  }

  /** An accepted order is linked, once and at its own level, exactly while it has size left. */
  lemma LinkedExactlyWhileLive(lim: Limits, f: Fields, queues: seq<seq<nat>>, i: nat, p: nat, k: nat, r: nat, j: nat)
    requires Inv(lim, f, queues, f.ordersNum) && i < f.ordersNum
    requires p < |queues| && k < |queues[p]| && r < |queues| && j < |queues[r]|
    ensures f.slots[i].size > 0 <==> exists q: nat :: q < |queues| && i in queues[q]
    ensures queues[p][k] == i == queues[r][j] ==> p == f.slots[i].level && p == r && k == j
  {
    assert Placed(lim, f, queues, i);
    assert GoodLevel(f.slots, f.levels[p], queues[p], f.ordersNum, p);
    assert GoodLevel(f.slots, f.levels[r], queues[r], f.ordersNum, r);
    if q: nat :| q < |queues| && i in queues[q] {
      assert GoodLevel(f.slots, f.levels[q], queues[q], f.ordersNum, q);
    }
  }

  /** The cursors bound the live orders and keep the two sides apart. */
  lemma CursorsSeparate(lim: Limits, f: Fields, queues: seq<seq<nat>>, i: nat, j: nat)
    requires Inv(lim, f, queues, f.ordersNum) && i < f.ordersNum && j < f.ordersNum
    requires f.slots[i].size > 0 && f.slots[j].size > 0 && f.slots[i].side == 0 && f.slots[j].side != 0
    ensures f.slots[i].level <= f.bestBid < f.bestAsk <= f.slots[j].level
  {
    assert Placed(lim, f, queues, i) && Placed(lim, f, queues, j);
  }

  // ----- which order the cursors lead to --------------------------------------------------

  /** The first order of the level the cursor stands on is the best one, and it is on the other side. */
  lemma HeadIsBest(lim: Limits, f: Fields, queues: seq<seq<nat>>, id: nat, p: nat)
    requires Inv(lim, f, queues, id) && id == f.ordersNum - 1 && f.slots[id].size > 0
    requires p == (if f.slots[id].side == 0 then f.bestAsk else f.bestBid)
    requires 1 <= p <= lim.maxLevel && queues[p] != []
    requires if f.slots[id].side == 0 then p <= f.slots[id].level else f.slots[id].level <= p
    ensures Best(View(f.slots, f.ordersNum), id, id) == Some(queues[p][0])
  {
    var orders, h := View(f.slots, f.ordersNum), queues[p][0];
    assert GoodLevel(f.slots, f.levels[p], queues[p], id, p);
    assert Placed(lim, f, queues, h);
    forall j: nat | j < id && Crosses(orders, id, j) && j != h ensures Ahead(orders, id, h, j) {
      assert Placed(lim, f, queues, j);
    }
    BestIsUnique(orders, id, h);
  }

  /** Past the other side's cursor there is nothing left to trade with. */
  lemma NothingCrosses(lim: Limits, f: Fields, queues: seq<seq<nat>>, id: nat)
    requires Inv(lim, f, queues, id) && id == f.ordersNum - 1
    requires if f.slots[id].side == 0 then f.slots[id].level < f.bestAsk else f.bestBid < f.slots[id].level
    ensures Best(View(f.slots, f.ordersNum), id, id) == None
  {
    var orders := View(f.slots, f.ordersNum);
    forall j: nat | j < id ensures !Crosses(orders, id, j) {
      assert Placed(lim, f, queues, j);
    }
  }

  /** A cursor may step over a level whose list is empty. */
  lemma CursorSteps(lim: Limits, f: Fields, queues: seq<seq<nat>>, linked: nat, buying: bool)
    requires Inv(lim, f, queues, linked)
    requires if buying then f.bestAsk <= lim.maxLevel && queues[f.bestAsk] == []
             else 1 <= f.bestBid && queues[f.bestBid] == []
    ensures Inv(lim, if buying then f.(bestAsk := f.bestAsk + 1) else f.(bestBid := f.bestBid - 1), queues, linked)
  {
    var f' := if buying then f.(bestAsk := f.bestAsk + 1) else f.(bestBid := f.bestBid - 1);
    forall i | 0 <= i < linked ensures Placed(lim, f', queues, i) {
      assert Placed(lim, f, queues, i);
    }
  }

  /** An order that will rest pulls its own side's cursor to its price. */
  lemma CursorPulls(lim: Limits, f: Fields, queues: seq<seq<nat>>, linked: nat, bid: nat, ask: nat)
    requires Inv(lim, f, queues, linked)
    requires f.bestBid <= bid < ask <= f.bestAsk
    ensures Inv(lim, f.(bestAsk := ask, bestBid := bid), queues, linked)
  {
    forall i | 0 <= i < linked ensures Placed(lim, f.(bestAsk := ask, bestBid := bid), queues, i) {
      assert Placed(lim, f, queues, i);
    }
  }

  /** Taking a live order out of the book. */
  lemma CancelKeeps(lim: Limits, f: Fields, queues: seq<seq<nat>>, id: nat) returns (g: Fields, queues': seq<seq<nat>>)
    requires Inv(lim, f, queues, f.ordersNum) && id < f.ordersNum && f.slots[id].size > 0
    ensures var s, p := f.slots[id], f.slots[id].level;
            && p < |f.levels|
            && NIL <= s.prev < |f.slots| && NIL <= s.next < |f.slots| && s.prev != id && s.next != id
            && g == f.(slots := Unlinked(f.slots, id)[id := Unlinked(f.slots, id)[id].(size := 0)],
                       levels := f.levels[p := UnlinkedLevel(f.levels[p], s)])
    ensures Inv(lim, g, queues', f.ordersNum)
    ensures View(g.slots, f.ordersNum)
         == View(f.slots, f.ordersNum)[id := View(f.slots, f.ordersNum)[id].(size := 0)]
  {
    var p := f.slots[id].level;
    assert Placed(lim, f, queues, id);
    var k :| 0 <= k < |queues[p]| && queues[p][k] == id;
    RetireKeeps(lim, f, queues, f.ordersNum, p, k);
    queues' := queues[p := queues[p][..k] + queues[p][k + 1..]];
    g := f.(slots := Retired(f.slots, id), levels := f.levels[p := UnlinkedLevel(f.levels[p], f.slots[id])]);
  }

  /** The slots after orders `id` and `h` traded `q`. */
  ghost function Traded(slots: seq<Slot>, id: nat, h: nat, q: nat): seq<Slot>
    requires h < id < |slots| && q <= slots[id].size && q <= slots[h].size
  {
    slots[id := slots[id].(size := slots[id].size - q)][h := slots[h].(size := slots[h].size - q)]
  }

  lemma UnlinkAfterTrade(slots: seq<Slot>, id: nat, h: nat, q: nat)
    requires h < id < |slots| && q <= slots[id].size && q == slots[h].size
    requires NIL <= slots[h].prev < |slots| && NIL <= slots[h].next < |slots|
    requires slots[h].prev != h && slots[h].next != h
    ensures Unlinked(Traded(slots, id, h, q), h) == Retired(slots[id := slots[id].(size := slots[id].size - q)], h)
  {
  }

  lemma HeadFacts(lim: Limits, f: Fields, queues: seq<seq<nat>>, linked: nat, p: nat)
    requires Inv(lim, f, queues, linked) && p < |queues|
    ensures queues[p] == [] <==> f.levels[p].head == NIL
    ensures queues[p] != [] ==>
      var h := f.levels[p].head;
      && h == queues[p][0] && 0 <= h < linked && f.slots[h].size > 0 && f.slots[h].level == p
      && NIL <= f.slots[h].prev < |f.slots| && NIL <= f.slots[h].next < |f.slots|
      && f.slots[h].prev != h && f.slots[h].next != h
  {
    assert GoodLevel(f.slots, f.levels[p], queues[p], linked, p);
    if queues[p] != [] {
      assert LinkAt(f.slots, queues[p], 0);
      Neighbours(f.slots, f.levels[p], queues[p], 0);
    }
  }

  /** The fields after the incoming order `id` traded with the head `h` of level `p`. */
  ghost function AfterTrade(f: Fields, id: nat, p: nat): Fields
    requires p < |f.levels| && 0 <= f.levels[p].head < id < |f.slots|
    requires var s := f.slots[f.levels[p].head];
      && NIL <= s.prev < |f.slots| && NIL <= s.next < |f.slots| && s.prev != f.levels[p].head
         && s.next != f.levels[p].head
  {
    var h := f.levels[p].head;
    var q := Min(f.slots[id].size, f.slots[h].size);
    var s := Traded(f.slots, id, h, q);
    if q < f.slots[h].size then f.(slots := s)
    else f.(slots := Unlinked(s, h), levels := f.levels[p := UnlinkedLevel(f.levels[p], s[h])])
  }

  /** A trade with the head keeps every list and both cursors right. */
  lemma TradeKeeps(lim: Limits, f: Fields, queues: seq<seq<nat>>, id: nat, p: nat) returns (queues': seq<seq<nat>>)
    requires Inv(lim, f, queues, id) && id < f.ordersNum && f.slots[id].size > 0
    requires p < |queues| && queues[p] != []
    ensures Inv(lim, f, queues, id) && p < |queues| && 0 <= f.levels[p].head < id
    ensures var s := f.slots[f.levels[p].head];
      && s.size > 0 && s.level == p
      && NIL <= s.prev < |f.slots| && NIL <= s.next < |f.slots| && s.prev != f.levels[p].head
         && s.next != f.levels[p].head
    ensures Inv(lim, AfterTrade(f, id, p), queues', id)
    ensures View(AfterTrade(f, id, p).slots, f.ordersNum)
         == var h := f.levels[p].head;
            Fill(View(f.slots, f.ordersNum), id, h, Min(f.slots[id].size, f.slots[h].size))
  {
    HeadFacts(lim, f, queues, id, p);
    var h := queues[p][0];
    var q := Min(f.slots[id].size, f.slots[h].size);
    var f1 := f.(slots := f.slots[id := f.slots[id].(size := f.slots[id].size - q)]);
    ResizeKeeps(lim, f, queues, id, id, f.slots[id].size - q);
    if q < f.slots[h].size {
      ResizeKeeps(lim, f1, queues, id, h, f.slots[h].size - q);
      assert f1.slots[h := f1.slots[h].(size := f.slots[h].size - q)] == Traded(f.slots, id, h, q);
      queues' := queues;
    } else {
      UnlinkAfterTrade(f.slots, id, h, q);
      RetireKeeps(lim, f1, queues, id, p, 0);
      queues' := queues[p := queues[p][..0] + queues[p][0 + 1..]];
    }
  }

  /** A filled order need not be linked. */
  lemma FilledIsLinked(lim: Limits, f: Fields, queues: seq<seq<nat>>, id: nat)
    requires Inv(lim, f, queues, id) && id < f.ordersNum && f.slots[id].size == 0
    ensures Inv(lim, f, queues, id + 1)
    ensures MatchAll(View(f.slots, f.ordersNum), id) == Outcome(View(f.slots, f.ordersNum), [])
  {
    var n := id + 1;
    forall p | 0 <= p < |queues| ensures GoodLevel(f.slots, f.levels[p], queues[p], n, p) {
      assert GoodLevel(f.slots, f.levels[p], queues[p], id, p);
    }
  }

  /** Slots past the accepted orders are in no list. */
  lemma SlotIsFree(lim: Limits, f: Fields, queues: seq<seq<nat>>, slot: Slot)
    requires Inv(lim, f, queues, f.ordersNum) && f.ordersNum < |f.slots|
    ensures Inv(lim, f.(slots := f.slots[f.ordersNum := slot], ordersNum := f.ordersNum + 1), queues, f.ordersNum)
  {
    var f' := f.(slots := f.slots[f.ordersNum := slot], ordersNum := f.ordersNum + 1);
    forall r | 0 <= r < |queues|
      ensures GoodLevel(f'.slots, f'.levels[r], queues[r], f.ordersNum, r)
    {
      assert GoodLevel(f.slots, f.levels[r], queues[r], f.ordersNum, r);
      OtherListsStay(f.slots, f'.slots, f.levels[r], queues[r]);
    }
    forall i | 0 <= i < f.ordersNum ensures Placed(lim, f', queues, i) {
      assert Placed(lim, f, queues, i);
    }
  }

  ghost function Matched(m: Market, id: nat): Market
    requires id < |m.orders|
  {
    var r := MatchAll(m.orders, id);
    Market(r.orders, m.trades + r.trades)
  }

  /** Matching `now` and putting `done` in front gives what matching `start` gives. */
  ghost predicate Resumes(start: seq<Order>, id: nat, done: seq<Trade>, now: seq<Order>) {
    && id < |start| && id < |now|
    && MatchAll(start, id) == Outcome(MatchAll(now, id).orders, done + MatchAll(now, id).trades)
  }

  lemma TradeResumes(lim: Limits, f: Fields, queues: seq<seq<nat>>, id: nat, p: nat, start: seq<Order>,
                     done: seq<Trade>)
    requires Inv(lim, f, queues, id) && id == f.ordersNum - 1 && f.slots[id].size > 0
    requires p == (if f.slots[id].side == 0 then f.bestAsk else f.bestBid)
    requires 1 <= p <= lim.maxLevel && queues[p] != []
    requires if f.slots[id].side == 0 then p <= f.slots[id].level else f.slots[id].level <= p
    requires Resumes(start, id, done, View(f.slots, f.ordersNum))
    ensures var orders, h := View(f.slots, f.ordersNum), f.levels[p].head;
            && 0 <= h < id
            && var q := Min(f.slots[id].size, f.slots[h].size);
            && Resumes(start, id, done + [TradeOf(orders, id, h, q)], Fill(orders, id, h, q))
  {
    HeadFacts(lim, f, queues, id, p);
    HeadIsBest(lim, f, queues, id, p);
    var orders, h := View(f.slots, f.ordersNum), queues[p][0];
    var q := Min(f.slots[id].size, f.slots[h].size);
    var t := TradeOf(orders, id, h, q);
    var rest := MatchAll(Fill(orders, id, h, q), id).trades;
    assert done + ([t] + rest) == done + [t] + rest;
  }

  class OrderBook {
    const lim: Limits
    const levels: array<Level>
    const orders: array<Slot>
    var ordersNum: nat
    var bestAsk: nat
    var bestBid: nat
    /** What `do_trade` printed. */
    var trades: seq<Trade>
    /** The ids linked at each price level, first to last. */
    ghost var queues: seq<seq<nat>>

    ghost function Now(): Fields
      reads this, levels, orders
    {
      Fields(orders[..], levels[..], ordersNum, bestAsk, bestBid)
    }

    ghost predicate Valid()
      reads this, levels, orders
    {
      Inv(lim, Now(), queues, ordersNum)
    }

    /** The invariant between accepting an order and linking it: the last order is not linked yet. */
    ghost predicate Floating(id: nat)
      reads this, levels, orders
    {
      id == ordersNum - 1 && Inv(lim, Now(), queues, id) && 1 <= orders[id].level <= lim.maxLevel
    }

    ghost function Orders(): seq<Order>
      reads this, orders
      requires ordersNum <= orders.Length
    {
      View(orders[..], ordersNum)
    }

    /** The book as the reference matcher sees it. */
    ghost function Contents(): Market
      reads this, orders
      requires ordersNum <= orders.Length
    {
      Market(Orders(), trades)
    }

    /** order_book_init */
    constructor (lim: Limits)
      ensures Valid()
      ensures this.lim == lim
      ensures Contents() == EMPTY_MARKET
      ensures fresh(levels) && fresh(orders)
    {
      this.lim := lim;
      levels := new Level[lim.maxLevel + 2](_ => Level(NIL, NIL));
      orders := new Slot[lim.maxOrders](_ => Slot(0, 0, NIL, NIL, 0, 0));
      ordersNum := 0;
      bestAsk := lim.maxLevel + 1;
      bestBid := 0;
      trades := [];
      queues := seq(lim.maxLevel + 2, _ => []);
    }

    /** order_insert */
    method OrderInsert(p: nat, id: nat)
      requires p < levels.Length && id < orders.Length
      requires NIL <= levels[p].tail < orders.Length && (levels[p].head != NIL ==> levels[p].tail != NIL)
      modifies levels, orders
      ensures orders[..] == Appended(old(orders[..]), old(levels[p]), id)
      ensures levels[..] == old(levels[..])[p := Level(if old(levels[p].head) == NIL then id
                                                       else old(levels[p].head), id)]
    {
      if levels[p].head != NIL {
        var tail := levels[p].tail;
        orders[tail] := orders[tail].(next := id);
        orders[id] := orders[id].(prev := tail);
      } else {
        levels[p] := levels[p].(head := id);
        orders[id] := orders[id].(prev := NIL);
      }
      levels[p] := levels[p].(tail := id);
      orders[id] := orders[id].(next := NIL);
    }

    /** order_remove */
    method OrderRemove(p: nat, id: nat)
      requires p < levels.Length && id < orders.Length
      requires NIL <= orders[id].prev < orders.Length && NIL <= orders[id].next < orders.Length
      requires orders[id].prev != id && orders[id].next != id
      modifies levels, orders
      ensures orders[..] == Unlinked(old(orders[..]), id)
      ensures levels[..] == old(levels[..])[p := UnlinkedLevel(old(levels[p]), old(orders[id]))]
    {
      var prev, next := orders[id].prev, orders[id].next;
      if prev == NIL {
        levels[p] := levels[p].(head := next);
      } else {
        orders[prev] := orders[prev].(next := next);
      }
      if next == NIL {
        levels[p] := levels[p].(tail := prev);
      } else {
        orders[next] := orders[next].(prev := prev);
      }
    }

    /** One pass of the inner loops of match: trade with the head of level `p`, unlink it if it is filled. */
    method Trade(p: nat, id: nat)
      requires p < levels.Length && 0 <= levels[p].head < id < ordersNum <= orders.Length
      requires var s := orders[levels[p].head];
        && NIL <= s.prev < orders.Length && NIL <= s.next < orders.Length
        && s.prev != levels[p].head && s.next != levels[p].head && s.level == p
      modifies this`trades, levels, orders
      ensures Now() == AfterTrade(old(Now()), id, p)
      ensures var h := old(levels[p].head);
        trades == old(trades) + [TradeOf(old(Orders()), id, h, Min(old(orders[id].size), old(orders[h].size)))]
    {
      var head := levels[p].head;
      var q: nat;
      if orders[head].size < orders[id].size {
        q := orders[head].size;
        orders[id] := orders[id].(size := orders[id].size - orders[head].size);
        orders[head] := orders[head].(size := 0);
      } else {
        q := orders[id].size;
        orders[head] := orders[head].(size := orders[head].size - orders[id].size);
        orders[id] := orders[id].(size := 0);
      }
      if orders[id].side == 0 {
        trades := trades + [MatchSpec.Trade(orders[id].trader, orders[head].trader, p, q, id, head)];
      } else {
        trades := trades + [MatchSpec.Trade(orders[head].trader, orders[id].trader, p, q, head, id)];
      }
      assert orders[..] == Traded(old(orders[..]), id, head, q);
      if orders[head].size == 0 {
        OrderRemove(p, head);
      }
    }

    /** One pass of the inner loops keeps the lists right, and is the next trade of the reference matcher. */
    method TradeWithHead(p: nat, id: nat, ghost start: seq<Order>, ghost done: seq<Trade>) returns (ghost t: Trade)
      requires Floating(id) && orders[id].size > 0
      requires p == (if orders[id].side == 0 then bestAsk else bestBid) && 1 <= p <= lim.maxLevel
      requires if orders[id].side == 0 then p <= orders[id].level else orders[id].level <= p
      requires levels[p].head != NIL
      requires Resumes(start, id, done, Orders())
      modifies this`trades, this`queues, levels, orders
      ensures Floating(id) && orders[id] == old(orders[id]).(size := orders[id].size)
      ensures orders[id].size < old(orders[id].size)
      ensures trades == old(trades) + [t] && Resumes(start, id, done + [t], Orders())
    {
      ghost var f := Now();
      HeadFacts(lim, f, queues, id, p);
      TradeResumes(lim, f, queues, id, p, start, done);
      ghost var queues' := TradeKeeps(lim, f, queues, id, p);
      t := TradeOf(Orders(), id, levels[p].head, Min(orders[id].size, orders[levels[p].head].size));
      Trade(p, id);
      queues := queues';
    }

    /** The inner loops of match: trade with the orders of level `p`, where the cursor of the other side stands,
        until the level is empty or the order `id` is filled. */
    method Sweep(p: nat, id: nat, ghost start: seq<Order>, ghost done: seq<Trade>)
        returns (filled: bool, ghost more: seq<Trade>)
      requires Floating(id) && orders[id].size > 0
      requires p == (if orders[id].side == 0 then bestAsk else bestBid) && 1 <= p <= lim.maxLevel
      requires if orders[id].side == 0 then p <= orders[id].level else orders[id].level <= p
      requires Resumes(start, id, done, Orders())
      modifies this`trades, this`queues, levels, orders
      ensures Floating(id) && orders[id] == old(orders[id]).(size := orders[id].size)
      ensures filled <==> orders[id].size == 0
      ensures !filled ==> queues[p] == []
      ensures trades == old(trades) + more && Resumes(start, id, done + more, Orders())
    {
      more := [];
      assert done + more == done;
      while levels[p].head != NIL
        invariant Floating(id) && orders[id].size > 0 && orders[id] == old(orders[id]).(size := orders[id].size)
        invariant trades == old(trades) + more && Resumes(start, id, done + more, Orders())
        decreases orders[id].size
      {
        ghost var t := TradeWithHead(p, id, start, done + more);
        assert done + more + [t] == done + (more + [t]);
        more := more + [t];
        if orders[id].size == 0 {
          return true, more;
        }
      }
      HeadFacts(lim, Now(), queues, id, p);
      return false, more;
    }

    /** order_insert at the end of match. */
    method Link(p: nat, id: nat)
      requires Floating(id) && orders[id].size > 0 && p == orders[id].level
      requires if orders[id].side == 0 then p <= bestBid else bestAsk <= p
      modifies this`queues, levels, orders
      ensures Valid() && Orders() == old(Orders())
    {
      InsertKeeps(lim, Now(), queues, p);
      OrderInsert(p, id);
      queues := queues[p := queues[p] + [id]];
    }

    lemma Filled(id: nat, start: seq<Order>, done: seq<Trade>)
      requires Floating(id) && orders[id].size == 0 && Resumes(start, id, done, Orders())
      ensures Valid()
      ensures Outcome(Orders(), done) == MatchAll(start, id)
    {
      FilledIsLinked(lim, Now(), queues, id);
      assert done + [] == done;
    }

    /** One pass of the outer loop for a buy: sweep the level of the cursor, then move the cursor past it. */
    method CrossAsk(id: nat, ghost start: seq<Order>, ghost done: seq<Trade>)
        returns (filled: bool, ghost more: seq<Trade>)
      requires Floating(id) && orders[id].size > 0 && orders[id].side == 0 && bestAsk <= orders[id].level
      requires Resumes(start, id, done, Orders())
      modifies this`trades, this`queues, this`bestAsk, levels, orders
      ensures Floating(id) && orders[id] == old(orders[id]).(size := orders[id].size)
      ensures filled <==> orders[id].size == 0
      ensures !filled ==> bestAsk == old(bestAsk) + 1
      ensures trades == old(trades) + more && Resumes(start, id, done + more, Orders())
    {
      var p := bestAsk;
      filled, more := Sweep(p, id, start, done);
      if !filled {
        CursorSteps(lim, Now(), queues, id, true);
        bestAsk := bestAsk + 1;
      }
    }

    /** The buying half of match. */
    method MatchBuy(id: nat)
      requires Floating(id) && orders[id].size > 0 && orders[id].side == 0
      modifies this`trades, this`queues, this`bestAsk, this`bestBid, levels, orders
      ensures Valid()
      ensures Contents() == Matched(old(Contents()), id)
    {
      ghost var start, done: seq<Trade> := Orders(), [];
      var p := orders[id].level;
      while orders[id].level >= bestAsk
        invariant Floating(id) && orders[id].size > 0 && orders[id].side == 0
        invariant p == orders[id].level || bestAsk <= orders[id].level
        invariant trades == old(trades) + done && Resumes(start, id, done, Orders())
        decreases lim.maxLevel + 1 - bestAsk
      {
        p := bestAsk;
        var filled, more := CrossAsk(id, start, done);
        done := done + more;
        if filled {
          Filled(id, start, done);
          return;
        }
      }
      RestAsk(p, id, start, done);
    }

    /** The end of match for a buy that is not filled: move its own side's cursor and link it. */
    method RestAsk(p: nat, id: nat, ghost start: seq<Order>, ghost done: seq<Trade>)
      requires Floating(id) && orders[id].size > 0 && orders[id].side == 0
      requires p == orders[id].level && !(bestAsk <= orders[id].level) && Resumes(start, id, done, Orders())
      modifies this`queues, this`bestBid, levels, orders
      ensures Valid()
      ensures Outcome(Orders(), done) == MatchAll(start, id)
    {
      NothingCrosses(lim, Now(), queues, id);
      assert done + [] == done;
      if orders[id].level > bestBid {
        CursorPulls(lim, Now(), queues, id, orders[id].level, bestAsk);
        bestBid := orders[id].level;
      }
      Link(p, id);
    }

    /** One pass of the outer loop for a sell: sweep the level of the cursor, then move the cursor past it. */
    method CrossBid(id: nat, ghost start: seq<Order>, ghost done: seq<Trade>)
        returns (filled: bool, ghost more: seq<Trade>)
      requires Floating(id) && orders[id].size > 0 && orders[id].side != 0 && orders[id].level <= bestBid
      requires Resumes(start, id, done, Orders())
      modifies this`trades, this`queues, this`bestBid, levels, orders
      ensures Floating(id) && orders[id] == old(orders[id]).(size := orders[id].size)
      ensures filled <==> orders[id].size == 0
      ensures !filled ==> bestBid == old(bestBid) - 1
      ensures trades == old(trades) + more && Resumes(start, id, done + more, Orders())
    {
      var p := bestBid;
      filled, more := Sweep(p, id, start, done);
      if !filled {
        CursorSteps(lim, Now(), queues, id, false);
        bestBid := bestBid - 1;
      }
    }

    /** The selling half of match. */
    method MatchSell(id: nat)
      requires Floating(id) && orders[id].size > 0 && orders[id].side != 0
      modifies this`trades, this`queues, this`bestAsk, this`bestBid, levels, orders
      ensures Valid()
      ensures Contents() == Matched(old(Contents()), id)
    {
      ghost var start, done: seq<Trade> := Orders(), [];
      var p := orders[id].level;
      while orders[id].level <= bestBid
        invariant Floating(id) && orders[id].size > 0 && orders[id].side != 0
        invariant p == orders[id].level || orders[id].level <= bestBid
        invariant trades == old(trades) + done && Resumes(start, id, done, Orders())
        decreases bestBid
      {
        p := bestBid;
        var filled, more := CrossBid(id, start, done);
        done := done + more;
        if filled {
          Filled(id, start, done);
          return;
        }
      }
      RestBid(p, id, start, done);
    }

    /** The end of match for a sell that is not filled: move its own side's cursor and link it. */
    method RestBid(p: nat, id: nat, ghost start: seq<Order>, ghost done: seq<Trade>)
      requires Floating(id) && orders[id].size > 0 && orders[id].side != 0
      requires p == orders[id].level && !(orders[id].level <= bestBid) && Resumes(start, id, done, Orders())
      modifies this`queues, this`bestAsk, levels, orders
      ensures Valid()
      ensures Outcome(Orders(), done) == MatchAll(start, id)
    {
      NothingCrosses(lim, Now(), queues, id);
      assert done + [] == done;
      if orders[id].level < bestAsk {
        CursorPulls(lim, Now(), queues, id, bestBid, orders[id].level);
        bestAsk := orders[id].level;
      }
      Link(p, id);
    }

    /** match, with the order `id` accepted and not yet linked */
    method Match(id: nat)
      requires Floating(id) && orders[id].size > 0
      modifies this`trades, this`queues, this`bestAsk, this`bestBid, levels, orders
      ensures Valid()
      ensures Contents() == Matched(old(Contents()), id)
    {
      if orders[id].side == 0 {
        MatchBuy(id);
      } else {
        MatchSell(id);
      }
    }

    /** do_limit: the links in `limit` are whatever the caller left in them. */
    method DoLimit(limit: Slot) returns (accepted: bool)
      requires Valid()
      modifies this, levels, orders
      ensures Valid()
      ensures accepted == Accepts(old(Contents()), OrderOf(limit), lim)
      ensures Contents() == Limit(old(Contents()), OrderOf(limit), lim)
    {
      if ordersNum >= orders.Length {
        return false;
      }
      if limit.level > lim.maxLevel || limit.level < 1 {
        return false;
      }
      if limit.size == 0 {
        return false;
      }
      var id := ordersNum;
      SlotIsFree(lim, Now(), queues, limit);
      orders[id] := limit;
      ordersNum := ordersNum + 1;
      assert Orders() == old(Orders()) + [OrderOf(limit)];
      Match(id);
      return true;
    }

    /** do_cancel */
    method DoCancel(id: nat) returns (accepted: bool)
      requires Valid()
      modifies this`queues, levels, orders
      ensures Valid()
      ensures accepted == Cancellable(old(Contents()), id)
      ensures Contents() == Cancel(old(Contents()), id)
    {
      if ordersNum == 0 || id >= ordersNum {
        return false;
      }
      if orders[id].size == 0 {
        return false;
      }
      var p := orders[id].level;
      ghost var f := Now();
      ghost var g, queues' := CancelKeeps(lim, f, queues, id);
      OrderRemove(p, id);
      orders[id] := orders[id].(size := 0);
      queues := queues';
      assert orders[..] == g.slots && levels[..] == g.levels;
      return true;
    }
  }

  /** Every run of the engine is the run of the reference matcher on the same commands. */
  method Replay(lim: Limits, cmds: seq<Command>) returns (book: OrderBook)
    ensures fresh(book) && book.Valid() && book.Contents() == Run(cmds, lim)
  {
    book := new OrderBook(lim);
    assert cmds[..0] == [];
    for i := 0 to |cmds|
      invariant fresh(book) && fresh(book.levels) && fresh(book.orders)
      invariant book.Valid() && book.lim == lim && book.Contents() == Run(cmds[..i], lim)
    {
      assert cmds[..i + 1][..i] == cmds[..i];
      match cmds[i]
      case LimitCmd(o) => var _ := book.DoLimit(Slot(o.trader, o.level, NIL, NIL, o.side, o.size));
      case CancelCmd(id) => var _ := book.DoCancel(id);
    }
    assert cmds[..|cmds|] == cmds;
  }
}
