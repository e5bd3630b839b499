/** Levels are found by the lower 32 bits of their price: for which prices a side of the book is what it should be. */
module PriceKeys {
  import opened Wrappers
  import opened LevelBook
  import opened BookSpec
  import opened ReplayLaws
  import opened JoinLaws

  /** One side after the first `n` events, each one a call of ob_level_modify or ob_level_delete; None if one failed. */
  function Played(es: seq<Event>, n: nat, buy: bool): Option<Levels>
    requires n <= |es|
  {
    if n == 0 then Some(map[])
    else
      var prev, e := Played(es, n - 1, buy), es[n - 1];
      if prev.None? || e.buy != buy then prev
      else if e.delete then Some(prev.value - {KeyOf(e.price)})
      else Modified(prev.value, LevelBook.Order(n, e.price, e.size, buy))
  }

  ghost predicate PlaysRight(es: seq<Event>, buy: bool) {
    var r := Played(es, |es|, buy);
    r.Some? && Shows(r.value, Replay(es, |es|, buy))
  }

  lemma {:induction false} PlayedIsReplay(es: seq<Event>, n: nat, buy: bool)
    requires GoodHistory(es) && n <= |es|
    ensures var r := Played(es, n, buy); r.Some? && Clean(r.value, n) && Shows(r.value, Replay(es, n, buy))
  {
    if n > 0 {
      PlayedIsReplay(es, n - 1, buy);
      var m, e := Played(es, n - 1, buy).value, es[n - 1];
      if e.buy == buy && e.delete {
        DeleteTracks(m, es, n - 1);
      } else if e.buy == buy {
        ModifyTracks(m, es, n - 1, LevelBook.Order(n, e.price, e.size, buy));
      }
    }
  }

  /** Updates of these prices only, of which the book can number as many as it likes. */
  ghost predicate UpdatesOf(es: seq<Event>, prices: set<nat>) {
    |es| < U64 - 1 && forall e | e in es :: GoodEvent(e) && e.price in prices
  }

  /** Every history of updates of some prices leaves the right levels exactly if no two of the prices agree in their
      lower 32 bits. */
  lemma PricesShowExactly(prices: set<nat>)
    requires forall p | p in prices :: p < U64
    ensures (forall es, buy | UpdatesOf(es, prices) :: PlaysRight(es, buy))
            <==> (forall p, q | p in prices && q in prices && KeyOf(p) == KeyOf(q) :: p == q)
  {
    if p, q :| p in prices && q in prices && KeyOf(p) == KeyOf(q) && p != q {
      OneLevelForTwo(p, q);
      var es := [Event(true, p, 1, false), Event(true, q, 1, false)];
      assert UpdatesOf(es, prices) && !PlaysRight(es, true);
    } else {
      forall es, buy | UpdatesOf(es, prices) ensures PlaysRight(es, buy) {
        assert forall i | 0 <= i < |es| :: es[i] in es;
        PlayedIsReplay(es, |es|, buy);
      }
    }
  }

  /** The second of two such prices is taken for the first. */
  lemma OneLevelForTwo(p: nat, q: nat)
    requires p != q && KeyOf(p) == KeyOf(q)
    ensures !PlaysRight([Event(true, p, 1, false), Event(true, q, 1, false)], true)
  {
    var es := [Event(true, p, 1, false), Event(true, q, 1, false)];
    assert Played(es, 0, true) == Some(map[]);
    var m := map[KeyOf(p) := Entry(1, p, 1)];
    assert Played(es, 1, true) == Some(m);
    assert Played(es, 2, true) == Modified(m, LevelBook.Order(2, q, 1, true)) == Some(m[KeyOf(p) := Entry(2, p, 1)]);
    var r := Replay(es, 2, true);
    assert q in r && !ShowsAt(Played(es, 2, true).value, q, r[q]);
  }
}
