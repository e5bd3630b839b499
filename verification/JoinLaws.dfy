/** Joining a book to a running feed against the exchange's history: after a successful fast_books_join,
    and after every increment that follows, each side is the replay of the whole history. */
module JoinLaws {
  import opened Wrappers
  import opened LevelBook
  import opened BookSpec
  import opened ReplayLaws

  /** All events of one book, and how many of them messages 0 .. m brought. */
  datatype History = History(es: seq<Event>, upTo: seq<nat>)

  ghost predicate GoodFeed(h: History) {
    && GoodHistory(h.es)
    && |h.upTo| > 0
    && (forall m, n | 0 <= m <= n < |h.upTo| :: h.upTo[m] <= h.upTo[n] <= |h.es|)
  }

  // ----- identities do not change ---------------------------------------------------------

  ghost predicate SameIds(x: Books, y: Books) {
    |x| == |y| && forall i | 0 <= i < |x| :: x[i].id == y[i].id
  }

  lemma {:induction false} FindStable(x: Books, y: Books, securityId: nat, symbol: string)
    requires SameIds(x, y)
    ensures FindById(x, securityId) == FindById(y, securityId)
    ensures FindBySymbol(x, symbol) == FindBySymbol(y, symbol)
  {
    if x != [] {
      assert x[0].id == y[0].id;
      FindStable(x[1..], y[1..], securityId, symbol);
    }
  }

  lemma LocateStable(x: Books, y: Books, securityId: Field<nat>, symbol: Field<string>)
    requires SameIds(x, y)
    ensures Locate(x, securityId, symbol) == Locate(y, securityId, symbol)
  {
    FindStable(x, y, if securityId.Value? then securityId.v else 0, if symbol.Value? then symbol.v else "");
  }

  lemma {:induction false} EntriesKeepIds(books: Books, entries: seq<MdEntry>)
    ensures SameIds(books, ApplyEntries(books, entries).books)
    decreases |entries|
  {
    if entries != [] {
      EntriesKeepIds(books, entries[..|entries| - 1]);
    }
  }

  // ----- faithful messages ----------------------------------------------------------------

  /** Does the entry reach the book `t`? */
  predicate Hits(books: Books, t: nat, e: MdEntry)
    requires t < |books|
  {
    Locate(books, e.securityId, e.symbol) == Target(t) && !OtherSession(books[t].id, e.session)
  }

  /** The entry `e` reports event `ev` as number `n` of its book. */
  predicate Reports(e: MdEntry, tick: int, ev: Event, n: nat) {
    && !e.session.Empty?
    && e.rptSeq == Value(n)
    && e.action.Value? && (if ev.delete then e.action.v == 2 else e.action.v < 2)
    && Read(e, tick, n).Order?
    && Read(e, tick, n).o.price == ev.price && Read(e, tick, n).o.buy == ev.buy
    && (!ev.delete ==> Read(e, tick, n).o.size == ev.size)
  }

  /** The entries that reach the book `t` report events `from`+1 .. `to`, in order. */
  predicate Carries(books: Books, t: nat, entries: seq<MdEntry>, es: seq<Event>, from: nat, to: nat)
    requires t < |books| && to <= |es|
    decreases |entries|
  {
    if entries == [] then from == to
    else
      var prev, e := entries[..|entries| - 1], entries[|entries| - 1];
      if Hits(books, t, e) then
        from < to && Reports(e, books[t].id.tick, es[to - 1], to) && Carries(books, t, prev, es, from, to - 1)
      else Carries(books, t, prev, es, from, to)
  }

  lemma {:induction false} CarriesForward(books: Books, t: nat, entries: seq<MdEntry>, es: seq<Event>, from: nat,
                                          to: nat)
    requires t < |books| && to <= |es| && Carries(books, t, entries, es, from, to)
    ensures from <= to
    decreases |entries|
  {
    if entries != [] {
      var prev, e := entries[..|entries| - 1], entries[|entries| - 1];
      CarriesForward(books, t, prev, es, from, if Hits(books, t, e) then to - 1 else to);
    }
  }

  // ----- a book that buffers --------------------------------------------------------------

  /** Since it was cleared the book has buffered exactly events `a`+1 .. `n`; RptSeq is 0 while that is none. */
  ghost predicate Buffering(b: BookState, es: seq<Event>, a: nat, n: nat)
    requires a <= n <= |es|
  {
    && b.join && !b.active
    && b.sides == Sides(Buffer(es, a, n, true), Buffer(es, a, n, false))
    && (b.rptSeq == n || (n == a && b.rptSeq == 0))
  }

  /** fast_book_clear, or a book never used. */
  predicate Cleared(b: BookState) {
    !b.active && b.sides == Sides(map[], map[]) && b.rptSeq == 0
  }

  /** The book is in use and shows exactly the first `n` events; RptSeq is 0 if it has had no increment since the
      clear. */
  ghost predicate Tracking(b: BookState, es: seq<Event>, n: nat)
    requires n <= |es|
  {
    && b.active
    && IsReplay(b.sides, es, n)
    && Clean(b.sides.bids, n) && Clean(b.sides.asks, n)
    && (b.rptSeq == n || b.rptSeq == 0)
  }

  lemma AcceptBuffers(b: BookState, e: MdEntry, es: seq<Event>, a: nat, n: nat)
    requires GoodHistory(es) && a <= n < |es| && Buffering(b, es, a, n)
    requires Reports(e, b.id.tick, es[n], n + 1) && !OtherSession(b.id, e.session)
    ensures Accept(b, e).ok && Buffering(Accept(b, e).book, es, a, n + 1) && Accept(b, e).book.id == b.id
    ensures Accept(b, e).book.rptSeq == n + 1
  {
    var ev := es[n];
    BufferTakes(es, a, n);
    var b' := b.(rptSeq := n + 1, empty := false);
    assert Accept(b, e) == Incremented(b', e);
    var o := LevelBook.Order(n + 1, ev.price, if ev.delete then 0 else ev.size, ev.buy);
    assert Accept(b, e) == Modify(b', o);
    BufferGrows(es, a, n, o);
  }

  lemma BufferGrows(es: seq<Event>, a: nat, n: nat, o: Order)
    requires GoodHistory(es) && a <= n < |es|
    requires o == LevelBook.Order(n + 1, es[n].price, if es[n].delete then 0 else es[n].size, es[n].buy)
    ensures Modified(Buffer(es, a, n, o.buy), o) == Some(Buffer(es, a, n + 1, o.buy))
    ensures Buffer(es, a, n + 1, !o.buy) == Buffer(es, a, n, !o.buy)
  {
    BufferTakes(es, a, n);
  }

  /** The level that the buffer has under the key of the next event is that of its price. */
  lemma BufferTakes(es: seq<Event>, a: nat, n: nat)
    requires GoodHistory(es) && a <= n < |es|
    ensures GoodEvent(es[n])
    ensures var k, m := KeyOf(es[n].price), Buffer(es, a, n, es[n].buy);
      k in m ==> m[k].price == es[n].price && m[k].seqNum <= n
  {
    assert es[n] in es;
    var k, buy := KeyOf(es[n].price), es[n].buy;
    if k in Buffer(es, a, n, buy) {
      BufferIsNamed(es, a, n, buy, k);
      KeyNamesPrice(es, buy, Buffer(es, a, n, buy)[k].price, es[n].price);
    }
  }

  lemma EntryBuffers(mid: Books, t: nat, e: MdEntry, es: seq<Event>, a: nat, n: nat)
    requires t < |mid| && GoodHistory(es) && a <= n < |es| && Buffering(mid[t], es, a, n)
    requires Hits(mid, t, e) && Reports(e, mid[t].id.tick, es[n], n + 1)
    ensures Buffering(ApplyEntry(mid, e).books[t], es, a, n + 1)
  {
    AcceptBuffers(mid[t], e, es, a, n);
  }

  lemma EntryPasses(mid: Books, t: nat, e: MdEntry)
    requires t < |mid| && !Hits(mid, t, e) && ApplyEntry(mid, e).ok
    ensures ApplyEntry(mid, e).books[t] == mid[t]
  {
  }

  /** A message that carries events `from`+1 .. `to` moves the buffer from `from` to `to`. */
  lemma {:induction false} EntriesBuffer(books: Books, t: nat, entries: seq<MdEntry>, es: seq<Event>, a: nat, from: nat,
                                         to: nat)
    requires t < |books| && GoodHistory(es) && a <= from <= |es| && to <= |es|
    requires Carries(books, t, entries, es, from, to) && Buffering(books[t], es, a, from)
    requires ApplyEntries(books, entries).ok
    ensures from <= to && Buffering(ApplyEntries(books, entries).books[t], es, a, to)
    decreases |entries|
  {
    hide Buffer, Reports, ApplyEntry, Locate, OtherSession, IsReplay;
    CarriesForward(books, t, entries, es, from, to);
    if entries != [] {
      var prev, e := entries[..|entries| - 1], entries[|entries| - 1];
      var mid := ApplyEntries(books, prev).books;
      EntriesKeepIds(books, prev);
      LocateStable(books, mid, e.securityId, e.symbol);
      assert Hits(mid, t, e) == Hits(books, t, e);
      if Hits(books, t, e) {
        EntriesBuffer(books, t, prev, es, a, from, to - 1);
        EntryBuffers(mid, t, e, es, a, to - 1);
      } else {
        EntriesBuffer(books, t, prev, es, a, from, to);
        EntryPasses(mid, t, e);
      }
    }
  }

  // ----- the join loop --------------------------------------------------------------------

  /** Message `m` of the feed: it brings events upTo[m - 1]+1 .. upTo[m]. */
  ghost predicate FaithfulIncrement(books: Books, t: nat, h: History, msg: Increment)
    requires t < |books| && GoodFeed(h)
  {
    && 0 < msg.msgSeqNum < |h.upTo|
    && msg.entries.Value?
    && Carries(books, t, msg.entries.v, h.es, h.upTo[msg.msgSeqNum - 1], h.upTo[msg.msgSeqNum])
  }

  /** A snapshot of the book `t` shows it as it was after some message. */
  ghost predicate FaithfulSnapshot(books: Books, t: nat, h: History, snap: Snapshot)
    requires t < |books| && GoodFeed(h)
  {
    SnapshotOf(books, t, snap) == Some(true) && snap.lastMsgSeqNum.Value? ==>
      && snap.lastMsgSeqNum.v < |h.upTo|
      && snap.rptSeq == Value(h.upTo[snap.lastMsgSeqNum.v])
      && (snap.entries.Value? && snap.entries.v != []
          && !OtherSession(books[t].id, snap.entries.v[|snap.entries.v| - 1].session) ==>
            FaithfulEntries(snap.entries.v, books[t].id.tick, h.es, h.upTo[snap.lastMsgSeqNum.v]))
  }

  /** One turn after message `cur`: the next increment may skip messages, but none that has events of the book. */
  ghost predicate FaithfulTurn(books: Books, t: nat, h: History, cur: nat, turn: Turn)
    requires t < |books| && GoodFeed(h) && cur < |h.upTo|
  {
    && (turn.inc.Got? ==>
          && FaithfulIncrement(books, t, h, turn.inc.msg)
          && (cur > 0 ==> cur < turn.inc.msg.msgSeqNum && h.upTo[turn.inc.msg.msgSeqNum - 1] == h.upTo[cur]))
    && (turn.snp.Got? ==> FaithfulSnapshot(books, t, h, turn.snp.msg))
  }

  ghost predicate FaithfulTurns(books: Books, t: nat, h: History, cur: nat, turns: seq<Turn>)
    requires t < |books| && GoodFeed(h) && cur < |h.upTo|
    decreases |turns|
  {
    turns != [] ==>
      && FaithfulTurn(books, t, h, cur, turns[0])
      && FaithfulTurns(books, t, h, if turns[0].inc.Got? then turns[0].inc.msg.msgSeqNum else cur, turns[1..])
  }

  /** The book waits for its snapshot: it buffered everything from message `init` to message `cur`. */
  ghost predicate Waiting(j: Joining, t: nat, h: History)
    requires GoodFeed(h)
  {
    && t < |j.books|
    && j.init <= j.cur < |h.upTo| && (j.init == 0 <==> j.cur == 0)
    && (if j.init == 0 then j.books[t].join && Cleared(j.books[t])
        else Buffering(j.books[t], h.es, h.upTo[j.init - 1], h.upTo[j.cur]))
    && (j.snap.Some? ==> FaithfulSnapshot(j.books, t, h, j.snap.value))
  }

  lemma SnapshotStable(x: Books, y: Books, t: nat, h: History, snap: Snapshot)
    requires SameIds(x, y) && t < |x| && GoodFeed(h)
    ensures SnapshotOf(x, t, snap) == SnapshotOf(y, t, snap)
    ensures FaithfulSnapshot(x, t, h, snap) == FaithfulSnapshot(y, t, h, snap)
  {
    LocateStable(x, y, snap.securityId, snap.symbol);
    if SnapshotOf(x, t, snap) == Some(true) {
      assert x[t].id == y[t].id;
    }
  }

  lemma {:induction false} CarriesStable(x: Books, y: Books, t: nat, entries: seq<MdEntry>, es: seq<Event>, from: nat,
                                         to: nat)
    requires SameIds(x, y) && t < |x| && to <= |es|
    ensures Carries(x, t, entries, es, from, to) == Carries(y, t, entries, es, from, to)
    decreases |entries|
  {
    if entries != [] {
      var prev, e := entries[..|entries| - 1], entries[|entries| - 1];
      LocateStable(x, y, e.securityId, e.symbol);
      assert x[t].id == y[t].id;
      if to > 0 {
        CarriesStable(x, y, t, prev, es, from, to - 1);
      }
      CarriesStable(x, y, t, prev, es, from, to);
    }
  }

  lemma {:induction false} TurnsStable(x: Books, y: Books, t: nat, h: History, cur: nat, turns: seq<Turn>)
    requires SameIds(x, y) && t < |x| && GoodFeed(h) && cur < |h.upTo|
    requires FaithfulTurns(x, t, h, cur, turns)
    ensures FaithfulTurns(y, t, h, cur, turns)
    decreases |turns|
  {
    if turns != [] {
      var turn := turns[0];
      if turn.inc.Got? {
        var m := turn.inc.msg.msgSeqNum;
        CarriesStable(x, y, t, turn.inc.msg.entries.v, h.es, h.upTo[m - 1], h.upTo[m]);
      }
      if turn.snp.Got? {
        SnapshotStable(x, y, t, h, turn.snp.msg);
      }
      TurnsStable(x, y, t, h, if turn.inc.Got? then turn.inc.msg.msgSeqNum else cur, turns[1..]);
    }
  }

  lemma IncrementKeepsWaiting(j: Joining, t: nat, h: History, inc: Poll<Increment>)
    requires GoodFeed(h) && Waiting(j, t, h)
    requires FaithfulTurn(j.books, t, h, j.cur, Turn(inc, Nothing))
    ensures var r := TakeIncrement(j, inc); r.More? ==>
      && Waiting(r.j, t, h) && SameIds(j.books, r.j.books) && r.j.snpReceived == j.snpReceived && r.j.snap == j.snap
      && r.j.cur == if inc.Got? then inc.msg.msgSeqNum else j.cur
  {
    var r := TakeIncrement(j, inc);
    if inc.Got? && r.More? {
      var m, entries := inc.msg.msgSeqNum, inc.msg.entries.v;
      EntriesKeepIds(j.books, entries);
      var from, to := h.upTo[m - 1], h.upTo[m];
      if j.init == 0 {
        EntriesBuffer(j.books, t, entries, h.es, from, from, to);
      } else {
        EntriesBuffer(j.books, t, entries, h.es, h.upTo[j.init - 1], from, to);
      }
      if j.snap.Some? {
        SnapshotStable(j.books, r.j.books, t, h, j.snap.value);
      }
    }
  }

  /** apply_snapshot on a buffering book, with a snapshot from inside the window. */
  lemma BookMerges(b: BookState, snap: Snapshot, es: seq<Event>, a: nat, n: nat, s: nat)
    requires GoodHistory(es) && a <= s <= n <= |es| && Buffering(b, es, a, n)
    requires snap.rptSeq == Value(s)
    requires snap.entries.Value? && snap.entries.v != []
             && !OtherSession(b.id, snap.entries.v[|snap.entries.v| - 1].session) ==>
      FaithfulEntries(snap.entries.v, b.id.tick, es, s)
    ensures var r := MergeSnapshot(b, snap);
      && r.book.id == b.id
      && (r.ok ==> if r.book.active then Tracking(Swept(r.book), es, n) else r.book == b)
  {
    if snap.entries.Value? && snap.entries.v != []
      && !OtherSession(b.id, snap.entries.v[|snap.entries.v| - 1].session) {
      MergeIsReplay(b.(snpSeq := s, empty := false), snap.entries.v, es, a, n, s);
    }
  }

  lemma SnapshotMerges(j: Joining, t: nat, h: History)
    requires GoodFeed(h) && Waiting(j, t, h)
    ensures UseSnapshot(j, t).Done? ==> !UseSnapshot(j, t).ok
    ensures var r := UseSnapshot(j, t); r.More? ==>
      && SameIds(j.books, r.j.books) && r.j.cur == j.cur
      && if r.j.books[t].active then Tracking(Swept(r.j.books[t]), h.es, h.upTo[j.cur]) else Waiting(r.j, t, h)
  {
    hide Tracking, FaithfulEntries, Swept;
    var r := UseSnapshot(j, t);
    if j.snap.Some? && r.More? && SnapshotOf(j.books, t, j.snap.value) == Some(true) {
      var snap := j.snap.value;
      var last := snap.lastMsgSeqNum.v;
      if j.init != 0 && j.init <= last <= j.cur {
        var i := Locate(j.books, snap.securityId, snap.symbol).i;
        var s, a, b := h.upTo[last], h.upTo[j.init - 1], h.upTo[j.cur];
        assert a <= s <= b;
        if i == t {
          BookMerges(j.books[t], snap, h.es, a, b, s);
        } else {
          OtherBookMerges(j.books, t, snap);
        }
        SnapshotStable(j.books, r.j.books, t, h, snap);
      }
    }
  }

  lemma OtherBookMerges(books: Books, t: nat, snap: Snapshot)
    requires t < |books|
    ensures var r := ApplySnapshot(books, t, snap);
      && SameIds(books, r.books)
      && (Locate(books, snap.securityId, snap.symbol) != Target(t) ==> r.books[t] == books[t])
  {
    var l := Locate(books, snap.securityId, snap.symbol);
    if l.Target? && snap.entries.Value? {
      var b := books[l.i];
      if snap.rptSeq.Value? {
        MergeKeepsId(b.(snpSeq := snap.rptSeq.v, empty := false), snap.entries.v);
      }
    }
  }

  lemma {:induction false} MergeKeepsId(b: BookState, es: seq<MdEntry>)
    ensures MergeEntries(b, es).book.id == b.id
    decreases |es|
  {
    if es != [] {
      MergeKeepsId(b, es[..|es| - 1]);
    }
  }

  lemma TurnKeeps(j: Joining, t: nat, h: History, turn: Turn)
    requires GoodFeed(h) && Waiting(j, t, h) && FaithfulTurn(j.books, t, h, j.cur, turn)
    ensures match JoinTurn(j, t, turn)
      case Done(ok, _, _) => !ok
      case More(j') =>
        && SameIds(j.books, j'.books)
        && j'.cur == (if turn.inc.Got? then turn.inc.msg.msgSeqNum else j.cur) < |h.upTo|
        && if j'.books[t].active then Tracking(Swept(j'.books[t]), h.es, h.upTo[j'.cur]) else Waiting(j', t, h)
  {
    IncrementKeepsWaiting(j, t, h, turn.inc);
    var r1 := TakeIncrement(j, turn.inc);
    if r1.More? {
      if turn.snp.Got? {
        SnapshotStable(j.books, r1.j.books, t, h, turn.snp.msg);
      }
      HoldKeepsWaiting(r1.j, t, h, turn.snp);
      var r2 := TakeSnapshot(r1.j, turn.snp);
      if r2.More? {
        SnapshotMerges(r2.j, t, h);
        IdsCompose(j.books, r1.j.books, UseSnapshot(r2.j, t));
      }
    }
  }

  lemma IdsCompose(x: Books, y: Books, r: Joined)
    requires SameIds(x, y)
    ensures r.More? && SameIds(y, r.j.books) ==> SameIds(x, r.j.books)
  {
  }

  lemma HoldKeepsWaiting(j: Joining, t: nat, h: History, snp: Poll<Snapshot>)
    requires GoodFeed(h) && Waiting(j, t, h)
    requires snp.Got? ==> FaithfulSnapshot(j.books, t, h, snp.msg)
    ensures var r := TakeSnapshot(j, snp);
      if r.More? then Waiting(r.j, t, h) && r.j.books == j.books && r.j.cur == j.cur else !r.ok
  {
  }

  /** Join correctness: however the feeds delivered the messages, a join that succeeds leaves the book equal to the
      replay of the whole history up to the last increment applied. */
  lemma {:induction false} JoinRunIsReplay(j: Joining, t: nat, h: History, turns: seq<Turn>)
    requires GoodFeed(h) && t < |j.books| && j.cur < |h.upTo|
    requires if j.books[t].active then Tracking(Swept(j.books[t]), h.es, h.upTo[j.cur]) else Waiting(j, t, h)
    requires FaithfulTurns(j.books, t, h, j.cur, turns)
    ensures match JoinRun(j, t, turns)
      case Done(ok, books, cur) => ok ==>
        t < |books| && cur < |h.upTo| && Tracking(books[t], h.es, h.upTo[cur]) && !books[t].join
      case More(_) => true
    decreases |turns|
  {
    if !j.books[t].active && turns != [] {
      TurnKeeps(j, t, h, turns[0]);
      var r := JoinTurn(j, t, turns[0]);
      if r.More? {
        TurnsStable(j.books, r.j.books, t, h, r.j.cur, turns[1..]);
        JoinRunIsReplay(r.j, t, h, turns[1..]);
      }
    }
  }

  lemma JoinIsReplay(books: Books, t: nat, h: History, turns: seq<Turn>)
    requires GoodFeed(h) && t < |books|
    requires Cleared(books[t].(active := false)) && FaithfulTurns(books, t, h, 0, turns)
    ensures match JoinRun(JoinStart(books, t), t, turns)
      case Done(ok, after, cur) => ok ==>
        t < |after| && cur < |h.upTo| && Tracking(after[t], h.es, h.upTo[cur]) && !after[t].join
      case More(_) => true
  {
    var j := JoinStart(books, t);
    TurnsStable(books, j.books, t, h, 0, turns);
    JoinRunIsReplay(j, t, h, turns);
  }

  // ----- after the join -------------------------------------------------------------------

  /** A level that the book shows under the key of an event is that of its price. */
  lemma ShownIsOwn(m: Levels, es: seq<Event>, n: nat, i: nat, p: nat)
    requires GoodHistory(es) && n <= |es| && i < |es| && p in Replay(es, n, es[i].buy) && KeyOf(p) == KeyOf(es[i].price)
    ensures p == es[i].price
  {
    ReplayIsNamed(es, n, es[i].buy, p);
    KeyNamesPrice(es, es[i].buy, p, es[i].price);
  }

  lemma ModifyTracks(m: Levels, es: seq<Event>, n: nat, o: Order)
    requires GoodHistory(es) && n < |es| && !es[n].delete
    requires o == LevelBook.Order(n + 1, es[n].price, es[n].size, es[n].buy)
    requires Clean(m, n) && Shows(m, Replay(es, n, o.buy))
    ensures Modified(m, o).Some?
    ensures var m' := Modified(m, o).value; Clean(m', n + 1) && Shows(m', Replay(es, n + 1, o.buy))
  {
    assert es[n] in es;
    var k, r, next, m' := KeyOf(o.price), Replay(es, n, o.buy), Replay(es, n + 1, o.buy), Modified(m, o).value;
    if k in m {
      ShownIsOwn(m, es, n, n, m[k].price);
    }
    forall p | p in next ensures ShowsAt(m', p, next[p]) {
      if p != o.price {
        assert ShowsAt(m, p, r[p]);
        if KeyOf(p) == k {
          ShownIsOwn(m, es, n, n, p);
        }
      }
    }
  }

  lemma DeleteTracks(m: Levels, es: seq<Event>, n: nat)
    requires GoodHistory(es) && n < |es| && es[n].delete
    requires Clean(m, n) && Shows(m, Replay(es, n, es[n].buy))
    ensures var m' := m - {KeyOf(es[n].price)}; Clean(m', n + 1) && Shows(m', Replay(es, n + 1, es[n].buy))
  {
    var r, m' := Replay(es, n, es[n].buy), m - {KeyOf(es[n].price)};
    forall p | p in Replay(es, n + 1, es[n].buy) ensures ShowsAt(m', p, r[p]) {
      assert ShowsAt(m, p, r[p]);
      if KeyOf(p) == KeyOf(es[n].price) {
        ShownIsOwn(m, es, n, n, p);
      }
    }
  }

  lemma OneSideTracks(b: BookState, es: seq<Event>, n: nat, m: Levels)
    requires n < |es| && Tracking(b, es, n)
    requires Clean(m, n + 1) && Shows(m, Replay(es, n + 1, es[n].buy))
    ensures Tracking(b.(rptSeq := n + 1, empty := false, sides := b.sides.With(es[n].buy, m)), es, n + 1)
  {
    var r := b.sides.With(es[n].buy, m);
    forall buy ensures Shows(r.Of(buy), Replay(es, n + 1, buy)) {
      assert Shows(b.sides.Of(buy), Replay(es, n, buy));
    }
  }

  lemma AcceptTracks(b: BookState, e: MdEntry, es: seq<Event>, n: nat)
    requires GoodHistory(es) && n < |es| && Tracking(b, es, n)
    requires Reports(e, b.id.tick, es[n], n + 1) && !OtherSession(b.id, e.session)
    ensures Accept(b, e).ok && Tracking(Accept(b, e).book, es, n + 1) && Accept(b, e).book.id == b.id
  {
    var ev, m := es[n], b.sides.Of(es[n].buy);
    assert Shows(m, Replay(es, n, ev.buy));
    var b' := b.(rptSeq := n + 1, empty := false);
    assert Accept(b, e) == Incremented(b', e);
    var o := Read(e, b.id.tick, n + 1).o;
    if ev.delete {
      DeleteTracks(m, es, n);
      OneSideTracks(b, es, n, m - {KeyOf(ev.price)});
    } else {
      assert ev in es;
      ModifyTracks(m, es, n, o);
      OneSideTracks(b, es, n, Modified(m, o).value);
    }
  }

  /** Every increment that follows keeps the book equal to the replay. */
  lemma {:induction false} EntriesTrack(books: Books, t: nat, entries: seq<MdEntry>, es: seq<Event>, from: nat, to: nat)
    requires t < |books| && GoodHistory(es) && from <= |es| && to <= |es|
    requires Carries(books, t, entries, es, from, to) && Tracking(books[t], es, from)
    requires ApplyEntries(books, entries).ok
    ensures Tracking(ApplyEntries(books, entries).books[t], es, to)
    decreases |entries|
  {
    if entries != [] {
      var prev, e := entries[..|entries| - 1], entries[|entries| - 1];
      var mid := ApplyEntries(books, prev).books;
      EntriesKeepIds(books, prev);
      LocateStable(books, mid, e.securityId, e.symbol);
      EntriesTrack(books, t, prev, es, from, if Hits(books, t, e) then to - 1 else to);
      if Hits(books, t, e) {
        AcceptTracks(mid[t], e, es, to - 1);
      }
    }
  }

  // ----- what the message numbers do not guard --------------------------------------------

  /** Four messages: set price 2, set price 1, delete price 1, nothing. */
  const LOSSY: History := History([Event(true, 2, 1, false), Event(true, 1, 1, false), Event(true, 1, 0, true)],
                                  [0, 1, 2, 3, 3])

  const FRESH: BookState := BookState(BookId(1, "", "", 0), Sides(map[], map[]), 0, 0, false, false, false)

  /** An increment that sets price 1, in message 2. */
  const SETS_PRICE_1: MdEntry :=
    MdEntry(Value(1), Absent, Absent, Value(2), Value('0'), Value(IntSize(1)), Value(Decimal(0, 1)), Value(0))

  /** The snapshot after message 3. */
  const AFTER_3: Snapshot := Snapshot(Value(1), Absent, Value(3), Value(3), Value([Line(2, 0)]))

  /** Message 3 is dropped: the second turn brings message 4 and the snapshot. */
  const LOSSY_TURNS: seq<Turn> := [Turn(Got(Increment(2, Value([SETS_PRICE_1]))), Nothing),
                                   Turn(Got(Increment(4, Value([]))), Got(AFTER_3))]

  lemma OneEntry(books: Books, e: MdEntry)
    ensures ApplyEntries(books, [e]) == ApplyEntry(books, e)
  {
    assert [e][..|[e]| - 1] == [];
    assert ApplyEntries(books, []) == Outcome(true, books);
  }

  lemma OneLine(b: BookState, e: MdEntry)
    ensures MergeEntries(b, [e]) == Snapshotted(b, e)
  {
    assert [e][..|[e]| - 1] == [];
    assert MergeEntries(b, []) == Applied(true, b);
  }

  lemma Price1IsBuffered(b: BookState)
    requires b == FRESH.(join := true)
    ensures ApplyEntry([b], SETS_PRICE_1) == Outcome(true,
                                                     [b.(sides := Sides(map[1 := Entry(2, 1, 1)], map[]), rptSeq := 2)])
  {
    assert FindById([b], 1) == Some(0);
    assert Locate([b], SETS_PRICE_1.securityId, SETS_PRICE_1.symbol) == Target(0);
    assert Read(SETS_PRICE_1, 0, 2) == Reading.Order(LevelBook.Order(2, 1, 1, true));
    var c := b.(rptSeq := 2);
    assert Accept(b, SETS_PRICE_1) == Incremented(c, SETS_PRICE_1);
    assert Modified(map[], LevelBook.Order(2, 1, 1, true)) == Some(map[1 := Entry(2, 1, 1)]);
  }

  lemma Price1Survives(b: BookState)
    requires b == FRESH.(join := true, sides := Sides(map[1 := Entry(2, 1, 1)], map[]), rptSeq := 2)
    ensures var r := ApplySnapshot([b], 0, AFTER_3);
      && r.ok && |r.books| == 1 && r.books[0].active && !r.books[0].empty
      && r.books[0].sides.bids == map[1 := Entry(2, 1, 1), 2 := Entry(3, 2, 1)]
  {
    assert FindById([b], 1) == Some(0);
    assert Locate([b], AFTER_3.securityId, AFTER_3.symbol) == Target(0);
    var c := b.(snpSeq := 3, empty := false);
    OneLine(c, Line(2, 0));
    assert Read(Line(2, 0), 0, 3) == Reading.Order(LevelBook.Order(3, 2, 1, true));
    assert AFTER_3.entries.v[|AFTER_3.entries.v| - 1].session == Absent;
  }

  lemma LossyReplay()
    ensures 1 !in Replay(LOSSY.es, 3, true) && forall p | p in Replay(LOSSY.es, 3, true) :: p == 2
  {
    var _ := Replay(LOSSY.es, 2, true);
  }

  lemma SecondTurnJoins(b: BookState, j: Joining)
    requires b == FRESH.(join := true, sides := Sides(map[1 := Entry(2, 1, 1)], map[]), rptSeq := 2)
    requires j == Joining([b], 2, 2, false, None)
    ensures var r := JoinTurn(j, 0, LOSSY_TURNS[1]);
      && r.More? && |r.j.books| == 1 && r.j.cur == 4 && r.j.books[0].active
      && r.j.books[0].sides.bids == map[1 := Entry(2, 1, 1), 2 := Entry(3, 2, 1)]
  {
    Price1Survives(b);
    var j1 := j.(cur := 4);
    assert ApplyEntries([b], []) == Outcome(true, [b]);
    assert TakeIncrement(j, LOSSY_TURNS[1].inc) == More(j1);
    var j2 := j1.(snap := Some(AFTER_3));
    assert TakeSnapshot(j1, LOSSY_TURNS[1].snp) == More(j2);
    assert FindById([b], 1) == Some(0);
    assert SnapshotOf(j2.books, 0, AFTER_3) == Some(true);
  }

  /** With message 3 dropped every number still fits, the join succeeds, and the deleted price stays in the book. */
  lemma DroppedMessageGoesUnnoticed()
    ensures match JoinRun(JoinStart([FRESH], 0), 0, LOSSY_TURNS)
      case Done(ok, books, cur) => ok && cur == 4 && |books| == 1 && !IsReplay(books[0].sides, LOSSY.es, LOSSY.upTo[4])
      case More(_) => false
  {
    var j := JoinStart([FRESH], 0);
    var b := FRESH.(join := true);
    assert j.books == [b];
    OneEntry([b], SETS_PRICE_1);
    Price1IsBuffered(b);
    var c := b.(sides := Sides(map[1 := Entry(2, 1, 1)], map[]), rptSeq := 2);
    var j1 := Joining([c], 2, 2, false, None);
    assert JoinTurn(j, 0, LOSSY_TURNS[0]) == More(j1);
    SecondTurnJoins(c, j1);
    var j2 := JoinTurn(j1, 0, LOSSY_TURNS[1]).j;
    assert LOSSY_TURNS[1..][0] == LOSSY_TURNS[1];
    assert JoinRun(j, 0, LOSSY_TURNS) == JoinRun(j1, 0, LOSSY_TURNS[1..]);
    assert JoinRun(j1, 0, LOSSY_TURNS[1..]) == JoinRun(j2, 0, LOSSY_TURNS[1..][1..]);
    LossyReplay();
    var sides := Swept(j2.books[0]).sides;
    NotShown(j2.books[0].sides.bids, Replay(LOSSY.es, 3, true));
  }
}
