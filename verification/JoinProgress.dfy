/** When a join comes to its end: a snapshot that fits is kept until the increments have reached it, and then it is
    merged (fast_books_join of lib/proto/fast_book.c). */
module JoinProgress {
  import opened Wrappers
  import opened LevelBook
  import opened BookSpec
  import opened ReplayLaws
  import opened JoinLaws

  /** A snapshot of the book `t` that says what it shows, for the session of the book. */
  ghost predicate Suits(books: Books, t: nat, h: History, snap: Snapshot)
    requires t < |books| && GoodFeed(h)
  {
    && FaithfulSnapshot(books, t, h, snap) && SnapshotOf(books, t, snap) == Some(true)
    && Locate(books, snap.securityId, snap.symbol) == Target(t)
    && snap.lastMsgSeqNum.Value? && snap.entries.Value? && snap.entries.v != []
    && !snap.entries.v[|snap.entries.v| - 1].session.Empty?
    && !OtherSession(books[t].id, snap.entries.v[|snap.entries.v| - 1].session)
  }

  lemma SuitsStable(x: Books, y: Books, t: nat, h: History, snap: Snapshot)
    requires SameIds(x, y) && t < |x| && GoodFeed(h) && Suits(x, t, h, snap)
    ensures Suits(y, t, h, snap)
  {
    SnapshotStable(x, y, t, h, snap);
    LocateStable(x, y, snap.securityId, snap.symbol);
  }

  /** The increments have reached the snapshot: it is merged, and the book is in use. */
  lemma SnapshotCompletes(j: Joining, t: nat, h: History)
    requires GoodFeed(h) && Waiting(j, t, h) && j.snap.Some? && Suits(j.books, t, h, j.snap.value)
    requires j.init != 0 && j.init <= j.snap.value.lastMsgSeqNum.v <= j.cur
    ensures UseSnapshot(j, t).More? && UseSnapshot(j, t).j.books[t].active
  {
    var snap := j.snap.value;
    var s, a, n := h.upTo[snap.lastMsgSeqNum.v], h.upTo[j.init - 1], h.upTo[j.cur];
    MergeIsReplay(j.books[t].(snpSeq := s, empty := false), snap.entries.v, h.es, a, n, s);
  }

  /** They have not: it is kept. */
  lemma SnapshotIsKept(j: Joining, t: nat, h: History)
    requires GoodFeed(h) && Waiting(j, t, h) && j.snap.Some? && Suits(j.books, t, h, j.snap.value)
    requires j.init != 0 && j.init <= j.snap.value.lastMsgSeqNum.v && j.cur < j.snap.value.lastMsgSeqNum.v
    ensures UseSnapshot(j, t) == More(j.(snpReceived := true))
  {
  }

  /** It is from before the first increment: it is not kept, and the next turn asks for another. */
  lemma OldSnapshotIsReplaced(j: Joining, t: nat, snp: Poll<Snapshot>)
    requires t < |j.books| && j.snap.Some? && j.snap.value.lastMsgSeqNum.Value? && !j.snpReceived
    requires SnapshotOf(j.books, t, j.snap.value) == Some(true) && j.snap.value.lastMsgSeqNum.v < j.init
    ensures UseSnapshot(j, t) == More(j)
    ensures snp.Got? ==> TakeSnapshot(j, snp) == More(j.(snap := Some(snp.msg)))
    ensures snp.Nothing? ==> TakeSnapshot(j, snp) == More(j.(snap := None))
  {
  }

  /** It has been merged: it is kept, unless it says that the book is empty; then the next turn asks for another. */
  lemma EmptySnapshotIsReplaced(j: Joining, t: nat, snp: Snapshot)
    requires t < |j.books| && j.snap.Some? && j.snap.value.lastMsgSeqNum.Value?
    requires SnapshotOf(j.books, t, j.snap.value) == Some(true)
    requires j.init != 0 && j.init <= j.snap.value.lastMsgSeqNum.v <= j.cur
    requires ApplySnapshot(j.books, t, j.snap.value).ok
    ensures var books := ApplySnapshot(j.books, t, j.snap.value).books;
      && UseSnapshot(j, t).More? && UseSnapshot(j, t).j.books == books
      && TakeSnapshot(UseSnapshot(j, t).j, Got(snp)) ==
           More(UseSnapshot(j, t).j.(snap := if books[t].empty then Some(snp) else j.snap))
  {
  }

  /** While a snapshot is kept the snapshot feeds are not asked. */
  lemma FeedsAreNotAsked(j: Joining, t: nat, inc: Poll<Increment>, x: Poll<Snapshot>, y: Poll<Snapshot>)
    requires t < |j.books| && j.snpReceived
    ensures JoinTurn(j, t, Turn(inc, x)) == JoinTurn(j, t, Turn(inc, y))
  {
  }

  /** No increment of these turns fails. */
  ghost predicate Smooth(j: Joining, t: nat, turns: seq<Turn>)
    requires t < |j.books|
    decreases |turns|
  {
    turns != [] ==>
      && TakeIncrement(j, turns[0].inc).More?
      && (JoinTurn(j, t, turns[0]).More? ==> Smooth(JoinTurn(j, t, turns[0]).j, t, turns[1..]))
  }

  /** One of the increments has this number or a later one. */
  ghost predicate Reach(turns: seq<Turn>, n: nat) {
    exists k :: 0 <= k < |turns| && turns[k].inc.Got? && turns[k].inc.msg.msgSeqNum >= n
  }

  lemma ReachLater(turns: seq<Turn>, n: nat)
    requires turns != []
    ensures Reach(turns, n) <==> (turns[0].inc.Got? && turns[0].inc.msg.msgSeqNum >= n) || Reach(turns[1..], n)
  {
    if Reach(turns[1..], n) {
      var k :| 0 <= k < |turns[1..]| && turns[1..][k].inc.Got? && turns[1..][k].inc.msg.msgSeqNum >= n;
      assert turns[k + 1] == turns[1..][k];
    }
    if k :| 0 < k < |turns| && turns[k].inc.Got? && turns[k].inc.msg.msgSeqNum >= n {
      assert turns[1..][k - 1] == turns[k];
    }
  }

  /** A snapshot that suits is kept for increments still to come. */
  ghost predicate Keeps(j: Joining, t: nat, h: History) {
    && GoodFeed(h) && t < |j.books| && j.cur < |h.upTo| && Waiting(j, t, h)
    && j.snpReceived && j.snap.Some? && j.snap.value.lastMsgSeqNum.Value? && Suits(j.books, t, h, j.snap.value)
    && j.init != 0 && j.init <= j.snap.value.lastMsgSeqNum.v && j.cur < j.snap.value.lastMsgSeqNum.v
  }

  /** One turn: the increment reaches the snapshot and the book is in use, or the snapshot is still kept. */
  lemma TurnReaches(j: Joining, t: nat, h: History, turn: Turn)
    requires Keeps(j, t, h) && FaithfulTurn(j.books, t, h, j.cur, turn) && TakeIncrement(j, turn.inc).More?
    ensures var r := JoinTurn(j, t, turn);
      && r.More? && SameIds(j.books, r.j.books)
      && if Reach([turn], j.snap.value.lastMsgSeqNum.v) then r.j.books[t].active
         else Keeps(r.j, t, h) && r.j.snap == j.snap && !r.j.books[t].active
              && r.j.cur == if turn.inc.Got? then turn.inc.msg.msgSeqNum else j.cur
  {
    hide Waiting, Suits, FaithfulTurn, FaithfulSnapshot, UseSnapshot;
    var last := j.snap.value.lastMsgSeqNum.v;
    IncrementOnly(j, t, h, turn);
    IncrementKeepsWaiting(j, t, h, turn.inc);
    var j1 := TakeIncrement(j, turn.inc).j;
    SuitsStable(j.books, j1.books, t, h, j.snap.value);
    FirstIsKept(j, turn.inc);
    ReachOne(turn, last);
    if j1.cur >= last {
      SnapshotCompletes(j1, t, h);
      MergeKeepsIds(j1, t);
    } else {
      SnapshotIsKept(j1, t, h);
      NotInUse(j1, t, h);
    }
  }

  lemma IncrementOnly(j: Joining, t: nat, h: History, turn: Turn)
    requires GoodFeed(h) && t < |j.books| && j.cur < |h.upTo| && FaithfulTurn(j.books, t, h, j.cur, turn)
    ensures FaithfulTurn(j.books, t, h, j.cur, Turn(turn.inc, Nothing))
  {
  }

  lemma NotInUse(j: Joining, t: nat, h: History)
    requires GoodFeed(h) && Waiting(j, t, h)
    ensures !j.books[t].active
  {
  }

  lemma MergeKeepsIds(j: Joining, t: nat)
    requires t < |j.books| && UseSnapshot(j, t).More?
    ensures SameIds(j.books, UseSnapshot(j, t).j.books)
  {
    if j.snap.Some? {
      OtherBookMerges(j.books, t, j.snap.value);
    }
  }

  lemma ReachOne(turn: Turn, n: nat)
    ensures Reach([turn], n) <==> turn.inc.Got? && turn.inc.msg.msgSeqNum >= n
  {
    assert [turn][0] == turn;
  }

  /** Once a snapshot that suits is kept, the join succeeds exactly when the increments reach it; until then it
      waits. */
  lemma {:induction false} JoinCompletesExactly(j: Joining, t: nat, h: History, turns: seq<Turn>)
    requires Keeps(j, t, h) && FaithfulTurns(j.books, t, h, j.cur, turns) && Smooth(j, t, turns)
    ensures match JoinRun(j, t, turns)
      case Done(ok, _, _) => ok && Reach(turns, j.snap.value.lastMsgSeqNum.v)
      case More(_) => !Reach(turns, j.snap.value.lastMsgSeqNum.v)
    decreases |turns|
  {
    hide Waiting, Suits, FaithfulTurn, Reach, JoinTurn, TakeIncrement;
    NotInUse(j, t, h);
    var last := j.snap.value.lastMsgSeqNum.v;
    if turns == [] {
      NothingReaches(last);
    } else {
      TurnReaches(j, t, h, turns[0]);
      ReachLater(turns, last);
      ReachOne(turns[0], last);
      var r := JoinTurn(j, t, turns[0]).j;
      if !Reach([turns[0]], last) {
        TurnsStable(j.books, r.books, t, h, r.cur, turns[1..]);
        JoinCompletesExactly(r, t, h, turns[1..]);
      } else {
        assert JoinRun(r, t, turns[1..]) == Done(true, r.books[t := Swept(r.books[t])], r.cur);
      }
      assert JoinRun(j, t, turns) == JoinRun(r, t, turns[1..]);
    }
  }

  lemma NothingReaches(n: nat)
    ensures !Reach([], n)
  {
  }

  lemma FirstIsKept(j: Joining, inc: Poll<Increment>)
    requires j.init != 0 && TakeIncrement(j, inc).More?
    ensures TakeIncrement(j, inc).j.init == j.init
  {
  }

  /** A turn fails exactly for one of these: the increment feeds fail or bring what the books refuse; the snapshot
      feeds fail when they are asked; the snapshot held names no book, or is the book's own and does not say after
      which message it was taken; or it is refused. */
  lemma TurnFailsExactly(j: Joining, t: nat, turn: Turn)
    requires t < |j.books|
    ensures var after := if turn.inc.Got? then ApplyIncrement(j.books, turn.inc.msg) else Outcome(true, j.books);
      var held := if j.snpReceived then j.snap else if turn.snp.Got? then Some(turn.snp.msg) else None;
      JoinTurn(j, t, turn).Done? <==>
        || turn.inc.Failed? || !after.ok
        || (!j.snpReceived && turn.snp.Failed?)
        || (held.Some?
            && (SnapshotOf(after.books, t, held.value).None?
                || (SnapshotOf(after.books, t, held.value) == Some(true)
                    && (!held.value.lastMsgSeqNum.Value?
                        || (TurnSurrounds(j, turn, held.value.lastMsgSeqNum.v)
                            && !ApplySnapshot(after.books, t, held.value).ok)))))
    ensures JoinTurn(j, t, turn).Done? ==> !JoinTurn(j, t, turn).ok
  {
  }

  /** After the increment of this turn, the increments received begin at or before message `last` and have reached
      it. */
  predicate TurnSurrounds(j: Joining, turn: Turn, last: nat) {
    var cur := if turn.inc.Got? then turn.inc.msg.msgSeqNum else j.cur;
    var first := if j.init == 0 && turn.inc.Got? then turn.inc.msg.msgSeqNum else j.init;
    first != 0 && first <= last <= cur
  }
}
