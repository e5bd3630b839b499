/** Joining a book over feeds that lose messages: fast_books_join of lib/proto/fast_book.c is right exactly when the
    snapshot was taken within the increments that the book has buffered, by their RptSeq. */
module JoinExact {
  import opened Wrappers
  import opened LevelBook
  import opened BookSpec
  import opened ReplayLaws
  import opened JoinLaws
  import opened RptSeqLaws
  import A = FeedArbitration

  // ----- turns with losses ----------------------------------------------------------------

  /** One turn after message `cur`: increments come in order, but any number of them may be missing. */
  ghost predicate LossyTurn(books: Books, t: nat, h: History, cur: nat, turn: Turn)
    requires t < |books| && GoodFeed(h) && cur < |h.upTo|
  {
    && (turn.inc.Got? ==> FaithfulIncrement(books, t, h, turn.inc.msg) && cur < turn.inc.msg.msgSeqNum)
    && (turn.snp.Got? ==> FaithfulSnapshot(books, t, h, turn.snp.msg))
  }

  ghost predicate LossyTurns(books: Books, t: nat, h: History, cur: nat, turns: seq<Turn>)
    requires t < |books| && GoodFeed(h) && cur < |h.upTo|
    decreases |turns|
  {
    turns != [] ==>
      && LossyTurn(books, t, h, cur, turns[0])
      && LossyTurns(books, t, h, if turns[0].inc.Got? then turns[0].inc.msg.msgSeqNum else cur, turns[1..])
  }

  lemma {:induction false} LossyStable(x: Books, y: Books, t: nat, h: History, cur: nat, turns: seq<Turn>)
    requires SameIds(x, y) && t < |x| && GoodFeed(h) && cur < |h.upTo| && LossyTurns(x, t, h, cur, turns)
    ensures LossyTurns(y, t, h, cur, turns)
    decreases |turns|
  {
    if turns != [] {
      var turn := turns[0];
      if turn.inc.Got? {
        var m := turn.inc.msg.msgSeqNum;
        CarriesStable(x, y, t, turn.inc.msg.entries.v, h.es, h.upTo[m - 1], h.upTo[m]);
      }
      if turn.snp.Got? {
        SnapshotStable(x, y, t, h, turn.snp.msg);
      }
      LossyStable(x, y, t, h, if turn.inc.Got? then turn.inc.msg.msgSeqNum else cur, turns[1..]);
    }
  }

  // ----- a book that buffers what it gets -------------------------------------------------

  /** The book has buffered events `a`+1 .. `n` and no others; none while the two are the same. */
  ghost predicate Holds(b: BookState, es: seq<Event>, a: nat, n: nat) {
    && a <= n <= |es| && b.join && !b.active
    && b.sides == Sides(Buffer(es, a, n, true), Buffer(es, a, n, false))
    && b.rptSeq == if a < n then n else 0
  }

  /** The first RptSeq that reaches the book. */
  function FirstHit(books: Books, t: nat, entries: seq<MdEntry>): Option<nat>
    requires t < |books|
  {
    var r := Reached(books, t, entries);
    if r != [] && r[0].rptSeq.Value? then Some(r[0].rptSeq.v) else None
  }

  /** What reaches the book is what is carried. */
  lemma {:induction false} FirstCarried(books: Books, t: nat, entries: seq<MdEntry>, es: seq<Event>, from: nat, to: nat)
    requires t < |books| && to <= |es| && Carries(books, t, entries, es, from, to)
    ensures from <= to && |Reached(books, t, entries)| == to - from
    ensures from < to ==> Reached(books, t, entries)[0].rptSeq == Value(from + 1)
    decreases |entries|
  {
    if entries != [] {
      var prev, e := entries[..|entries| - 1], entries[|entries| - 1];
      FirstCarried(books, t, prev, es, from, if Hits(books, t, e) then to - 1 else to);
    }
  }

  lemma {:induction false} NothingCarried(books: Books, t: nat, entries: seq<MdEntry>, es: seq<Event>, from: nat)
    requires t < |books| && from <= |es| && Carries(books, t, entries, es, from, from)
    requires ApplyEntries(books, entries).ok
    ensures ApplyEntries(books, entries).books[t] == books[t]
    decreases |entries|
  {
    if entries != [] {
      var prev, e := entries[..|entries| - 1], entries[|entries| - 1];
      var mid := ApplyEntries(books, prev).books;
      FirstCarried(books, t, entries, es, from, from);
      if !Hits(books, t, e) {
        NothingCarried(books, t, prev, es, from);
        EntriesKeepIds(books, prev);
        LocateStable(books, mid, e.securityId, e.symbol);
        EntryPasses(mid, t, e);
      }
    }
  }

  /** A book whose counter runs accepts nothing but the next event. */
  lemma {:induction false} NextIsCarried(books: Books, t: nat, entries: seq<MdEntry>, es: seq<Event>, from: nat,
                                         to: nat)
    requires t < |books| && GoodHistory(es) && to <= |es| && from < to && Carries(books, t, entries, es, from, to)
    requires ApplyEntries(books, entries).ok && books[t].join && 0 < books[t].rptSeq <= |es|
    ensures books[t].rptSeq == from
    decreases |entries|
  {
    var prev, e := entries[..|entries| - 1], entries[|entries| - 1];
    var mid := ApplyEntries(books, prev).books;
    if Hits(books, t, e) {
      if from < to - 1 {
        NextIsCarried(books, t, prev, es, from, to - 1);
      } else {
        CarriesForward(books, t, prev, es, from, to - 1);
        NothingCarried(books, t, prev, es, from);
        EntriesKeepIds(books, prev);
        LocateStable(books, mid, e.securityId, e.symbol);
        assert Accept(mid[t], e).ok;
      }
    } else {
      NextIsCarried(books, t, prev, es, from, to);
    }
  }

  /** One message: the buffer grows by what it carries, and if it was empty it starts there. */
  lemma EntriesHold(books: Books, t: nat, entries: seq<MdEntry>, es: seq<Event>, a: nat, n: nat, from: nat, to: nat)
      returns (a': nat, n': nat)
    requires t < |books| && GoodHistory(es) && from <= |es| && to <= |es|
    requires Carries(books, t, entries, es, from, to) && Holds(books[t], es, a, n) && ApplyEntries(books, entries).ok
    ensures Holds(ApplyEntries(books, entries).books[t], es, a', n')
    ensures a < n ==> a' == a && n' >= n
    ensures a == n ==> FirstHit(books, t, entries) == if a' < n' then Some(a' + 1) else None
  {
    FirstCarried(books, t, entries, es, from, to);
    if from == to {
      NothingCarried(books, t, entries, es, from);
      a', n' := a, n;
    } else if a < n {
      NextIsCarried(books, t, entries, es, from, to);
      EntriesBuffer(books, t, entries, es, a, n, to);
      a', n' := a, to;
    } else {
      EntriesBuffer(books, t, entries, es, from, from, to);
      a', n' := from, to;
    }
  }

  // ----- every join -----------------------------------------------------------------------

  /** Entries of a faithful snapshot touch nothing but the sides. */
  lemma {:induction false} MergeTouchesSides(b: BookState, entries: seq<MdEntry>, es: seq<Event>, s: nat)
    requires s <= |es| && b.snpSeq == s && forall i | 0 <= i < |entries| :: States(entries[i], b.id.tick, es, s)
    ensures var r := MergeEntries(b, entries).book; r == b.(sides := r.sides)
    decreases |entries|
  {
    if entries != [] {
      var prev, e := entries[..|entries| - 1], entries[|entries| - 1];
      assert forall i | 0 <= i < |prev| :: prev[i] == entries[i];
      MergeTouchesSides(b, prev, es, s);
      assert States(e, b.id.tick, es, s);
    }
  }

  /** A joined book whose increments were `a`+1 .. `n`: it is right if the snapshot was taken from `a` to `n`.
      Without increments it is the snapshot. */
  ghost predicate RightWithin(b: BookState, es: seq<Event>, a: nat, n: nat) {
    && a <= n <= |es| && b.snpSeq > 0
    && if a < n then b.rptSeq == n && (a <= b.snpSeq <= n ==> IsReplay(b.sides, es, n))
       else b.rptSeq == 0 && b.snpSeq <= |es| && IsReplay(b.sides, es, b.snpSeq)
  }

  lemma MergeIsRight(b: BookState, snap: Snapshot, es: seq<Event>, a: nat, n: nat, s: nat)
    requires GoodHistory(es) && s <= |es| && Holds(b, es, a, n)
    requires snap.rptSeq == Value(s)
    requires snap.entries.Value? && snap.entries.v != []
             && !OtherSession(b.id, snap.entries.v[|snap.entries.v| - 1].session) ==>
      FaithfulEntries(snap.entries.v, b.id.tick, es, s)
    ensures var r := MergeSnapshot(b, snap);
      && r.book.id == b.id
      && (r.ok ==> if r.book.active then RightWithin(Swept(r.book), es, a, n) else r.book == b)
  {
    var r := MergeSnapshot(b, snap);
    if r.ok && r.book.active {
      MergeTouchesSides(b.(snpSeq := s, empty := false), snap.entries.v, es, s);
      assert States(snap.entries.v[0], b.id.tick, es, s);
      if a == n {
        BookMerges(b, snap, es, s, s, s);
      } else if a <= s <= n {
        BookMerges(b, snap, es, a, n, s);
      }
    } else if snap.entries.Value? {
      MergeKeepsId(b.(snpSeq := s, empty := false), snap.entries.v);
      if r.ok && snap.entries.v != [] && !OtherSession(b.id, snap.entries.v[|snap.entries.v| - 1].session) {
        MergeTouchesSides(b.(snpSeq := s, empty := false), snap.entries.v, es, s);
      }
    }
  }

  ghost predicate HeldIsFaithful(j: Joining, t: nat, h: History)
    requires t < |j.books| && GoodFeed(h)
  {
    j.snap.Some? ==> FaithfulSnapshot(j.books, t, h, j.snap.value)
  }

  /** Between two turns: the book buffers, or has been joined. */
  ghost predicate Between(j: Joining, t: nat, h: History, a: nat, n: nat) {
    && t < |j.books| && GoodFeed(h)
    && if j.books[t].active then RightWithin(Swept(j.books[t]), h.es, a, n)
       else Holds(j.books[t], h.es, a, n) && HeldIsFaithful(j, t, h)
  }

  lemma SnapshotIsUsed(j: Joining, t: nat, h: History, a: nat, n: nat)
    requires Between(j, t, h, a, n) && !j.books[t].active
    ensures UseSnapshot(j, t).Done? ==> !UseSnapshot(j, t).ok
    ensures var r := UseSnapshot(j, t);
      r.More? ==> SameIds(j.books, r.j.books) && r.j.cur == j.cur && Between(r.j, t, h, a, n)
  {
    var r := UseSnapshot(j, t);
    if j.snap.Some? && r.More? && SnapshotOf(j.books, t, j.snap.value) == Some(true) {
      var snap := j.snap.value;
      if j.init != 0 && j.init <= snap.lastMsgSeqNum.v <= j.cur {
        OtherBookMerges(j.books, t, snap);
        if Locate(j.books, snap.securityId, snap.symbol) == Target(t) {
          MergeIsRight(j.books[t], snap, h.es, a, n, h.upTo[snap.lastMsgSeqNum.v]);
        }
        SnapshotStable(j.books, r.j.books, t, h, snap);
      }
    }
  }

  /** The RptSeq with which the buffer starts in this turn. */
  function TurnHit(books: Books, t: nat, turn: Turn): Option<nat>
    requires t < |books|
  {
    if turn.inc.Got? && turn.inc.msg.entries.Value? then FirstHit(books, t, turn.inc.msg.entries.v) else None
  }

  /** The RptSeq with which the buffer starts. */
  function FirstRpt(j: Joining, t: nat, turns: seq<Turn>): Option<nat>
    requires t < |j.books|
    decreases |turns|
  {
    if j.books[t].active || turns == [] then None
    else if TurnHit(j.books, t, turns[0]).Some? then TurnHit(j.books, t, turns[0])
    else match JoinTurn(j, t, turns[0])
      case Done(_, _, _) => None
      case More(j') => FirstRpt(j', t, turns[1..])
  }

  lemma IncrementHolds(j: Joining, t: nat, h: History, inc: Poll<Increment>, a: nat, n: nat) returns (a': nat, n': nat)
    requires Between(j, t, h, a, n) && !j.books[t].active && j.cur < |h.upTo|
    requires LossyTurn(j.books, t, h, j.cur, Turn(inc, Nothing))
    ensures a < n ==> a' == a && n' >= n
    ensures var r := TakeIncrement(j, inc); r.More? ==>
      && SameIds(j.books, r.j.books) && r.j.cur == (if inc.Got? then inc.msg.msgSeqNum else j.cur) < |h.upTo|
      && Between(r.j, t, h, a', n') && !r.j.books[t].active
      && (a == n ==> TurnHit(j.books, t, Turn(inc, Nothing)) == if a' < n' then Some(a' + 1) else None)
  {
    var r := TakeIncrement(j, inc);
    a', n' := a, n;
    if inc.Got? && r.More? {
      var m, entries := inc.msg.msgSeqNum, inc.msg.entries.v;
      EntriesKeepIds(j.books, entries);
      a', n' := EntriesHold(j.books, t, entries, h.es, a, n, h.upTo[m - 1], h.upTo[m]);
      if j.snap.Some? {
        SnapshotStable(j.books, r.j.books, t, h, j.snap.value);
      }
    }
  }

  lemma SnapshotIsHeld(j: Joining, t: nat, h: History, snp: Poll<Snapshot>, a: nat, n: nat)
    requires Between(j, t, h, a, n) && !j.books[t].active
    requires snp.Got? ==> FaithfulSnapshot(j.books, t, h, snp.msg)
    ensures var r := TakeSnapshot(j, snp);
      if r.More? then Between(r.j, t, h, a, n) && r.j.books == j.books && r.j.cur == j.cur else !r.ok
  {
  }

  /** What a turn that goes on leaves. */
  ghost predicate TurnLeaves(j: Joining, t: nat, h: History, turn: Turn, j': Joining, a': nat, n': nat) {
    && SameIds(j.books, j'.books)
    && j'.cur == (if turn.inc.Got? then turn.inc.msg.msgSeqNum else j.cur) < |h.upTo|
    && Between(j', t, h, a', n')
  }

  lemma TurnHolds(j: Joining, t: nat, h: History, turn: Turn, a: nat, n: nat) returns (a': nat, n': nat)
    requires Between(j, t, h, a, n) && !j.books[t].active && j.cur < |h.upTo|
    requires LossyTurn(j.books, t, h, j.cur, turn)
    ensures a < n ==> a' == a && n' >= n
    ensures var r := JoinTurn(j, t, turn);
      if r.Done? then !r.ok
      else
        && TurnLeaves(j, t, h, turn, r.j, a', n')
        && (a == n ==> TurnHit(j.books, t, turn) == if a' < n' then Some(a' + 1) else None)
  {
    a', n' := IncrementHolds(j, t, h, turn.inc, a, n);
    var r1 := TakeIncrement(j, turn.inc);
    if r1.More? {
      if turn.snp.Got? {
        SnapshotStable(j.books, r1.j.books, t, h, turn.snp.msg);
      }
      SnapshotIsHeld(r1.j, t, h, turn.snp, a', n');
      var r2 := TakeSnapshot(r1.j, turn.snp);
      if r2.More? {
        SnapshotIsUsed(r2.j, t, h, a', n');
        IdsCompose(j.books, r1.j.books, UseSnapshot(r2.j, t));
      }
    }
  }

  /** How a successful join ends. */
  ghost predicate EndsRight(r: Joined, t: nat, h: History, a: nat, n: nat) {
    r.Done? && r.ok ==> t < |r.books| && !r.books[t].join && RightWithin(r.books[t], h.es, a, n)
  }

  ghost predicate RunIsRight(j: Joining, t: nat, h: History, turns: seq<Turn>, a: nat, n: nat, a': nat, n': nat)
    requires t < |j.books|
  {
    && EndsRight(JoinRun(j, t, turns), t, h, a', n')
    && (a < n ==> a' == a && n' >= n)
    && var r := JoinRun(j, t, turns);
       r.Done? && r.ok && a == n ==> FirstRpt(j, t, turns) == if a' < n' then Some(a' + 1) else None
  }

  lemma RunFromTurn(j: Joining, t: nat, h: History, turns: seq<Turn>, a: nat, n: nat, a1: nat, n1: nat, a2: nat,
                    n2: nat)
    requires t < |j.books| && !j.books[t].active && turns != []
    requires a <= n && a1 <= n1 && (a < n ==> a1 == a && n1 >= n)
    requires var r := JoinTurn(j, t, turns[0]);
      && r.More? && (a == n ==> TurnHit(j.books, t, turns[0]) == if a1 < n1 then Some(a1 + 1) else None)
      && RunIsRight(r.j, t, h, turns[1..], a1, n1, a2, n2)
    ensures RunIsRight(j, t, h, turns, a, n, a2, n2)
  {
    assert JoinRun(j, t, turns) == JoinRun(JoinTurn(j, t, turns[0]).j, t, turns[1..]);
  }

  /** Whatever the feeds lost: a join that succeeds has buffered consecutive events from the first number that reached
      the book, and is right if the snapshot was taken among them. */
  lemma {:induction false} JoinRunIsRightWithin(j: Joining, t: nat, h: History, turns: seq<Turn>, a: nat, n: nat)
      returns (a': nat, n': nat)
    requires Between(j, t, h, a, n) && j.cur < |h.upTo|
    requires LossyTurns(j.books, t, h, j.cur, turns)
    ensures RunIsRight(j, t, h, turns, a, n, a', n')
    decreases |turns|
  {
    a', n' := a, n;
    if !j.books[t].active && turns != [] {
      var a1, n1 := TurnHolds(j, t, h, turns[0], a, n);
      var r := JoinTurn(j, t, turns[0]);
      if r.More? {
        LossyStable(j.books, r.j.books, t, h, r.j.cur, turns[1..]);
        a', n' := JoinRunIsRightWithin(r.j, t, h, turns[1..], a1, n1);
        RunFromTurn(j, t, h, turns, a, n, a1, n1, a', n');
      }
    }
  }

  // ----- the exact condition --------------------------------------------------------------

  /** A join over faithful feeds with losses that succeeds: its increments began with RptSeq `a`+1 and ended with
      `n`, and its snapshot was taken at RptSeq `s`. */
  ghost predicate JoinsWith(books: Books, t: nat, h: History, turns: seq<Turn>, a: nat, n: nat, s: nat) {
    && t < |books| && GoodFeed(h) && Cleared(books[t].(active := false)) && LossyTurns(books, t, h, 0, turns)
    && var j := JoinStart(books, t);
       var r := JoinRun(j, t, turns);
       && r.Done? && r.ok && t < |r.books|
       && FirstRpt(j, t, turns) == Some(a + 1) && r.books[t].rptSeq == n && r.books[t].snpSeq == s
  }

  ghost predicate JoinsToReplay(books: Books, t: nat, h: History, turns: seq<Turn>, n: nat)
    requires t < |books|
  {
    var r := JoinRun(JoinStart(books, t), t, turns);
    r.Done? && t < |r.books| && n <= |h.es| && IsReplay(r.books[t].sides, h.es, n)
  }

  lemma InsideIsRight(books: Books, t: nat, h: History, turns: seq<Turn>, a: nat, n: nat, s: nat)
    requires JoinsWith(books, t, h, turns, a, n, s) && a < n
    ensures s > 0 && (a <= s <= n ==> JoinsToReplay(books, t, h, turns, n))
  {
    var j := JoinStart(books, t);
    LossyStable(books, j.books, t, h, 0, turns);
    var _, _ := JoinRunIsRightWithin(j, t, h, turns, 0, 0);
  }

  // A feed that goes wrong outside the window.

  function EntryOf(ev: Event, k: nat): MdEntry {
    MdEntry(Value(1), Absent, Absent, Value(k), Value(if ev.buy then '0' else '1'), Value(IntSize(ev.size)),
            Value(Decimal(0, ev.price)), Value(if ev.delete then 2 else 0))
  }

  /** The entries for events `a`+1 .. `n`. */
  function EntriesOf(es: seq<Event>, a: nat, n: nat): seq<MdEntry>
    requires a <= n <= |es|
  {
    if a == n then [] else EntriesOf(es, a, n - 1) + [EntryOf(es[n - 1], n)]
  }

  lemma EntryReports(ev: Event, k: nat)
    requires GoodEvent(ev)
    ensures Reports(EntryOf(ev, k), 0, ev, k)
  {
  }

  const JOINING: BookState := FRESH.(join := true)

  function Filled(es: seq<Event>, a: nat, n: nat): BookState
    requires a <= n <= |es|
  {
    JOINING.(sides := Sides(Buffer(es, a, n, true), Buffer(es, a, n, false)), rptSeq := if a < n then n else 0)
  }

  lemma EntryFills(es: seq<Event>, a: nat, n: nat)
    requires GoodHistory(es) && a <= n < |es|
    ensures ApplyEntry([Filled(es, a, n)], EntryOf(es[n], n + 1)) == Outcome(true, [Filled(es, a, n + 1)])
    ensures Hits([JOINING], 0, EntryOf(es[n], n + 1)) && Reports(EntryOf(es[n], n + 1), 0, es[n], n + 1)
  {
    var b, e := Filled(es, a, n), EntryOf(es[n], n + 1);
    assert es[n] in es;
    EntryReports(es[n], n + 1);
    BufferTakes(es, a, n);
    assert FindById([b], 1) == Some(0) && FindById([JOINING], 1) == Some(0);
    assert Locate([b], e.securityId, e.symbol) == Target(0);
    assert Accept(b, e).ok && Accept(b, e).book == Filled(es, a, n + 1);
  }

  lemma OneEntryMore(books: Books, t: nat, entries: seq<MdEntry>, e: MdEntry, es: seq<Event>, from: nat, to: nat)
    requires t < |books| && from < to <= |es| && ApplyEntries(books, entries).ok
    requires Carries(books, t, entries, es, from, to - 1) && Hits(books, t, e)
    requires Reports(e, books[t].id.tick, es[to - 1], to)
    ensures ApplyEntries(books, entries + [e]) == ApplyEntry(ApplyEntries(books, entries).books, e)
    ensures Carries(books, t, entries + [e], es, from, to)
  {
    var all := entries + [e];
    assert all[..|all| - 1] == entries;
  }

  /** Entries `EntriesOf` fill the empty book `JOINING`. */
  ghost predicate Fills(es: seq<Event>, a: nat, n: nat) {
    && a <= n <= |es|
    && ApplyEntries([JOINING], EntriesOf(es, a, n)) == Outcome(true, [Filled(es, a, n)])
    && Carries([JOINING], 0, EntriesOf(es, a, n), es, a, n)
  }

  lemma NothingFills(es: seq<Event>, a: nat)
    requires a <= |es|
    ensures Fills(es, a, a)
  {
  }

  lemma {:induction false} EntriesFill(es: seq<Event>, a: nat, n: nat)
    requires GoodHistory(es) && a <= n <= |es|
    ensures Fills(es, a, n)
  {
    hide Buffer;
    if a < n {
      EntriesFill(es, a, n - 1);
      EntryFills(es, a, n - 1);
      OneEntryMore([JOINING], 0, EntriesOf(es, a, n - 1), EntryOf(es[n - 1], n), es, a, n);
    } else {
      NothingFills(es, a);
    }
  }

  // Three increments, numbered 1, 3 and 5: only the second has entries.  The snapshot comes with the third.

  function Milestones(a: nat, n: nat, s: nat): seq<nat> {
    var low, high := if s < a then s else a, if s > n then s else n;
    [low, low, a, n, high, high]
  }

  function SnapshotAt(s: nat, last: nat, entries: seq<MdEntry>): Snapshot {
    Snapshot(Value(1), Absent, Value(s), Value(last), Value(entries))
  }

  function ThreeTurns(es: seq<Event>, a: nat, n: nat, snap: Snapshot): seq<Turn>
    requires a <= n <= |es|
  {
    [Turn(Got(Increment(1, Value([]))), Nothing),
     Turn(Got(Increment(3, Value(EntriesOf(es, a, n)))), Nothing),
     Turn(Got(Increment(5, Value([]))), Got(snap))]
  }

  lemma MilestonesAreGood(h: History, a: nat, n: nat, s: nat)
    requires GoodHistory(h.es) && a <= n <= |h.es| && s <= |h.es| && h.upTo == Milestones(a, n, s)
    ensures GoodFeed(h)
  {
  }

  lemma TurnsAreLossy(h: History, a: nat, n: nat, s: nat, last: nat, entries: seq<MdEntry>)
    requires GoodFeed(h) && a <= n <= |h.es| && s <= |h.es| && h.upTo == Milestones(a, n, s)
    requires last == (if s < a then 1 else 4) && !(a <= s <= n) && FaithfulEntries(entries, 0, h.es, s)
    ensures LossyTurns([FRESH], 0, h, 0, ThreeTurns(h.es, a, n, SnapshotAt(s, last, entries)))
  {
    var snap := SnapshotAt(s, last, entries);
    var turns := ThreeTurns(h.es, a, n, snap);
    EntriesFill(h.es, a, n);
    CarriesStable([JOINING], [FRESH], 0, EntriesOf(h.es, a, n), h.es, a, n);
    assert FaithfulSnapshot([FRESH], 0, h, snap);
    assert LossyTurn([FRESH], 0, h, 3, turns[2]);
    assert LossyTurn([FRESH], 0, h, 1, turns[1]);
    assert LossyTurn([FRESH], 0, h, 0, turns[0]);
    assert turns[1..][0] == turns[1] && turns[2..][0] == turns[2] && turns[1..][1..] == turns[2..];
    assert LossyTurns([FRESH], 0, h, 5, turns[2..][1..]);
    assert LossyTurns([FRESH], 0, h, 3, turns[2..]);
    assert LossyTurns([FRESH], 0, h, 1, turns[1..]);
  }

  /** The first two turns fill the buffer. */
  lemma TwoTurnsFill(es: seq<Event>, a: nat, n: nat, snap: Snapshot)
    requires GoodHistory(es) && a < n <= |es|
    ensures var turns, j := ThreeTurns(es, a, n, snap), JoinStart([FRESH], 0);
      && FirstRpt(j, 0, turns) == Some(a + 1)
      && JoinRun(j, 0, turns) == JoinRun(Joining([Filled(es, a, n)], 1, 3, false, None), 0, turns[2..])
  {
    var turns, j := ThreeTurns(es, a, n, snap), JoinStart([FRESH], 0);
    assert j == Joining([JOINING], 0, 0, false, None);
    var j1, j2 := j.(init := 1, cur := 1), Joining([Filled(es, a, n)], 1, 3, false, None);
    assert ApplyEntries([JOINING], []) == Outcome(true, [JOINING]);
    assert JoinTurn(j, 0, turns[0]) == More(j1);
    EntriesFill(es, a, n);
    assert JoinTurn(j1, 0, turns[1]) == More(j2);
    assert turns[1..][0] == turns[1] && turns[1..][1..] == turns[2..];
    assert JoinRun(j, 0, turns) == JoinRun(j1, 0, turns[1..]);
    assert JoinRun(j1, 0, turns[1..]) == JoinRun(j2, 0, turns[2..]);
    FirstCarried([JOINING], 0, EntriesOf(es, a, n), es, a, n);
    assert TurnHit(j.books, 0, turns[0]) == None;
    assert FirstRpt(j1, 0, turns[1..]) == TurnHit(j1.books, 0, turns[1]) == Some(a + 1);
    assert FirstRpt(j, 0, turns) == FirstRpt(j1, 0, turns[1..]);
  }

  /** The third turn merges the snapshot. */
  lemma ThirdTurnMerges(es: seq<Event>, a: nat, n: nat, s: nat, last: nat, entries: seq<MdEntry>)
    requires a < n <= |es| && s <= |es| && 0 < s && 0 < last < 5 && FaithfulEntries(entries, 0, es, s)
    requires MergeEntries(Buffered(FRESH.id, es, a, n, s), entries).ok
    requires entries != [] && entries[|entries| - 1].session == Absent
    ensures var snap := SnapshotAt(s, last, entries);
      var r := JoinRun(Joining([Filled(es, a, n)], 1, 3, false, None), 0, ThreeTurns(es, a, n, snap)[2..]);
      && r.Done? && r.ok && |r.books| == 1 && r.books[0].rptSeq == n && r.books[0].snpSeq == s
      && r.books[0].sides == Swept(MergeEntries(Buffered(FRESH.id, es, a, n, s), entries).book).sides
  {
    hide Buffer, IsReplay, MergeEntries, States, Live;
    var snap := SnapshotAt(s, last, entries);
    var turns := ThreeTurns(es, a, n, snap)[2..];
    var b := Filled(es, a, n);
    var j := Joining([b], 1, 3, false, None);
    MergeTouchesSides(Buffered(FRESH.id, es, a, n, s), entries, es, s);
    var m := MergeEntries(Buffered(FRESH.id, es, a, n, s), entries).book.(active := true);
    assert b.(snpSeq := s, empty := false) == Buffered(FRESH.id, es, a, n, s);
    assert MergeSnapshot(b, snap) == Applied(true, m);
    assert FindById([b], 1) == Some(0);
    assert ApplySnapshot([b], 0, snap) == Outcome(true, [m]);
    var j1 := j.(cur := 5);
    assert ApplyEntries([b], []) == Outcome(true, [b]);
    assert TakeIncrement(j, turns[0].inc) == More(j1);
    var j2 := j1.(snap := Some(snap));
    assert TakeSnapshot(j1, turns[0].snp) == More(j2);
    assert SnapshotOf(j2.books, 0, snap) == Some(true);
    var j3 := j2.(books := [m], snpReceived := true);
    assert UseSnapshot(j2, 0) == More(j3);
    assert JoinTurn(j, 0, turns[0]) == More(j3);
    assert JoinRun(j, 0, turns) == JoinRun(j3, 0, turns[1..]) == Done(true, [Swept(m)], 5);
  }

  lemma OutsideGoesWrong(a: nat, n: nat, s: nat) returns (h: History, turns: seq<Turn>)
    requires a < n < U64 - 1 && 0 < s < U64 - 1 && !(a <= s <= n)
    ensures JoinsWith([FRESH], 0, h, turns, a, n, s) && !JoinsToReplay([FRESH], 0, h, turns, n)
  {
    var es, entries := OutsideWindowGoesWrong(FRESH.id, a, n, s);
    h := History(es, Milestones(a, n, s));
    MilestonesAreGood(h, a, n, s);
    var last := if s < a then 1 else 4;
    turns := ThreeTurns(es, a, n, SnapshotAt(s, last, entries));
    TurnsAreLossy(h, a, n, s, last, entries);
    ThreeTurnsJoin(h, a, n, s, last, entries);
  }

  lemma ThreeTurnsJoin(h: History, a: nat, n: nat, s: nat, last: nat, entries: seq<MdEntry>)
    requires GoodFeed(h) && a < n <= |h.es| && s <= |h.es| && 0 < s && 0 < last < 5
    requires FaithfulEntries(entries, 0, h.es, s)
    requires MergeEntries(Buffered(FRESH.id, h.es, a, n, s), entries).ok
    requires entries != [] && entries[|entries| - 1].session == Absent
    requires !JoinsRight(FRESH.id, h.es, entries, a, n, s)
    ensures var turns := ThreeTurns(h.es, a, n, SnapshotAt(s, last, entries));
      LossyTurns([FRESH], 0, h, 0, turns) ==>
        JoinsWith([FRESH], 0, h, turns, a, n, s) && !JoinsToReplay([FRESH], 0, h, turns, n)
  {
    TwoTurnsFill(h.es, a, n, SnapshotAt(s, last, entries));
    ThirdTurnMerges(h.es, a, n, s, last, entries);
  }

  /** Exactly when a join is right, over all feeds with losses: its snapshot must be no older than the event before
      the first increment that the book buffered, and no newer than the last. RptSeq tells both; the loop compares
      message numbers. */
  lemma JoinIsRightExactly(a: nat, n: nat, s: nat)
    requires a < n < U64 - 1 && 0 < s < U64 - 1
    ensures (forall books: Books, t, h, turns | JoinsWith(books, t, h, turns, a, n, s) ::
             JoinsToReplay(books, t, h, turns, n))
            <==> a <= s <= n
  {
    if a <= s <= n {
      forall books: Books, t, h, turns | JoinsWith(books, t, h, turns, a, n, s)
        ensures JoinsToReplay(books, t, h, turns, n)
      {
        InsideIsRight(books, t, h, turns, a, n, s);
      }
    } else {
      var h, turns := OutsideGoesWrong(a, n, s);
    }
  }

  // ----- such feeds are received ----------------------------------------------------------

  function Arriving(n: nat): A.Delivery {
    A.Msg(A.Message(Some(n), Some(A.Refresh)))
  }

  /** Message `k` at the head of the first feed, `k`+1 at that of the second: one call takes both and hands on `k`. */
  lemma SecondIsDropped(s: A.State, k: nat, p: seq<A.Delivery>, q: seq<A.Delivery>)
    requires 0 < k && k + 1 < U64 && A.Accepts(s, k) && !s.gapMode && |s.feeds| == 2
    requires s.feeds[0].recvNum <= s.incMsgNum && s.feeds[1].recvNum <= k
    requires s.feeds[0].pending == [Arriving(k)] + p && s.feeds[1].pending == [Arriving(k + 1)] + q
    ensures A.NextCall(s) == A.Received(true, Some(k),
      A.State([A.Feed(k, p), A.Feed(k + 1, q)], k + 1, false, s.accepted + [k] + [k + 1], s.handed + [k]))
  {
    var s1 := A.State([A.Feed(k, p), s.feeds[1]], k, false, s.accepted + [k], s.handed);
    assert A.Receive(s, 0) == A.Received(true, Some(k), s1);
    assert A.Poll(s, 0) == A.Received(true, None, s);
    assert A.Poll(s, 1) == A.Received(true, Some(k), s1);
    var s2 := A.State([A.Feed(k, p), A.Feed(k + 1, q)], k + 1, false, s.accepted + [k] + [k + 1], s.handed);
    assert A.Receive(s1, 1) == A.Received(true, Some(k + 1), s2);
    assert A.Poll(s, 2) == A.Received(true, Some(k), s2);
  }

  /** Nothing waits at the second feed. */
  lemma LastIsHandedOn(s: A.State, k: nat, p: seq<A.Delivery>)
    requires 0 < k < U64 && A.Accepts(s, k) && !s.gapMode && |s.feeds| == 2
    requires s.feeds[0].recvNum <= s.incMsgNum
    requires s.feeds[0].pending == [Arriving(k)] + p && s.feeds[1].pending == []
    ensures A.NextCall(s) == A.Received(true, Some(k),
      A.State([A.Feed(k, p), s.feeds[1]], k, false, s.accepted + [k], s.handed + [k]))
  {
    var s1 := A.State([A.Feed(k, p), s.feeds[1]], k, false, s.accepted + [k], s.handed);
    assert A.Receive(s, 0) == A.Received(true, Some(k), s1);
    assert A.Poll(s, 0) == A.Received(true, None, s);
    assert A.Poll(s, 1) == A.Received(true, Some(k), s1);
    assert A.Receive(s1, 1) == A.Received(true, None, s1);
    assert A.Poll(s, 2) == A.Received(true, Some(k), s1);
  }

  /** Two feeds that lose nothing between them, `first` and every second number after it on the one, the rest on the
      other. */
  function Alternating(first: nat, three: bool): A.State {
    var p := [Arriving(first), Arriving(first + 2)] + if three then [Arriving(first + 4)] else [];
    var q := [Arriving(first + 1)] + if three then [Arriving(first + 3)] else [];
    A.State([A.Feed(0, p), A.Feed(0, q)], 0, false, [], [])
  }

  /** Their increments are handed on as the turns above have them. */
  lemma ThreeTurnsAreReceived()
    ensures HandedOn(Alternating(1, true), [A.Call, A.Call, A.Call], [1, 3, 5])
  {
    var s := Alternating(1, true);
    SecondIsDropped(s, 1, [Arriving(3), Arriving(5)], [Arriving(4)]);
    var s1 := A.State([A.Feed(1, [Arriving(3), Arriving(5)]), A.Feed(2, [Arriving(4)])], 2, false, [1, 2], [1]);
    assert A.NextCall(s).s == s1;
    SecondIsDropped(s1, 3, [Arriving(5)], []);
    var s2 := A.State([A.Feed(3, [Arriving(5)]), A.Feed(4, [])], 4, false, [1, 2, 3, 4], [1, 3]);
    assert A.NextCall(s1).s == s2;
    LastIsHandedOn(s2, 5, []);
    ThreeCalls(s, s1, s2);
  }

  lemma LossyTurnsAreReceived()
    ensures HandedOn(Alternating(2, false), [A.Call, A.Call], [2, 4])
  {
    var s := Alternating(2, false);
    SecondIsDropped(s, 2, [Arriving(4)], []);
    var s1 := A.State([A.Feed(2, [Arriving(4)]), A.Feed(3, [])], 3, false, [2, 3], [2]);
    assert A.NextCall(s).s == s1;
    LastIsHandedOn(s1, 4, []);
    ThreeCalls(s, s1, A.NextCall(s1).s);
  }

  /** The run hands on these numbers. */
  ghost predicate HandedOn(s: A.State, ops: seq<A.Op>, nums: seq<nat>) {
    A.Run(s, ops).handed == nums
  }

  lemma ThreeCalls(s: A.State, s1: A.State, s2: A.State)
    requires A.NextCall(s).s == s1 && A.NextCall(s1).s == s2
    ensures HandedOn(s, [A.Call, A.Call], s2.handed)
    ensures HandedOn(s, [A.Call, A.Call, A.Call], A.NextCall(s2).s.handed)
  {
    var one, two, three := [A.Call], [A.Call, A.Call], [A.Call, A.Call, A.Call];
    assert one[..|one| - 1] == [] && two[..|two| - 1] == one && three[..|three| - 1] == two;
    assert A.Run(s, []) == s;
    assert A.Run(s, one) == s1;
    assert A.Run(s, two) == s2;
  }
}
