/** The repeat sequence number as a safety net: whatever the feeds lost, the updates of a book since it was cleared
    are numbered without a gap. */
module RptSeqLaws {
  import opened Wrappers
  import opened LevelBook
  import opened BookSpec
  import opened JoinLaws

  // ----- the RptSeq safety net ------------------------------------------------------------

  /** The entries that reach the book `t` and update it. */
  function Reached(books: Books, t: nat, entries: seq<MdEntry>): seq<MdEntry>
    requires t < |books|
    decreases |entries|
  {
    if entries == [] then []
    else
      var prev, e := entries[..|entries| - 1], entries[|entries| - 1];
      Reached(books, t, prev) + if Hits(books, t, e) then [e] else []
  }

  /** Consecutive numbers, and the one before the first is `start` unless `start` is 0. */
  ghost predicate Consecutive(start: nat, es: seq<MdEntry>) {
    && (forall i | 0 <= i < |es| :: es[i].rptSeq.Value?)
    && (forall i | 0 < i < |es| :: es[i].rptSeq.v == es[i - 1].rptSeq.v + 1)
    && (es != [] && start != 0 ==> es[0].rptSeq.v == start + 1)
  }

  lemma AcceptStep(b: BookState, e: MdEntry)
    requires Accept(b, e).ok && b.rptSeq < U64 && (e.rptSeq.Value? ==> 0 < e.rptSeq.v < U64)
    ensures var r := Accept(b, e).book;
      && r.active == b.active && r.join == b.join && r.rptSeq < U64
      && if OtherSession(b.id, e.session) then r.rptSeq == b.rptSeq
         else e.rptSeq == Value(r.rptSeq) && (b.rptSeq != 0 ==> r.rptSeq == b.rptSeq + 1)
  {
  }

  lemma EntryAt(books: Books, t: nat, e: MdEntry)
    requires t < |books| && (books[t].active || books[t].join) && ApplyEntry(books, e).ok
    ensures if Locate(books, e.securityId, e.symbol) == Target(t)
      then Accept(books[t], e).ok && ApplyEntry(books, e).books[t] == Accept(books[t], e).book
      else ApplyEntry(books, e).books[t] == books[t]
  {
  }

  /** From `b` to `after` the updates were `es`. */
  ghost predicate Chain(b: BookState, after: BookState, es: seq<MdEntry>) {
    && Consecutive(b.rptSeq, es)
    && after.rptSeq == (if es == [] then b.rptSeq else es[|es| - 1].rptSeq.v) < U64
    && (es != [] ==> after.rptSeq > 0)
    && after.active == b.active && after.join == b.join
  }

  lemma ChainGrows(b: BookState, mid: BookState, es: seq<MdEntry>, e: MdEntry)
    requires Chain(b, mid, es) && Accept(mid, e).ok && (e.rptSeq.Value? ==> 0 < e.rptSeq.v < U64)
    ensures Chain(b, Accept(mid, e).book, if OtherSession(mid.id, e.session) then es else es + [e])
  {
    AcceptStep(mid, e);
    if !OtherSession(mid.id, e.session) {
      ConsecutiveGrows(b.rptSeq, es, e);
    }
  }

  predicate RealRptSeq(e: MdEntry) {
    e.rptSeq.Value? ==> 0 < e.rptSeq.v < U64
  }

  /** If no entry of a message failed, the updates it made to a book go on where its counter stood. */
  lemma {:induction false} UpdatesAreConsecutive(books: Books, t: nat, entries: seq<MdEntry>)
    requires t < |books| && (books[t].active || books[t].join) && books[t].rptSeq < U64
    requires forall i | 0 <= i < |entries| :: RealRptSeq(entries[i])
    requires ApplyEntries(books, entries).ok
    ensures Chain(books[t], ApplyEntries(books, entries).books[t], Reached(books, t, entries))
    decreases |entries|
  {
    if entries != [] {
      var prev, e := entries[..|entries| - 1], entries[|entries| - 1];
      assert forall i | 0 <= i < |prev| :: prev[i] == entries[i];
      UpdatesAreConsecutive(books, t, prev);
      var mid, es := ApplyEntries(books, prev).books, Reached(books, t, prev);
      EntriesKeepIds(books, prev);
      LocateStable(books, mid, e.securityId, e.symbol);
      assert RealRptSeq(entries[|entries| - 1]);
      EntryChains(books[t], mid, t, es, e);
    }
  }

  lemma EntryChains(b: BookState, mid: Books, t: nat, es: seq<MdEntry>, e: MdEntry)
    requires t < |mid| && (mid[t].active || mid[t].join) && ApplyEntry(mid, e).ok
    requires Chain(b, mid[t], es) && RealRptSeq(e)
    ensures Chain(b, ApplyEntry(mid, e).books[t], es + if Hits(mid, t, e) then [e] else [])
  {
    EntryAt(mid, t, e);
    if Locate(mid, e.securityId, e.symbol) == Target(t) {
      ChainGrows(b, mid[t], es, e);
    }
    assert es + [] == es;
  }

  lemma ConsecutiveGrows(start: nat, es: seq<MdEntry>, e: MdEntry)
    requires Consecutive(start, es) && e.rptSeq.Value?
    requires if es == [] then start != 0 ==> e.rptSeq.v == start + 1 else e.rptSeq.v == es[|es| - 1].rptSeq.v + 1
    ensures Consecutive(start, es + [e])
  {
  }

  /** Exactly while its counter is not 0 a book forces the number of its next update. */
  lemma NextNumberIsForced(b: BookState)
    requires b.rptSeq < U64
    ensures (forall e: MdEntry | Accept(b, e).ok && !OtherSession(b.id, e.session) ::
             e.rptSeq == Value((b.rptSeq + 1) % U64))
            <==> b.rptSeq != 0
  {
    if b.rptSeq == 0 {
      var e := MdEntry(Absent, Absent, Absent, Value(7), Value('J'), Absent, Absent, Absent);
      assert Accept(b, e).ok;
    }
  }

  // ----- levels and updates ---------------------------------------------------------------

  /** The level that an update names. */
  function LevelOf(e: MdEntry, tick: int): Reading {
    Read(e, tick, if e.rptSeq.Value? then e.rptSeq.v else 0)
  }

  predicate Touches(e: MdEntry, tick: int, buy: bool, k: nat) {
    LevelOf(e, tick).Order? && LevelOf(e, tick).o.buy == buy && KeyOf(LevelOf(e, tick).o.price) == k
  }

  /** The last of some updates that names the level. */
  function LastOn(es: seq<MdEntry>, tick: int, buy: bool, k: nat): (r: Option<MdEntry>)
    ensures r.Some? ==> Touches(r.value, tick, buy, k)
    decreases |es|
  {
    if es == [] then None
    else if Touches(es[|es| - 1], tick, buy, k) then Some(es[|es| - 1])
    else LastOn(es[..|es| - 1], tick, buy, k)
  }

  /** An update that sets a level is seen in it, by size and number. */
  predicate SeenIn(e: MdEntry, tick: int, m: Levels, k: nat)
    requires LevelOf(e, tick).Order?
  {
    var o := LevelOf(e, tick).o;
    e.action != Value(2) && o.size > 0 ==> k in m && m[k].size == o.size && m[k].seqNum == o.seqNum
  }

  /** Every level that some update set shows the last update that named it. */
  ghost predicate UpToDate(b: BookState, es: seq<MdEntry>) {
    forall buy, k | LastOn(es, b.id.tick, buy, k).Some? ::
      SeenIn(LastOn(es, b.id.tick, buy, k).value, b.id.tick, b.sides.Of(buy), k)
  }

  lemma AcceptIsSeen(b: BookState, es: seq<MdEntry>, e: MdEntry)
    requires UpToDate(b, es) && Accept(b, e).ok && !OtherSession(b.id, e.session)
    ensures UpToDate(Accept(b, e).book, es + [e])
  {
    var b', all, tick := Accept(b, e).book, es + [e], b.id.tick;
    assert all[..|all| - 1] == es && all[|all| - 1] == e;
    forall buy, k | LastOn(all, tick, buy, k).Some?
      ensures SeenIn(LastOn(all, tick, buy, k).value, tick, b'.sides.Of(buy), k)
    {
      if !Touches(e, tick, buy, k) {
        assert SeenIn(LastOn(es, tick, buy, k).value, tick, b.sides.Of(buy), k);
      }
    }
  }

  lemma {:induction false} EntriesAreSeen(books: Books, t: nat, entries: seq<MdEntry>, es: seq<MdEntry>)
    requires t < |books| && (books[t].active || books[t].join) && ApplyEntries(books, entries).ok
    requires UpToDate(books[t], es)
    ensures var b := ApplyEntries(books, entries).books[t];
      UpToDate(b, es + Reached(books, t, entries)) && b.active == books[t].active && b.join == books[t].join
    decreases |entries|
  {
    if entries == [] {
      assert es + [] == es;
    } else {
      var prev, e := entries[..|entries| - 1], entries[|entries| - 1];
      EntriesAreSeen(books, t, prev, es);
      var mid, log := ApplyEntries(books, prev).books, es + Reached(books, t, prev);
      EntriesKeepIds(books, prev);
      LocateStable(books, mid, e.securityId, e.symbol);
      EntryAt(mid, t, e);
      if Hits(books, t, e) {
        AcceptIsSeen(mid[t], log, e);
        assert log + [e] == es + Reached(books, t, entries);
      } else {
        assert Reached(books, t, entries) == Reached(books, t, prev);
      }
    }
  }

  /** The levels of `b` are in `c` as they are. */
  ghost predicate KeepsLevels(b: BookState, c: BookState) {
    b.id == c.id && forall buy, k | k in b.sides.Of(buy) ::
      k in c.sides.Of(buy) && c.sides.Of(buy)[k] == b.sides.Of(buy)[k]
  }

  lemma KeptIsUpToDate(b: BookState, c: BookState, es: seq<MdEntry>)
    requires UpToDate(b, es) && KeepsLevels(b, c)
    ensures UpToDate(c, es)
  {
    forall buy, k | LastOn(es, c.id.tick, buy, k).Some?
      ensures SeenIn(LastOn(es, c.id.tick, buy, k).value, c.id.tick, c.sides.Of(buy), k)
    {
      assert SeenIn(LastOn(es, b.id.tick, buy, k).value, b.id.tick, b.sides.Of(buy), k);
    }
  }

  lemma {:induction false} MergeKeepsLevels(b: BookState, entries: seq<MdEntry>)
    ensures KeepsLevels(b, MergeEntries(b, entries).book)
    decreases |entries|
  {
    if entries != [] {
      MergeKeepsLevels(b, entries[..|entries| - 1]);
    }
  }

  lemma SnapshotKeepsLevels(books: Books, of: nat, t: nat, snap: Snapshot)
    requires of < |books| && t < |books|
    ensures KeepsLevels(books[t], ApplySnapshot(books, of, snap).books[t])
  {
    var l := Locate(books, snap.securityId, snap.symbol);
    if l == Target(t) && snap.entries.Value? && snap.rptSeq.Value? {
      MergeKeepsLevels(books[t].(snpSeq := snap.rptSeq.v, empty := false), snap.entries.v);
    }
  }

  lemma SweepIsSeen(b: BookState, es: seq<MdEntry>)
    requires UpToDate(b, es)
    ensures UpToDate(Swept(b), es)
  {
    forall buy, k | LastOn(es, b.id.tick, buy, k).Some?
      ensures SeenIn(LastOn(es, b.id.tick, buy, k).value, b.id.tick, Swept(b).sides.Of(buy), k)
    {
      assert SeenIn(LastOn(es, b.id.tick, buy, k).value, b.id.tick, b.sides.Of(buy), k);
    }
  }

  // ----- every run since a clear ----------------------------------------------------------

  /** What lib/proto/fast_book.c does to its books: a message of increments, a snapshot merged while book `of`
      joins, the start and the end of a join, the deactivation and the clear of fast_books_recover. */
  datatype BookOp = Increments(entries: seq<MdEntry>) | Merge(of: nat, snap: Snapshot)
                  | StartJoin(i: nat) | EndJoin(i: nat) | Deactivate | Clear(i: nat)

  function Emptied(b: BookState): BookState {
    b.(sides := Sides(map[], map[]), rptSeq := 0, snpSeq := 0)
  }

  function Do(books: Books, op: BookOp): (r: Outcome)
    ensures |r.books| == |books|
  {
    match op
    case Increments(entries) => ApplyEntries(books, entries)
    case Merge(of, snap) => if of < |books| then ApplySnapshot(books, of, snap) else Outcome(false, books)
    case StartJoin(i) => if i < |books| then Outcome(true, JoinStart(books, i).books) else Outcome(false, books)
    case EndJoin(i) => if i < |books| then Outcome(true, books[i := Swept(books[i])]) else Outcome(false, books)
    case Deactivate => Outcome(true, seq(|books|, k requires 0 <= k < |books| => books[k].(active := false)))
    case Clear(i) => if i < |books| then Outcome(true, books[i := Emptied(books[i])]) else Outcome(false, books)
  }

  /** The program gives up at the first step that fails. */
  function Run(books: Books, ops: seq<BookOp>): (r: Outcome)
    ensures |r.books| == |books|
    decreases |ops|
  {
    if ops == [] then Outcome(true, books)
    else
      var r := Run(books, ops[..|ops| - 1]);
      if r.ok then Do(r.books, ops[|ops| - 1]) else r
  }

  /** The updates of the book `t` since its last clear. */
  function Updates(books: Books, t: nat, ops: seq<BookOp>): seq<MdEntry>
    requires t < |books|
    decreases |ops|
  {
    if ops == [] then []
    else
      var before, mid := Updates(books, t, ops[..|ops| - 1]), Run(books, ops[..|ops| - 1]).books;
      match ops[|ops| - 1]
      case Increments(entries) => before + if mid[t].active || mid[t].join then Reached(mid, t, entries) else []
      case Clear(i) => if i == t then [] else before
      case _ => before
  }

  /** The book's counter is 0 or the number of the last of its updates, and those are numbered in steps of one. */
  ghost predicate Counted(b: BookState, es: seq<MdEntry>) {
    && Consecutive(0, es)
    && b.rptSeq == (if es == [] then 0 else es[|es| - 1].rptSeq.v)
    && b.rptSeq < U64 && (es != [] ==> b.rptSeq > 0)
  }

  predicate RealNumbers(op: BookOp) {
    op.Increments? ==> forall k | 0 <= k < |op.entries| :: RealRptSeq(op.entries[k])
  }

  /** An accepted update keeps the count exactly if its number is not 0, which the counter takes for none so far. */
  lemma ZeroBreaksCountExactly(b: BookState, es: seq<MdEntry>, e: MdEntry)
    requires Counted(b, es) && Accept(b, e).ok && !OtherSession(b.id, e.session) && e.rptSeq.v < U64
    ensures Counted(Accept(b, e).book, es + [e]) <==> e.rptSeq.v > 0
  {
    assert (es + [e])[|es|] == e;
    if e.rptSeq.v > 0 {
      AcceptStep(b, e);
      ConsecutiveGrows(0, es, e);
    }
  }

  lemma ChainCounts(b: BookState, after: BookState, es: seq<MdEntry>, more: seq<MdEntry>)
    requires Counted(b, es) && Chain(b, after, more)
    ensures Counted(after, es + more)
  {
    assert es + [] == es;
    assert more != [] ==> (es + more)[|es + more| - 1] == more[|more| - 1];
    assert forall k | 0 <= k < |es + more| :: (es + more)[k] == if k < |es| then es[k] else more[k - |es|];
  }

  lemma {:induction false} IdleBookStays(books: Books, t: nat, entries: seq<MdEntry>)
    requires t < |books| && !books[t].active && !books[t].join
    ensures ApplyEntries(books, entries).books[t] == books[t]
    decreases |entries|
  {
    if entries != [] {
      IdleBookStays(books, t, entries[..|entries| - 1]);
    }
  }

  lemma {:induction false} MergeKeepsRptSeq(b: BookState, entries: seq<MdEntry>)
    ensures MergeEntries(b, entries).book.rptSeq == b.rptSeq
    decreases |entries|
  {
    if entries != [] {
      MergeKeepsRptSeq(b, entries[..|entries| - 1]);
    }
  }

  lemma SnapshotKeepsRptSeq(books: Books, of: nat, t: nat, snap: Snapshot)
    requires of < |books| && t < |books|
    ensures ApplySnapshot(books, of, snap).books[t].rptSeq == books[t].rptSeq
  {
    if snap.entries.Value? && snap.rptSeq.Value? {
      forall b: BookState ensures MergeEntries(b, snap.entries.v).book.rptSeq == b.rptSeq {
        MergeKeepsRptSeq(b, snap.entries.v);
      }
    }
  }

  lemma IncrementsCount(books: Books, t: nat, entries: seq<MdEntry>, es: seq<MdEntry>, more: seq<MdEntry>)
    requires t < |books| && RealNumbers(Increments(entries)) && ApplyEntries(books, entries).ok && Counted(books[t], es)
    requires more == Added(books, t, Increments(entries))
    ensures Counted(ApplyEntries(books, entries).books[t], es + more)
  {
    assert es + [] == es;
    if books[t].active || books[t].join {
      UpdatesAreConsecutive(books, t, entries);
      ChainCounts(books[t], ApplyEntries(books, entries).books[t], es, more);
    } else {
      IdleBookStays(books, t, entries);
    }
  }

  /** Everything else leaves the counter, or clears it. */
  lemma OthersKeepRptSeq(books: Books, t: nat, op: BookOp)
    requires t < |books| && !op.Increments?
    ensures Do(books, op).books[t].rptSeq == if op == Clear(t) && Do(books, op).ok then 0 else books[t].rptSeq
  {
    if op.Merge? && op.of < |books| {
      SnapshotKeepsRptSeq(books, op.of, t, op.snap);
    }
  }

  lemma DoCounts(books: Books, t: nat, op: BookOp, es: seq<MdEntry>, more: seq<MdEntry>)
    requires t < |books| && RealNumbers(op) && Do(books, op).ok && Counted(books[t], es)
    requires more == Added(books, t, op)
    ensures Counted(Do(books, op).books[t], if op == Clear(t) then [] else es + more)
  {
    if op.Increments? {
      IncrementsCount(books, t, op.entries, es, more);
    } else {
      assert es + [] == es;
      OthersKeepRptSeq(books, t, op);
    }
  }

  lemma DoIsSeen(books: Books, t: nat, op: BookOp, es: seq<MdEntry>, more: seq<MdEntry>)
    requires t < |books| && Do(books, op).ok && UpToDate(books[t], es)
    requires more == Added(books, t, op)
    ensures UpToDate(Do(books, op).books[t], if op == Clear(t) then [] else es + more)
  {
    assert es + [] == es;
    if op.Increments? {
      if books[t].active || books[t].join {
        EntriesAreSeen(books, t, op.entries, es);
      } else {
        IdleBookStays(books, t, op.entries);
      }
    } else if op.Merge? {
      SnapshotKeepsLevels(books, op.of, t, op.snap);
      KeptIsUpToDate(books[t], Do(books, op).books[t], es);
    } else if op == EndJoin(t) {
      SweepIsSeen(books[t], es);
    } else if op != Clear(t) {
      KeptIsUpToDate(books[t], Do(books, op).books[t], es);
    }
  }

  /** Over every run of messages, merges, joins and recoveries without a failure, from a cleared book: its updates
      since the last clear are numbered in steps of one, and its counter is the last of them. */
  lemma {:induction false} EveryRunIsConsecutive(books: Books, t: nat, ops: seq<BookOp>)
    requires t < |books| && books[t].rptSeq == 0
    requires forall k | 0 <= k < |ops| :: RealNumbers(ops[k])
    requires Run(books, ops).ok
    ensures Counted(Run(books, ops).books[t], Updates(books, t, ops))
    decreases |ops|
  {
    if ops != [] {
      var prev, op := ops[..|ops| - 1], ops[|ops| - 1];
      EveryRunIsConsecutive(books, t, prev);
      UpdatesGrow(books, t, ops);
      DoCounts(Run(books, prev).books, t, op, Updates(books, t, prev), Added(Run(books, prev).books, t, op));
    }
  }

  /** ... and every level that an update set shows the last update that named it. */
  lemma {:induction false} EveryRunIsUpToDate(books: Books, t: nat, ops: seq<BookOp>)
    requires t < |books| && Run(books, ops).ok
    ensures UpToDate(Run(books, ops).books[t], Updates(books, t, ops))
    decreases |ops|
  {
    if ops != [] {
      var prev, op := ops[..|ops| - 1], ops[|ops| - 1];
      EveryRunIsUpToDate(books, t, prev);
      UpdatesGrow(books, t, ops);
      DoIsSeen(Run(books, prev).books, t, op, Updates(books, t, prev), Added(Run(books, prev).books, t, op));
    }
  }

  /** The updates that one step makes to the book `t`. */
  function Added(books: Books, t: nat, op: BookOp): seq<MdEntry>
    requires t < |books|
  {
    if op.Increments? && (books[t].active || books[t].join) then Reached(books, t, op.entries) else []
  }

  lemma UpdatesGrow(books: Books, t: nat, ops: seq<BookOp>)
    requires t < |books| && ops != []
    ensures var prev, op := ops[..|ops| - 1], ops[|ops| - 1];
      Updates(books, t, ops) ==
      if op == Clear(t) then [] else Updates(books, t, prev) + Added(Run(books, prev).books, t, op)
  {
    var prev := ops[..|ops| - 1];
    assert Updates(books, t, prev) + [] == Updates(books, t, prev);
  }
}
