/** Which entries and snapshots the books take, which they pass over and which they refuse, and what each one changes
    (lib/proto/fast_book.c). */
module BookRules {
  import opened Wrappers
  import opened LevelBook
  import opened BookSpec

  // ----- reading an entry -----------------------------------------------------------------

  /** The price of the entry is `m` ticks. */
  ghost predicate PriceIs(e: MdEntry, tick: int, m: int) {
    e.price.Value? && SameNumber(e.price.v, Decimal(tick, m))
  }

  /** The size of the entry is the integer `n`; a decimal needs an exponent that is not negative. */
  ghost predicate SizeIs(e: MdEntry, n: int) {
    && e.size.Value?
    && match e.size.v
       case IntSize(k) => n == k
       case DecimalSize(d) => d.exp >= 0 && SameNumber(d, Decimal(0, n))
       case OtherSize => false
  }

  /** An entry names a level exactly if it is a bid or an offer with a whole number of ticks and a whole size; both
      are kept in 64 bits. The entry of type J marks an empty book. */
  lemma ReadExactly(e: MdEntry, tick: int, n: nat, o: Order)
    ensures Read(e, tick, n) == Reading.Order(o) <==>
      && (e.entryType == Value('0') || e.entryType == Value('1'))
      && o.seqNum == n && (o.buy <==> e.entryType == Value('0'))
      && (exists m :: PriceIs(e, tick, m) && o.price == m % U64)
      && (exists k :: SizeIs(e, k) && o.size == k % U64)
    ensures Read(e, tick, n) == EmptyMark <==> e.entryType == Value('J')
  {
    if e.price.Value? {
      AlignedExactly(e.price.v, tick);
      if Aligned(e.price.v, tick).Some? {
        assert PriceIs(e, tick, Aligned(e.price.v, tick).value);
      }
    }
    if e.size.Value? {
      SizeExactly(e.size.v);
      if SizeOf(e.size.v).Some? {
        assert SizeIs(e, SizeOf(e.size.v).value);
      }
    }
  }

  lemma AlignedExactly(price: Decimal, tick: int)
    ensures forall m :: Aligned(price, tick) == Some(m) <==> SameNumber(price, Decimal(tick, m))
  {
    forall m ensures Aligned(price, tick) == Some(m) <==> SameNumber(price, Decimal(tick, m)) {
      AlignedIsSame(price, tick, m);
    }
  }

  lemma SizeExactly(s: Size)
    ensures s.DecimalSize? ==> forall n :: SizeOf(s) == Some(n) <==> s.d.exp >= 0 && SameNumber(s.d, Decimal(0, n))
  {
    if s.DecimalSize? {
      forall n ensures SizeOf(s) == Some(n) <==> s.d.exp >= 0 && SameNumber(s.d, Decimal(0, n)) {
        SizeIsSame(s.d, n);
      }
    }
  }

  // ----- finding the book -----------------------------------------------------------------

  /** A session of another name; a book's own may be the beginning of what the entry says. */
  ghost predicate Foreign(id: BookId, session: Field<string>) {
    session.Value? && forall rest :: session.v != id.session + rest
  }

  lemma ForeignExactly(id: BookId, session: Field<string>)
    ensures OtherSession(id, session) <==> Foreign(id, session)
  {
    if session.Value? && id.session <= session.v {
      assert session.v == id.session + session.v[|id.session|..];
    }
    if session.Value? && !(id.session <= session.v) {
      forall rest ensures session.v != id.session + rest {
        assert id.session <= id.session + rest;
      }
    }
  }

  /** The message names the book: by its identifier, or if it has none by a symbol that begins with the book's. */
  predicate NamedBy(id: BookId, securityId: Field<nat>, symbol: Field<string>) {
    if securityId.Value? then id.securityId == securityId.v
    else symbol.Value? && |id.symbol| <= |symbol.v| && symbol.v[..|id.symbol|] == id.symbol
  }

  lemma {:induction false} FindsFirst(books: Books, securityId: nat, symbol: string)
    ensures var i := FindById(books, securityId);
      if i.Some? then
        i.value < |books| && books[i.value].id.securityId == securityId
        && forall j | 0 <= j < i.value :: books[j].id.securityId != securityId
      else forall j | 0 <= j < |books| :: books[j].id.securityId != securityId
    ensures var i := FindBySymbol(books, symbol);
      if i.Some? then
        i.value < |books| && books[i.value].id.symbol <= symbol
        && forall j | 0 <= j < i.value :: !(books[j].id.symbol <= symbol)
      else forall j | 0 <= j < |books| :: !(books[j].id.symbol <= symbol)
  {
    if books != [] {
      FindsFirst(books[1..], securityId, symbol);
      assert forall j | 1 <= j < |books| :: books[j] == books[1..][j - 1];
    }
  }

  /** The first book that is named; an identifier that is there but empty, or neither identifier nor symbol, is an
      error. */
  lemma LocatesFirst(books: Books, securityId: Field<nat>, symbol: Field<string>)
    ensures var l := Locate(books, securityId, symbol);
      && (l.BadTarget? <==> securityId.Empty? || (!securityId.Value? && !symbol.Value?))
      && (l.Target? ==> l.i < |books| && NamedBy(books[l.i].id, securityId, symbol)
                        && forall j | 0 <= j < l.i :: !NamedBy(books[j].id, securityId, symbol))
      && (l.NoTarget? ==> forall j | 0 <= j < |books| :: !NamedBy(books[j].id, securityId, symbol))
  {
    FindsFirst(books, if securityId.Value? then securityId.v else 0, if symbol.Value? then symbol.v else "");
    if !securityId.Value? && symbol.Value? {
      forall j | 0 <= j < |books|
        ensures NamedBy(books[j].id, securityId, symbol) <==> books[j].id.symbol <= symbol.v
      {
      }
    }
  }

  // ----- an update ------------------------------------------------------------------------

  /** The level that the entry names, with the number of the entry. */
  ghost predicate Names(e: MdEntry, tick: int, o: Order) {
    e.rptSeq.Value? && Read(e, tick, e.rptSeq.v) == Reading.Order(o)
  }

  /** The number of the entry is the next one of the book, or any if the book has none so far. */
  predicate HasNext(b: BookState, e: MdEntry) {
    e.rptSeq.Value? && (b.rptSeq == 0 || e.rptSeq.v == (b.rptSeq + 1) % U64)
  }

  /** The level is not newer than the update. */
  predicate NotStale(b: BookState, o: Order) {
    KeyOf(o.price) in b.sides.Of(o.buy) ==> b.sides.Of(o.buy)[KeyOf(o.price)].seqNum < o.seqNum
  }

  /** The entry sets or deletes the level, and may. */
  ghost predicate Fits(b: BookState, e: MdEntry, o: Order) {
    && Names(e, b.id.tick, o)
    && match e.action
       case Value(0) => NotStale(b, o)
       case Value(1) => NotStale(b, o)
       case Value(2) => b.active || NotStale(b, o)
       case _ => false
  }

  /** An entry that reached its book is taken exactly if its session is not empty and, unless that is another one,
      it has the next number and marks an empty book or sets or deletes a level that is not newer; in use, a book
      deletes any level. */
  lemma TakenExactly(b: BookState, e: MdEntry)
    requires b.rptSeq < U64 && (e.rptSeq.Value? ==> e.rptSeq.v < U64)
    ensures Accept(b, e).ok <==>
      && !e.session.Empty?
      && (Foreign(b.id, e.session) || (HasNext(b, e) && (e.entryType == Value('J') || exists o :: Fits(b, e, o))))
  {
    ForeignExactly(b.id, e.session);
    if e.rptSeq.Value? {
      var r := Read(e, b.id.tick, e.rptSeq.v);
      if r.Order? {
        assert Names(e, b.id.tick, r.o);
        var _ := Fits(b, e, r.o);
      }
    }
  }

  /** The level under a key, if there is one. */
  function LevelAt(b: BookState, buy: bool, k: nat): Option<Entry> {
    if k in b.sides.Of(buy) then Some(b.sides.Of(buy)[k]) else None
  }

  /** What an update changes: the counter, and the level it names, which gets its number and size, or goes; while
      the book is not in use a deleted level stays with size 0. No other level changes. */
  lemma UpdateChangesOne(b: BookState, e: MdEntry, o: Order, buy: bool, k: nat)
    requires Accept(b, e).ok && !Foreign(b.id, e.session) && Names(e, b.id.tick, o)
    ensures var r := Accept(b, e).book;
      && r == b.(sides := r.sides, rptSeq := e.rptSeq.v, empty := false)
      && (buy != o.buy || k != KeyOf(o.price) ==> LevelAt(r, buy, k) == LevelAt(b, buy, k))
      && LevelAt(r, o.buy, KeyOf(o.price)) ==
           if e.action == Value(2) && b.active then None
           else Some(Entry(o.seqNum,
                           match LevelAt(b, o.buy, KeyOf(o.price)) case Some(l) => l.price case None => o.price,
                           if e.action == Value(2) then 0 else o.size))
  {
    ForeignExactly(b.id, e.session);
  }

  /** The mark of an empty book sets its flag, and an entry of another session does nothing. */
  lemma OthersChangeNoLevel(b: BookState, e: MdEntry)
    requires Accept(b, e).ok
    ensures Foreign(b.id, e.session) ==> Accept(b, e).book == b
    ensures !Foreign(b.id, e.session) && e.entryType == Value('J') ==>
      e.rptSeq.Value? && Accept(b, e).book == b.(rptSeq := e.rptSeq.v, empty := true)
  {
    ForeignExactly(b.id, e.session);
  }

  /** A message updates no book but the one each entry names, and of those only the ones in use or joining. */
  lemma {:induction false} OnlyNamedChange(books: Books, entries: seq<MdEntry>, i: nat)
    requires i < |books|
    requires (!books[i].active && !books[i].join)
             || forall k | 0 <= k < |entries| :: !NamedBy(books[i].id, entries[k].securityId, entries[k].symbol)
    ensures ApplyEntries(books, entries).books[i] == books[i]
    decreases |entries|
  {
    if entries != [] {
      var prev, e := entries[..|entries| - 1], entries[|entries| - 1];
      assert forall k | 0 <= k < |prev| :: prev[k] == entries[k];
      OnlyNamedChange(books, prev, i);
      LocatesFirst(ApplyEntries(books, prev).books, e.securityId, e.symbol);
    }
  }

  /** An entry that names no book properly is refused, and one that its book does not take; entries for books that are
      not there, or neither in use nor joining, are passed over. */
  lemma EntryIsRefused(books: Books, e: MdEntry)
    ensures var l := Locate(books, e.securityId, e.symbol);
      !ApplyEntry(books, e).ok <==>
        || e.securityId.Empty? || (!e.securityId.Value? && !e.symbol.Value?)
        || (l.Target? && (books[l.i].active || books[l.i].join) && !Accept(books[l.i], e).ok)
  {
    LocatesFirst(books, e.securityId, e.symbol);
  }

  /** A message is taken exactly if it has its entries and each of them is taken after those before it; the first
      that is not ends it. */
  lemma MessageStopsAtFirst(books: Books, msg: Increment)
    ensures ApplyIncrement(books, msg).ok <==>
      msg.entries.Value? && forall k | 0 < k <= |msg.entries.v| :: ApplyEntries(books, msg.entries.v[..k]).ok
    ensures msg.entries.Value? ==> forall k | 0 <= k <= |msg.entries.v|
            && !ApplyEntries(books, msg.entries.v[..k]).ok ::
      ApplyIncrement(books, msg) == ApplyEntries(books, msg.entries.v[..k])
    ensures !msg.entries.Value? ==> ApplyIncrement(books, msg).books == books
  {
    if msg.entries.Value? {
      var es := msg.entries.v;
      assert es[..|es|] == es;
      forall k | 0 <= k <= |es|
        ensures !ApplyEntries(books, es[..k]).ok ==> ApplyEntries(books, es) == ApplyEntries(books, es[..k])
      {
        StopsThere(books, es, k, |es|);
      }
    }
  }

  lemma {:induction false} StopsThere(books: Books, es: seq<MdEntry>, k: nat, n: nat)
    requires k <= n <= |es|
    ensures !ApplyEntries(books, es[..k]).ok ==> ApplyEntries(books, es[..n]) == ApplyEntries(books, es[..k])
    decreases n
  {
    if k < n {
      StopsThere(books, es, k, n - 1);
      assert es[..n][..n - 1] == es[..n - 1];
    }
  }

  // ----- a snapshot -----------------------------------------------------------------------

  /** An entry of a snapshot is refused exactly if it names no level properly, or one that is not newer than the
      snapshot and has another size: otherwise it fills in the level if that is missing, and changes nothing if it
      is there. */
  lemma SnapshotEntryExactly(b: BookState, e: MdEntry, buy: bool, k: nat)
    ensures var r := Snapshotted(b, e);
      match Read(e, b.id.tick, b.snpSeq)
      case Bad => !r.ok && r.book == b
      case EmptyMark => r.ok && r.book == b.(empty := true)
      case Order(o) =>
        var level := LevelAt(b, o.buy, KeyOf(o.price));
        && (r.ok <==> level.None? || level.value.seqNum > b.snpSeq || level.value.size == o.size)
        && r.book == b.(sides := r.book.sides)
        && LevelAt(r.book, buy, k) ==
             if level.None? && buy == o.buy && k == KeyOf(o.price) then Some(Entry(b.snpSeq, o.price, o.size))
             else LevelAt(b, buy, k)
  {
  }

  /** No entries, no session, no RptSeq for the book's own session, or an entry that is refused. */
  ghost predicate MergeIsRefused(b: BookState, snap: Snapshot) {
    || !snap.entries.Value?
    || (snap.entries.v != []
        && var session := snap.entries.v[|snap.entries.v| - 1].session;
           || session.Empty?
           || (!Foreign(b.id, session)
               && (snap.rptSeq.Value? ==>
                     !MergeEntries(b.(snpSeq := snap.rptSeq.v, empty := false), snap.entries.v).ok)))
  }

  /** A snapshot for a book brings it into use exactly if it has entries, all of them are taken, none marks an empty
      book, the session fits and there is a RptSeq; without entries, or with another session, it changes nothing. */
  lemma SnapshotActivatesExactly(b: BookState, snap: Snapshot)
    requires !b.active
    ensures var r := MergeSnapshot(b, snap);
      && (r.ok && r.book.active <==>
            && snap.entries.Value? && snap.entries.v != [] && snap.rptSeq.Value?
            && !snap.entries.v[|snap.entries.v| - 1].session.Empty?
            && !Foreign(b.id, snap.entries.v[|snap.entries.v| - 1].session)
            && var m := MergeEntries(b.(snpSeq := snap.rptSeq.v, empty := false), snap.entries.v);
               m.ok && !m.book.empty)
      && (snap.entries.Value? && (snap.entries.v == []
                                  || Foreign(b.id, snap.entries.v[|snap.entries.v| - 1].session)) ==>
            r == Applied(true, b))
      && (!r.ok <==> MergeIsRefused(b, snap))
      && (r.ok && r.book.active ==> r.book.snpSeq == snap.rptSeq.v)
  {
    if snap.entries.Value? && snap.entries.v != [] {
      ForeignExactly(b.id, snap.entries.v[|snap.entries.v| - 1].session);
      if snap.rptSeq.Value? {
        MergeKeepsFlags(b.(snpSeq := snap.rptSeq.v, empty := false), snap.entries.v);
      }
    }
  }

  lemma {:induction false} MergeKeepsFlags(b: BookState, entries: seq<MdEntry>)
    ensures var r := MergeEntries(b, entries).book; r.active == b.active && r.snpSeq == b.snpSeq
    decreases |entries|
  {
    if entries != [] {
      MergeKeepsFlags(b, entries[..|entries| - 1]);
    }
  }

  /** A snapshot touches the book it names only if that is joining and not in use, and is the one that is being
      joined: by the same identifier, or a symbol that begins with that book's. */
  lemma SnapshotIsForJoining(books: Books, t: nat, snap: Snapshot, i: nat)
    requires t < |books| && i < |books|
    ensures var r := ApplySnapshot(books, t, snap);
      r.books[i] != books[i] ==>
        && !books[i].active && books[i].join && NamedBy(books[i].id, snap.securityId, snap.symbol)
        && if snap.securityId.Value? then books[i].id.securityId == books[t].id.securityId
           else books[t].id.symbol <= books[i].id.symbol
  {
    LocatesFirst(books, snap.securityId, snap.symbol);
  }

  /** The first book that the message names. */
  predicate IsNamed(books: Books, i: nat, securityId: Field<nat>, symbol: Field<string>) {
    && i < |books| && NamedBy(books[i].id, securityId, symbol)
    && forall j | 0 <= j < i :: !NamedBy(books[j].id, securityId, symbol)
  }

  /** A held snapshot is used for a book exactly if the book it names is this one, by identifier or by the whole
      symbol; the join fails if it names none and does not say which. */
  lemma HeldIsUsedExactly(books: Books, t: nat, snap: Snapshot)
    requires t < |books|
    ensures SnapshotOf(books, t, snap) == None <==>
      snap.securityId.Empty? || (!snap.securityId.Value? && !snap.symbol.Value?)
    ensures SnapshotOf(books, t, snap) == Some(true) <==>
      && !snap.securityId.Empty?
      && exists i: nat ::
           && IsNamed(books, i, snap.securityId, snap.symbol)
           && if snap.securityId.Value? then books[i].id.securityId == books[t].id.securityId
              else books[i].id.symbol == books[t].id.symbol
  {
    LocatesFirst(books, snap.securityId, snap.symbol);
    var l := Locate(books, snap.securityId, snap.symbol);
    if l.Target? {
      assert IsNamed(books, l.i, snap.securityId, snap.symbol);
      forall i: nat | IsNamed(books, i, snap.securityId, snap.symbol) ensures i == l.i {
      }
    }
  }
}
