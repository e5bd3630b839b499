/** Market data applied to a set of books, on values: what lib/proto/fast_book.c does to its books when it
    applies increments and snapshots and when it joins a book to a running feed. */
module BookSpec {
  import opened Wrappers
  import opened LevelBook
  import D = Digits

  const U64: nat := 0x1_0000_0000_0000_0000

  /** A field of a decoded message: not in the template, present but empty, or a value. */
  datatype Field<+T> = Absent | Empty | Value(v: T)

  datatype Decimal = Decimal(exp: int, mnt: int)

  /** MDEntrySize may be an integer or a decimal; any other type is an error. */
  datatype Size = IntSize(n: int) | DecimalSize(d: Decimal) | OtherSize

  datatype MdEntry = MdEntry(
    securityId: Field<nat>, symbol: Field<string>, session: Field<string>, rptSeq: Field<nat>,
    entryType: Field<char>, size: Field<Size>, price: Field<Decimal>, action: Field<nat>)

  datatype Snapshot = Snapshot(
    securityId: Field<nat>, symbol: Field<string>, rptSeq: Field<nat>, lastMsgSeqNum: Field<nat>,
    entries: Field<seq<MdEntry>>)

  datatype Increment = Increment(msgSeqNum: nat, entries: Field<seq<MdEntry>>)

  // ----- prices and sizes -----------------------------------------------------------------

  /** The mantissa of the same number with exponent `tick`, if it has one. */
  function Aligned(price: Decimal, tick: int): Option<int> {
    if price.exp >= tick then Some(price.mnt * D.Pow10(price.exp - tick))
    else if price.mnt % D.Pow10(tick - price.exp) == 0 then Some(price.mnt / D.Pow10(tick - price.exp))
    else None
  }

  function SizeOf(s: Size): Option<int> {
    match s
    case IntSize(n) => Some(n)
    case DecimalSize(d) => if d.exp < 0 then None else Some(d.mnt * D.Pow10(d.exp))
    case OtherSize => None
  }

  /** Two decimals are the same number. */
  predicate SameNumber(a: Decimal, b: Decimal) {
    var low := if a.exp < b.exp then a.exp else b.exp;
    a.mnt * D.Pow10(a.exp - low) == b.mnt * D.Pow10(b.exp - low)
  }

  lemma Multiple(a: int, p: int, m: int)
    requires p > 0
    ensures a == m * p <==> a % p == 0 && a / p == m
  {
    if a == m * p {
      var d := m - a / p;
      assert p * d == a % p;
      assert d >= 1 ==> p * d >= p;
      assert d <= -1 ==> p * d <= -p;
    }
  }

  /** A price has a mantissa at the tick exactly if some integer number of ticks is the same number. */
  lemma AlignedIsSame(price: Decimal, tick: int, m: int)
    ensures Aligned(price, tick) == Some(m) <==> SameNumber(price, Decimal(tick, m))
  {
    if price.exp < tick {
      Multiple(price.mnt, D.Pow10(tick - price.exp), m);
    }
  }

  /** A size that is a decimal has to have an exponent that is not negative. */
  lemma SizeIsSame(d: Decimal, n: int)
    ensures SizeOf(DecimalSize(d)) == Some(n) <==> d.exp >= 0 && SameNumber(d, Decimal(0, n))
  {
  }

  // ----- books ----------------------------------------------------------------------------

  /** What never changes about a book; a symbol or session matches any text it is a prefix of. */
  datatype BookId = BookId(securityId: nat, symbol: string, session: string, tick: int)

  datatype Sides = Sides(bids: Levels, asks: Levels) {
    function Of(buy: bool): Levels { if buy then bids else asks }
    function With(buy: bool, m: Levels): Sides { if buy then Sides(m, asks) else Sides(bids, m) }
  }

  datatype BookState = BookState(
    id: BookId, sides: Sides, rptSeq: nat, snpSeq: nat, active: bool, join: bool, empty: bool)

  /** The book after a step, and whether the step succeeded. */
  datatype Applied = Applied(ok: bool, book: BookState)

  function Modify(b: BookState, o: Order): Applied {
    match Modified(b.sides.Of(o.buy), o)
    case None => Applied(false, b)
    case Some(m) => Applied(true, b.(sides := b.sides.With(o.buy, m)))
  }

  function Delete(b: BookState, o: Order): BookState {
    b.(sides := b.sides.With(o.buy, b.sides.Of(o.buy) - {KeyOf(o.price)}))
  }

  /** The entry's side, size and aligned price: the part md_increment and md_snapshot share. */
  datatype Reading = Order(o: Order) | EmptyMark | Bad

  function Read(e: MdEntry, tick: int, seqNum: nat): Reading {
    if !e.entryType.Value? then Bad
    else if e.entryType.v == 'J' then EmptyMark
    else if e.entryType.v != '0' && e.entryType.v != '1' then Bad
    else if !e.size.Value? || SizeOf(e.size.v).None? then Bad
    else if !e.price.Value? || Aligned(e.price.v, tick).None? then Bad
    else Reading.Order(LevelBook.Order(seqNum, Aligned(e.price.v, tick).value % U64, SizeOf(e.size.v).value % U64,
                                       e.entryType.v == '0'))
  }

  /** md_increment: while the book is not active a deleted level stays behind as a tombstone of size 0. */
  function Incremented(b: BookState, e: MdEntry): Applied {
    match Read(e, b.id.tick, b.rptSeq)
    case Bad => Applied(false, b)
    case EmptyMark => Applied(true, b.(empty := true))
    case Order(o) =>
      if !e.action.Value? then Applied(false, b)
      else if e.action.v == 0 || e.action.v == 1 then Modify(b, o)
      else if e.action.v == 2 then
        if b.active then Applied(true, Delete(b, o)) else Modify(b, o.(size := 0))
      else Applied(false, b)
  }

  /** md_snapshot: fill in a missing level; a level not newer than the snapshot must have its size. */
  function Snapshotted(b: BookState, e: MdEntry): Applied {
    match Read(e, b.id.tick, b.snpSeq)
    case Bad => Applied(false, b)
    case EmptyMark => Applied(true, b.(empty := true))
    case Order(o) =>
      var m := b.sides.Of(o.buy);
      if KeyOf(o.price) !in m then Modify(b, o)
      else Applied(m[KeyOf(o.price)].seqNum <= b.snpSeq ==> m[KeyOf(o.price)].size == o.size, b)
  }

  // ----- the set of books -----------------------------------------------------------------

  type Books = seq<BookState>

  datatype Outcome = Outcome(ok: bool, books: Books)

  /** fast_book_by_id */
  function FindById(books: Books, securityId: nat): Option<nat> {
    if books == [] then None
    else if books[0].id.securityId == securityId then Some(0)
    else match FindById(books[1..], securityId) case None => None case Some(i) => Some(i + 1)
  }

  /** fast_book_by_symbol */
  function FindBySymbol(books: Books, symbol: string): Option<nat> {
    if books == [] then None
    else if books[0].id.symbol <= symbol then Some(0)
    else match FindBySymbol(books[1..], symbol) case None => None case Some(i) => Some(i + 1)
  }

  lemma {:induction false} FoundInRange(books: Books, securityId: nat, symbol: string)
    ensures FindById(books, securityId).Some? ==> FindById(books, securityId).value < |books|
    ensures FindBySymbol(books, symbol).Some? ==> FindBySymbol(books, symbol).value < |books|
  {
    if books != [] {
      FoundInRange(books[1..], securityId, symbol);
    }
  }

  /** Which book a message names: by id if it has one, else by symbol. */
  datatype Target = NoTarget | BadTarget | Target(i: nat)

  function Locate(books: Books, securityId: Field<nat>, symbol: Field<string>): (t: Target)
    ensures t.Target? ==> t.i < |books|
  {
    FoundInRange(books, if securityId.Value? then securityId.v else 0, if symbol.Value? then symbol.v else "");
    if securityId.Empty? || (securityId.Absent? && !symbol.Value?) then BadTarget
    else
      var found := if securityId.Value? then FindById(books, securityId.v) else FindBySymbol(books, symbol.v);
      if found.None? then NoTarget else Target(found.value)
  }

  predicate OtherSession(id: BookId, session: Field<string>) {
    session.Value? && !(id.session <= session.v)
  }

  /** One entry of apply_increment that reached its book. */
  function Accept(b: BookState, e: MdEntry): Applied {
    if e.session.Empty? then Applied(false, b)
    else if OtherSession(b.id, e.session) then Applied(true, b)
    else if !e.rptSeq.Value? then Applied(false, b)
    else
      var start := if b.rptSeq == 0 then (e.rptSeq.v + U64 - 1) % U64 else b.rptSeq;
      var b' := b.(rptSeq := (start + 1) % U64);
      if b'.rptSeq != e.rptSeq.v then Applied(false, b')
      else Incremented(b'.(empty := false), e)
  }

  function ApplyEntry(books: Books, e: MdEntry): (r: Outcome)
    ensures |r.books| == |books|
  {
    match Locate(books, e.securityId, e.symbol)
    case BadTarget => Outcome(false, books)
    case NoTarget => Outcome(true, books)
    case Target(i) =>
      if !books[i].active && !books[i].join then Outcome(true, books)
      else
        var r := Accept(books[i], e);
        Outcome(r.ok, books[i := r.book])
  }

  /** The loop of apply_increment stops at the first entry that fails. */
  function ApplyEntries(books: Books, es: seq<MdEntry>): (r: Outcome)
    ensures |r.books| == |books|
    decreases |es|
  {
    if es == [] then Outcome(true, books)
    else
      var r := ApplyEntries(books, es[..|es| - 1]);
      if r.ok then ApplyEntry(r.books, es[|es| - 1]) else r
  }

  /** apply_increment */
  function ApplyIncrement(books: Books, msg: Increment): (r: Outcome)
    ensures |r.books| == |books|
  {
    if msg.entries.Value? then ApplyEntries(books, msg.entries.v) else Outcome(false, books)
  }

  /** The loop of apply_snapshot. */
  function MergeEntries(b: BookState, es: seq<MdEntry>): Applied
    decreases |es|
  {
    if es == [] then Applied(true, b)
    else
      var r := MergeEntries(b, es[..|es| - 1]);
      if r.ok then Snapshotted(r.book, es[|es| - 1]) else r
  }

  /** apply_snapshot once the book is known; the session is that of the element decoded last. */
  function MergeSnapshot(b: BookState, snap: Snapshot): Applied {
    if !snap.entries.Value? then Applied(false, b)
    else if snap.entries.v == [] then Applied(true, b)
    else
      var session := snap.entries.v[|snap.entries.v| - 1].session;
      if session.Empty? then Applied(false, b)
      else if OtherSession(b.id, session) then Applied(true, b)
      else if !snap.rptSeq.Value? then Applied(false, b)
      else
        var r := MergeEntries(b.(snpSeq := snap.rptSeq.v, empty := false), snap.entries.v);
        if r.ok && !r.book.empty then Applied(true, r.book.(active := true)) else r
  }

  /** apply_snapshot for the book `t` */
  function ApplySnapshot(books: Books, t: nat, snap: Snapshot): (r: Outcome)
    requires t < |books|
    ensures |r.books| == |books|
  {
    match Locate(books, snap.securityId, snap.symbol)
    case BadTarget => Outcome(false, books)
    case NoTarget => Outcome(true, books)
    case Target(i) =>
      var other := if snap.securityId.Value? then books[t].id.securityId != books[i].id.securityId
                   else !(books[t].id.symbol <= books[i].id.symbol);
      if books[i].active || !books[i].join || other then Outcome(true, books)
      else
        var r := MergeSnapshot(books[i], snap);
        Outcome(r.ok, books[i := r.book])
  }

  // ----- joining a book to the feed -------------------------------------------------------

  /** What the feeds deliver in one turn of the join loop: a failure, nothing, or a message. */
  datatype Poll<+T> = Failed | Nothing | Got(msg: T)

  datatype Turn = Turn(inc: Poll<Increment>, snp: Poll<Snapshot>)

  datatype Joining = Joining(books: Books, init: nat, cur: nat, snpReceived: bool, snap: Option<Snapshot>)

  /** Waiting, or over after message `cur`. */
  datatype Joined = More(j: Joining) | Done(ok: bool, books: Books, cur: nat)

  /** Is the held snapshot one of the book `t`?  None is a malformed snapshot. */
  function SnapshotOf(books: Books, t: nat, snap: Snapshot): Option<bool>
    requires t < |books|
  {
    match Locate(books, snap.securityId, snap.symbol)
    case BadTarget => None
    case NoTarget => Some(false)
    case Target(i) =>
      Some(if snap.securityId.Value? then books[i].id.securityId == books[t].id.securityId
           else books[i].id.symbol == books[t].id.symbol)
  }

  /** The first half of a turn: take the next increment. */
  function TakeIncrement(j: Joining, inc: Poll<Increment>): (r: Joined)
    ensures r.More? ==> |r.j.books| == |j.books|
  {
    match inc
    case Failed => Done(false, j.books, j.cur)
    case Nothing => More(j)
    case Got(msg) =>
      var r := ApplyIncrement(j.books, msg);
      if !r.ok then Done(false, r.books, j.cur)
      else More(j.(books := r.books, cur := msg.msgSeqNum, init := if j.init == 0 then msg.msgSeqNum else j.init))
  }

  /** Ask for a snapshot unless a suitable one is held. */
  function TakeSnapshot(j: Joining, snp: Poll<Snapshot>): (r: Joined)
    ensures r.More? ==> r.j.books == j.books
  {
    if j.snpReceived then More(j)
    else match snp
      case Failed => Done(false, j.books, j.cur)
      case Nothing => More(j.(snap := None))
      case Got(s) => More(j.(snap := Some(s)))
  }

  /** The second half of a turn: use the held snapshot if the increments seen so far surround it. */
  function UseSnapshot(j: Joining, t: nat): (r: Joined)
    requires t < |j.books|
    ensures r.More? ==> |r.j.books| == |j.books|
  {
    if j.snap.None? then More(j)
    else
      var snap := j.snap.value;
      match SnapshotOf(j.books, t, snap)
      case None => Done(false, j.books, j.cur)
      case Some(ours) =>
        if !ours then More(j)
        else if !snap.lastMsgSeqNum.Value? then Done(false, j.books, j.cur)
        else if j.init == 0 || snap.lastMsgSeqNum.v < j.init then More(j)
        else if snap.lastMsgSeqNum.v > j.cur then More(j.(snpReceived := true))
        else
          var r := ApplySnapshot(j.books, t, snap);
          if !r.ok then Done(false, r.books, j.cur)
          else More(j.(books := r.books, snpReceived := !r.books[t].empty))
  }

  function JoinTurn(j: Joining, t: nat, turn: Turn): (r: Joined)
    requires t < |j.books|
    ensures r.More? ==> |r.j.books| == |j.books|
  {
    match TakeIncrement(j, turn.inc)
    case Done(ok, books, cur) => Done(ok, books, cur)
    case More(j1) =>
      match TakeSnapshot(j1, turn.snp)
      case Done(ok, books, cur) => Done(ok, books, cur)
      case More(j2) => UseSnapshot(j2, t)
  }

  /** The end of fast_books_join: the tombstones go. */
  function Swept(b: BookState): BookState {
    b.(sides := Sides(Live(b.sides.bids), Live(b.sides.asks)), join := false)
  }

  /** fast_books_join over the turns delivered so far; More means it is still waiting. */
  function JoinRun(j: Joining, t: nat, turns: seq<Turn>): Joined
    requires t < |j.books|
    decreases |turns|
  {
    if j.books[t].active then Done(true, j.books[t := Swept(j.books[t])], j.cur)
    else if turns == [] then More(j)
    else match JoinTurn(j, t, turns[0])
      case Done(ok, books, cur) => Done(ok, books, cur)
      case More(j') => JoinRun(j', t, turns[1..])
  }

  function JoinStart(books: Books, t: nat): Joining
    requires t < |books|
  {
    Joining(books[t := books[t].(active := false, join := true)], 0, 0, false, None)
  }
}
