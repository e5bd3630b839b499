/** Buffering, merging and sweeping against a full replay of the exchange's history, for one book. */
module ReplayLaws {
  import opened Wrappers
  import opened LevelBook
  import opened BookSpec

  /** One change of a price level, as the exchange made it. */
  datatype Event = Event(buy: bool, price: nat, size: nat, delete: bool)

  /** Prices and sizes have 64 bits, and a level that exists has a size. */
  predicate GoodEvent(e: Event) {
    e.price < U64 && e.size < U64 && (e.delete || e.size > 0)
  }

  /** Different prices of a side have different keys: the hash table of the book looks at the lower 32 bits only. */
  ghost predicate KeysApart(es: seq<Event>) {
    forall i, j | 0 <= i < |es| && 0 <= j < |es| && es[i].buy == es[j].buy
      && KeyOf(es[i].price) == KeyOf(es[j].price) ::
      es[i].price == es[j].price
  }

  ghost predicate GoodHistory(es: seq<Event>) {
    |es| < U64 - 1 && (forall e | e in es :: GoodEvent(e)) && KeysApart(es)
  }

  type Prices = map<nat, nat>

  /** The reference: one side after the first `n` events. */
  function Replay(es: seq<Event>, n: nat, buy: bool): Prices
    requires n <= |es|
  {
    if n == 0 then map[]
    else
      var prev, e := Replay(es, n - 1, buy), es[n - 1];
      if e.buy != buy then prev
      else if e.delete then prev - {e.price}
      else prev[e.price := e.size]
  }

  /** What buffering events `a`+1 .. `b` leaves on one side: the last touch of each price, deletions as size 0. */
  function Buffer(es: seq<Event>, a: nat, b: nat, buy: bool): Levels
    requires a <= b <= |es|
  {
    if b == a then map[]
    else
      var prev, e := Buffer(es, a, b - 1, buy), es[b - 1];
      if e.buy != buy then prev
      else prev[KeyOf(e.price) := Entry(b, e.price, if e.delete then 0 else e.size)]
  }

  /** The live levels of one side are the prices of `r` with their sizes. */
  ghost predicate Shows(m: Levels, r: Prices) {
    && (forall p | p in r :: ShowsAt(m, p, r[p]))
    && (forall k | k in m && m[k].size != 0 :: m[k].price in r && KeyOf(m[k].price) == k)
  }

  predicate ShowsAt(m: Levels, p: nat, size: nat) {
    KeyOf(p) in m && m[KeyOf(p)].price == p && m[KeyOf(p)].size == size
  }

  ghost predicate SameAt(x: Prices, y: Prices, p: nat) {
    (p in x <==> p in y) && (p in x ==> x[p] == y[p])
  }

  /** Some event has this price. */
  ghost predicate Named(es: seq<Event>, buy: bool, p: nat) {
    exists i :: 0 <= i < |es| && es[i].buy == buy && es[i].price == p
  }

  lemma KeyNamesPrice(es: seq<Event>, buy: bool, p: nat, q: nat)
    requires KeysApart(es) && Named(es, buy, p) && Named(es, buy, q) && KeyOf(p) == KeyOf(q)
    ensures p == q
  {
  }

  /** A buffered level is that of an event, under the key of its price. */
  lemma {:induction false} BufferIsNamed(es: seq<Event>, a: nat, b: nat, buy: bool, k: nat)
    requires a <= b <= |es| && k in Buffer(es, a, b, buy)
    ensures var l := Buffer(es, a, b, buy)[k]; a < l.seqNum <= b && KeyOf(l.price) == k && Named(es, buy, l.price)
    decreases b
  {
    var e := es[b - 1];
    if e.buy != buy || KeyOf(e.price) != k {
      BufferIsNamed(es, a, b - 1, buy, k);
    }
  }

  lemma {:induction false} ReplayIsNamed(es: seq<Event>, n: nat, buy: bool, p: nat)
    requires n <= |es| && (forall e | e in es :: GoodEvent(e)) && p in Replay(es, n, buy)
    ensures Named(es, buy, p) && 0 < Replay(es, n, buy)[p] < U64
  {
    assert es[n - 1] in es;
    var prev := Replay(es, n - 1, buy);
    if p in prev && prev[p] == Replay(es, n, buy)[p] {
      ReplayIsNamed(es, n - 1, buy, p);
    }
  }

  predicate Buffers(m: Levels, p: nat) {
    KeyOf(p) in m && m[KeyOf(p)].price == p
  }

  /** A buffered level is the last word on its price, and a price not buffered did not change. */
  lemma {:induction false} BufferIsLastWord(es: seq<Event>, a: nat, n: nat, b: nat, buy: bool, p: nat)
    requires a <= n <= b <= |es| && GoodHistory(es)
    ensures var m := Buffer(es, a, b, buy);
      if Buffers(m, p) then
        && (m[KeyOf(p)].size != 0 <==> p in Replay(es, b, buy))
        && (m[KeyOf(p)].size != 0 ==> m[KeyOf(p)].size == Replay(es, b, buy)[p])
        && (m[KeyOf(p)].seqNum <= n ==> SameAt(Replay(es, n, buy), Replay(es, b, buy), p))
      else
        SameAt(Replay(es, n, buy), Replay(es, b, buy), p)
    decreases b
  {
    if b > a {
      var e := es[b - 1];
      assert e in es;
      BufferIsLastWord(es, a, if n < b then n else b - 1, b - 1, buy, p);
      var prev := Buffer(es, a, b - 1, buy);
      if e.buy == buy && KeyOf(e.price) == KeyOf(p) && Buffers(prev, p) {
        BufferIsNamed(es, a, b - 1, buy, KeyOf(p));
        KeyNamesPrice(es, buy, p, e.price);
      }
    }
  }

  // ----- merging a snapshot ---------------------------------------------------------------

  /** The snapshot entry `e` states a level of the replay at `s`. */
  predicate States(e: MdEntry, tick: int, es: seq<Event>, s: nat)
    requires s <= |es|
  {
    match Read(e, tick, s)
    case Order(o) => o.price in Replay(es, s, o.buy) && Replay(es, s, o.buy)[o.price] == o.size
    case _ => false
  }

  predicate Names(e: MdEntry, tick: int, s: nat, buy: bool, p: nat) {
    var r := Read(e, tick, s);
    r.Order? && r.o.buy == buy && r.o.price == p
  }

  /** The entries are exactly the levels of the book after `s` events. */
  ghost predicate FaithfulEntries(entries: seq<MdEntry>, tick: int, es: seq<Event>, s: nat)
    requires s <= |es|
  {
    && (forall i | 0 <= i < |entries| :: States(entries[i], tick, es, s))
    && (forall buy, p | p in Replay(es, s, buy) :: Listed(entries, tick, s, buy, p))
  }

  ghost predicate Listed(entries: seq<MdEntry>, tick: int, s: nat, buy: bool, p: nat) {
    exists i :: 0 <= i < |entries| && Names(entries[i], tick, s, buy, p)
  }

  /** A side after merging: the buffer untouched, and missing levels taken from the replay at `s`. */
  ghost predicate Merged(m: Levels, es: seq<Event>, a: nat, b: nat, s: nat, buy: bool)
    requires a <= b <= |es| && s <= |es|
  {
    && (forall k | k in Buffer(es, a, b, buy) :: k in m && m[k] == Buffer(es, a, b, buy)[k])
    && (forall k | k in m && k !in Buffer(es, a, b, buy) :: TakenFrom(m[k], k, Replay(es, s, buy), s))
  }

  predicate TakenFrom(l: Entry, k: nat, r: Prices, s: nat) {
    l.price in r && KeyOf(l.price) == k && l == Entry(s, l.price, r[l.price])
  }

  ghost predicate BothMerged(sides: Sides, es: seq<Event>, a: nat, b: nat, s: nat)
    requires a <= b <= |es| && s <= |es|
  {
    Merged(sides.bids, es, a, b, s, true) && Merged(sides.asks, es, a, b, s, false)
  }

  /** The level found for a price of the replay is its own. */
  lemma FoundIsOwn(m: Levels, es: seq<Event>, a: nat, b: nat, s: nat, buy: bool, p: nat)
    requires GoodHistory(es) && a <= b <= |es| && s <= |es| && Merged(m, es, a, b, s, buy)
    requires p in Replay(es, s, buy) || p in Replay(es, b, buy)
    requires KeyOf(p) in m
    ensures m[KeyOf(p)].price == p
  {
    if p in Replay(es, s, buy) {
      ReplayIsNamed(es, s, buy, p);
    } else {
      ReplayIsNamed(es, b, buy, p);
    }
    var k := KeyOf(p);
    if k in Buffer(es, a, b, buy) {
      BufferIsNamed(es, a, b, buy, k);
    } else {
      ReplayIsNamed(es, s, buy, m[k].price);
    }
    KeyNamesPrice(es, buy, p, m[k].price);
  }

  /** Inside the window a faithful entry is not refused. */
  lemma StepFillsIn(book: BookState, e: MdEntry, es: seq<Event>, a: nat, b: nat, s: nat)
    requires GoodHistory(es) && a <= s <= b <= |es| && book.snpSeq == s
    requires BothMerged(book.sides, es, a, b, s)
    requires States(e, book.id.tick, es, s)
    ensures var r, o := Snapshotted(book, e), Read(e, book.id.tick, s).o;
      && r.ok && r.book == book.(sides := r.book.sides)
      && BothMerged(r.book.sides, es, a, b, s)
      && KeyOf(o.price) in r.book.sides.Of(o.buy)
      && (forall buy :: book.sides.Of(buy).Keys <= r.book.sides.Of(buy).Keys)
  {
    var o := Read(e, book.id.tick, s).o;
    var m := book.sides.Of(o.buy);
    BufferIsLastWord(es, a, s, b, o.buy, o.price);
    if KeyOf(o.price) in m {
      FoundIsOwn(m, es, a, b, s, o.buy, o.price);
    }
  }

  /** Inside the window no faithful snapshot is refused, and it only fills in what the buffer lacks. */
  lemma {:induction false} MergeFillsIn(book: BookState, entries: seq<MdEntry>, es: seq<Event>, a: nat, b: nat, s: nat)
    requires GoodHistory(es) && a <= s <= b <= |es| && book.snpSeq == s
    requires book.sides == Sides(Buffer(es, a, b, true), Buffer(es, a, b, false))
    requires forall i | 0 <= i < |entries| :: States(entries[i], book.id.tick, es, s)
    ensures var r := MergeEntries(book, entries);
      && r.ok && r.book == book.(sides := r.book.sides)
      && BothMerged(r.book.sides, es, a, b, s)
      && (forall i | 0 <= i < |entries| :: Has(r.book.sides, entries[i], book.id.tick, s))
    decreases |entries|
  {
    if entries != [] {
      var prev, e := entries[..|entries| - 1], entries[|entries| - 1];
      MergeFillsIn(book, prev, es, a, b, s);
      var mid := MergeEntries(book, prev).book;
      StepFillsIn(mid, e, es, a, b, s);
      var r := MergeEntries(book, entries);
      forall i | 0 <= i < |entries| ensures Has(r.book.sides, entries[i], book.id.tick, s) {
        if i < |prev| {
          assert prev[i] == entries[i] && Has(mid.sides, prev[i], book.id.tick, s);
        }
      }
    }
  }

  /** The level the entry names is there. */
  predicate Has(sides: Sides, e: MdEntry, tick: int, s: nat) {
    var r := Read(e, tick, s);
    r.Order? && KeyOf(r.o.price) in sides.Of(r.o.buy)
  }

  /** A merged and swept side is the replay up to the last buffered event. */
  lemma MergedIsReplay(m: Levels, es: seq<Event>, a: nat, b: nat, s: nat, buy: bool)
    requires GoodHistory(es) && a <= s <= b <= |es|
    requires Merged(m, es, a, b, s, buy)
    requires forall p | p in Replay(es, s, buy) :: KeyOf(p) in m
    ensures Shows(Live(m), Replay(es, b, buy))
  {
    var r := Replay(es, b, buy);
    forall p | p in r ensures ShowsAt(Live(m), p, r[p]) {
      BufferIsLastWord(es, a, s, b, buy, p);
      ReplayIsNamed(es, b, buy, p);
      FoundIsOwn(m, es, a, b, s, buy, p);
    }
    forall k | k in m && m[k].size != 0 ensures m[k].price in r && KeyOf(m[k].price) == k {
      BufferIsLastWord(es, a, s, b, buy, m[k].price);
      if k in Buffer(es, a, b, buy) {
        BufferIsNamed(es, a, b, buy, k);
      }
    }
  }

  /** A swept side: no tombstones, each level under the key of its price and not newer than event `n`. */
  ghost predicate Clean(m: Levels, n: nat) {
    forall k | k in m :: KeyOf(m[k].price) == k && m[k].size != 0 && m[k].seqNum <= n
  }

  lemma MergedIsClean(m: Levels, es: seq<Event>, a: nat, b: nat, s: nat, buy: bool)
    requires GoodHistory(es) && a <= s <= b <= |es| && Merged(m, es, a, b, s, buy)
    ensures Clean(Live(m), b)
  {
    forall k | k in Live(m) ensures KeyOf(m[k].price) == k && m[k].seqNum <= b {
      if k in Buffer(es, a, b, buy) {
        BufferIsNamed(es, a, b, buy, k);
      }
    }
  }

  /** A book that buffered events `a`+1 .. `b`. */
  function Buffered(id: BookId, es: seq<Event>, a: nat, b: nat, s: nat): BookState
    requires a <= b <= |es|
  {
    BookState(id, Sides(Buffer(es, a, b, true), Buffer(es, a, b, false)), b, s, false, true, false)
  }

  ghost predicate IsReplay(sides: Sides, es: seq<Event>, n: nat)
    requires n <= |es|
  {
    forall buy :: Shows(sides.Of(buy), Replay(es, n, buy))
  }

  /** Merging a faithful snapshot taken after `s` events either fails or gives the book after event `b`. */
  ghost predicate JoinsRight(id: BookId, es: seq<Event>, entries: seq<MdEntry>, a: nat, b: nat, s: nat)
    requires a <= b <= |es| && s <= |es|
  {
    var r := MergeEntries(Buffered(id, es, a, b, s), entries);
    GoodHistory(es) && FaithfulEntries(entries, id.tick, es, s) && r.ok ==> IsReplay(Swept(r.book).sides, es, b)
  }

  /** Inside the window the merge succeeds, and sweeping it gives the book after the last buffered event. */
  lemma MergeIsReplay(book: BookState, entries: seq<MdEntry>, es: seq<Event>, a: nat, b: nat, s: nat)
    requires GoodHistory(es) && a <= s <= b <= |es| && book.snpSeq == s
    requires book.sides == Sides(Buffer(es, a, b, true), Buffer(es, a, b, false))
    requires FaithfulEntries(entries, book.id.tick, es, s)
    ensures var r := MergeEntries(book, entries);
      && r.ok && r.book == book.(sides := r.book.sides)
      && IsReplay(Swept(r.book).sides, es, b)
      && Clean(Swept(r.book).sides.bids, b) && Clean(Swept(r.book).sides.asks, b)
  {
    MergeFillsIn(book, entries, es, a, b, s);
    var sides := MergeEntries(book, entries).book.sides;
    forall buy ensures Shows(Live(sides.Of(buy)), Replay(es, b, buy)) {
      AllFilledIn(sides, entries, book.id.tick, es, s, buy);
      MergedIsReplay(sides.Of(buy), es, a, b, s, buy);
    }
    MergedIsClean(sides.bids, es, a, b, s, true);
    MergedIsClean(sides.asks, es, a, b, s, false);
    assert Swept(MergeEntries(book, entries).book).sides == Sides(Live(sides.Of(true)), Live(sides.Of(false)));
  }

  lemma FilledIn(sides: Sides, entries: seq<MdEntry>, tick: int, s: nat, buy: bool, p: nat)
    requires forall i | 0 <= i < |entries| :: Has(sides, entries[i], tick, s)
    requires Listed(entries, tick, s, buy, p)
    ensures KeyOf(p) in sides.Of(buy)
  {
    var i :| 0 <= i < |entries| && Names(entries[i], tick, s, buy, p);
    assert Has(sides, entries[i], tick, s);
  }

  lemma AllFilledIn(sides: Sides, entries: seq<MdEntry>, tick: int, es: seq<Event>, s: nat, buy: bool)
    requires s <= |es| && FaithfulEntries(entries, tick, es, s)
    requires forall i | 0 <= i < |entries| :: Has(sides, entries[i], tick, s)
    ensures forall p | p in Replay(es, s, buy) :: KeyOf(p) in sides.Of(buy)
  {
    forall p | p in Replay(es, s, buy) ensures KeyOf(p) in sides.Of(buy) {
      assert Listed(entries, tick, s, buy, p);
      FilledIn(sides, entries, tick, s, buy, p);
    }
  }

  lemma WindowSuffices(id: BookId, es: seq<Event>, entries: seq<MdEntry>, a: nat, b: nat, s: nat)
    requires a <= s <= b <= |es|
    ensures JoinsRight(id, es, entries, a, b, s)
  {
    if GoodHistory(es) && FaithfulEntries(entries, id.tick, es, s) {
      MergeIsReplay(Buffered(id, es, a, b, s), entries, es, a, b, s);
    }
  }

  // ----- outside the window ---------------------------------------------------------------

  /** Price 2 is set over and over; price 1 is set once, by event number `w`. */
  function Witness(n: nat, w: nat): (es: seq<Event>)
    ensures |es| == n
  {
    seq(n, i => Event(true, if i + 1 == w then 1 else 2, 1, false))
  }

  lemma {:induction false} WitnessReplay(n: nat, w: nat, k: nat)
    requires k <= n && w > 0
    ensures Replay(Witness(n, w), k, false) == map[]
    ensures var r := Replay(Witness(n, w), k, true);
      && (1 in r <==> w <= k) && (2 in r <==> k > 1 || (k == 1 && w != 1))
      && (forall p | p in r :: (p == 1 || p == 2) && r[p] == 1)
  {
    if k > 0 {
      WitnessReplay(n, w, k - 1);
    }
  }

  lemma {:induction false} WitnessBuffer(n: nat, w: nat, a: nat, b: nat)
    requires a <= b <= n && w > 0
    ensures var m := Buffer(Witness(n, w), a, b, true);
      && (1 in m <==> a < w <= b) && (forall p | p in m :: (p == 1 || p == 2) && m[p].size == 1)
  {
    if b > a {
      WitnessBuffer(n, w, a, b - 1);
    }
  }

  function Line(price: nat, tick: int): (e: MdEntry)
    requires price < U64
    ensures forall s :: Read(e, tick, s) == Reading.Order(LevelBook.Order(s, price, 1, true))
  {
    MdEntry(Absent, Absent, Absent, Absent, Value('0'), Value(IntSize(1)), Value(Decimal(tick, price)), Absent)
  }

  function Lines(one: bool, two: bool, tick: int): (r: seq<MdEntry>)
    ensures forall i | 0 <= i < |r| :: r[i] in {Line(1, tick), Line(2, tick)}
    ensures one <==> Line(1, tick) in r
    ensures two <==> Line(2, tick) in r
  {
    assert Line(1, tick).price != Line(2, tick).price;
    if one then if two then [Line(1, tick), Line(2, tick)] else [Line(1, tick)]
    else if two then [Line(2, tick)] else []
  }

  lemma WitnessStates(n: nat, w: nat, tick: int, s: nat, p: nat)
    requires s <= n && w > 0 && p < 3 && p in Replay(Witness(n, w), s, true)
    ensures States(Line(p, tick), tick, Witness(n, w), s) && Names(Line(p, tick), tick, s, true, p)
  {
    WitnessReplay(n, w, s);
  }

  lemma WitnessIsFaithful(n: nat, w: nat, tick: int, s: nat) returns (entries: seq<MdEntry>)
    requires s <= n && w > 0
    ensures FaithfulEntries(entries, tick, Witness(n, w), s)
    ensures forall i | 0 <= i < |entries| :: entries[i] in {Line(1, tick), Line(2, tick)}
    ensures w <= s <==> Line(1, tick) in entries
    ensures s > 0 ==> entries != []
  {
    WitnessReplay(n, w, s);
    var es := Witness(n, w);
    var r := Replay(es, s, true);
    entries := Lines(1 in r, 2 in r, tick);
    forall i | 0 <= i < |entries| ensures States(entries[i], tick, es, s) {
      WitnessStates(n, w, tick, s, if entries[i] == Line(1, tick) then 1 else 2);
    }
    forall buy, p | p in Replay(es, s, buy) ensures Listed(entries, tick, s, buy, p) {
      WitnessStates(n, w, tick, s, p);
      var i :| 0 <= i < |entries| && entries[i] == Line(p, tick);
    }
  }

  lemma MergeLine(book: BookState, p: nat)
    requires 0 < p < 3
    requires forall q | q in book.sides.bids :: book.sides.bids[q].size == 1
    ensures var r := Snapshotted(book, Line(p, book.id.tick));
      && r.ok && r.book.id == book.id && (forall q | q in r.book.sides.bids :: r.book.sides.bids[q].size == 1)
      && (1 in r.book.sides.bids <==> 1 in book.sides.bids || p == 1)
  {
    assert KeyOf(p) == p;
  }

  lemma {:induction false} MergeLines(book: BookState, entries: seq<MdEntry>)
    requires forall i | 0 <= i < |entries| :: entries[i] in {Line(1, book.id.tick), Line(2, book.id.tick)}
    requires forall p | p in book.sides.bids :: book.sides.bids[p].size == 1
    ensures var r := MergeEntries(book, entries);
      && r.ok && r.book.id == book.id && (forall p | p in r.book.sides.bids :: r.book.sides.bids[p].size == 1)
      && (1 in r.book.sides.bids <==> 1 in book.sides.bids || Line(1, book.id.tick) in entries)
    decreases |entries|
  {
    if entries != [] {
      var prev, e := entries[..|entries| - 1], entries[|entries| - 1];
      assert forall i | 0 <= i < |prev| :: prev[i] == entries[i];
      MergeLines(book, prev);
      assert entries == prev + [e];
      assert e == entries[|entries| - 1];
      var p := if e == Line(1, book.id.tick) then 1 else 2;
      assert Line(1, book.id.tick).price != Line(2, book.id.tick).price;
      MergeLine(MergeEntries(book, prev).book, p);
    }
  }

  lemma NotShown(m: Levels, r: Prices)
    requires (forall p | p in r :: p == 1 || p == 2) && (forall k | k in m :: m[k].size == 1)
    requires 1 in m <==> 1 !in r
    ensures !Shows(Live(m), r)
  {
    assert KeyOf(1) == 1 && KeyOf(2) == 2;
    assert 1 in r ==> !ShowsAt(Live(m), 1, r[1]);
    assert 1 in m ==> 1 in Live(m);
  }

  /** Outside the window some history and some faithful snapshot give a wrong book without any failure. */
  lemma OutsideWindowGoesWrong(id: BookId, a: nat, b: nat, s: nat) returns (es: seq<Event>, entries: seq<MdEntry>)
    requires a <= b < U64 - 1 && s < U64 - 1 && !(a <= s <= b)
    ensures b <= |es| && s <= |es| && GoodHistory(es) && FaithfulEntries(entries, id.tick, es, s)
    ensures MergeEntries(Buffered(id, es, a, b, s), entries).ok
    ensures !JoinsRight(id, es, entries, a, b, s)
    ensures s > 0 ==> entries != [] && entries[|entries| - 1].session == Absent
  {
    hide Shows, States;
    var n, w := if b < s then s else b, if s < a then a else s;
    es := Witness(n, w);
    entries := WitnessIsFaithful(n, w, id.tick, s);
    WitnessBuffer(n, w, a, b);
    WitnessReplay(n, w, b);
    var book := Buffered(id, es, a, b, s);
    MergeLines(book, entries);
    var m := MergeEntries(book, entries).book.sides.bids;
    assert Swept(MergeEntries(book, entries).book).sides.Of(true) == Live(m);
    NotShown(m, Replay(es, b, true));
  }

  /** The exact window: joining is right for every history and every faithful snapshot if and only if the
      snapshot was taken after no fewer events than precede the buffer and no more than the buffer has seen. */
  lemma JoinWindowExact(id: BookId, a: nat, b: nat, s: nat)
    requires a <= b < U64 - 1 && s < U64 - 1
    ensures (forall es: seq<Event>, entries: seq<MdEntry> | b <= |es| && s <= |es| ::
             JoinsRight(id, es, entries, a, b, s))
            <==> a <= s <= b
  {
    if a <= s <= b {
      forall es: seq<Event>, entries: seq<MdEntry> | b <= |es| && s <= |es|
        ensures JoinsRight(id, es, entries, a, b, s)
      {
        WindowSuffices(id, es, entries, a, b, s);
      }
    } else {
      var es, entries := OutsideWindowGoesWrong(id, a, b, s);
      assert !JoinsRight(id, es, entries, a, b, s);
    }
  }
}
