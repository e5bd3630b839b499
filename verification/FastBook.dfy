/** The books of lib/proto/fast_book.c, updated in place. */
module FastBook {
  import opened Wrappers
  import opened LevelBook
  import opened BookSpec
  import D = Digits

  // ----- decimal_to_int and price_align ---------------------------------------------------

  /** decimal_to_int */
  method DecimalToInt(d: Decimal) returns (out: Option<int>)
    ensures out == SizeOf(DecimalSize(d))
    ensures forall n :: out == Some(n) <==> d.exp >= 0 && SameNumber(d, Decimal(0, n))
  {
    forall n ensures SizeOf(DecimalSize(d)) == Some(n) <==> d.exp >= 0 && SameNumber(d, Decimal(0, n)) {
      SizeIsSame(d, n);
    }
    if d.exp < 0 {
      return None;
    }
    var n, exp := d.mnt, d.exp;
    while exp > 0
      invariant 0 <= exp <= d.exp && n * D.Pow10(exp) == d.mnt * D.Pow10(d.exp)
    {
      n := n * 10;
      exp := exp - 1;
    }
    return Some(n);
  }

  lemma {:induction false} DivideOnce(mnt: int, n: nat)
    requires n > 0
    ensures mnt % 10 != 0 ==> mnt % D.Pow10(n) != 0
    ensures mnt % 10 == 0 ==> (mnt % D.Pow10(n) == 0 <==> (mnt / 10) % D.Pow10(n - 1) == 0)
    ensures mnt % 10 == 0 && mnt % D.Pow10(n) == 0 ==> mnt / D.Pow10(n) == (mnt / 10) / D.Pow10(n - 1)
  {
    var p := D.Pow10(n - 1);
    var q := mnt / (10 * p);
    var r := mnt % (10 * p);
    assert mnt == 10 * (p * q) + r;
    if mnt % 10 == 0 {
      var s := r / 10;
      assert r == 10 * s && 0 <= s < p;
      assert mnt / 10 == p * q + s;
      DivMod(mnt / 10, p, q, s);
    }
  }

  lemma DivMod(a: int, p: int, q: int, s: int)
    requires p > 0 && 0 <= s < p && a == p * q + s
    ensures a / p == q && a % p == s
  {
    var d := a / p - q;
    assert a == p * (a / p) + a % p;
    assert p * d == s - a % p;
    Multiples(p, d);
  }

  lemma Multiples(p: int, d: int)
    requires p > 0
    ensures d >= 1 ==> p * d >= p
    ensures d <= -1 ==> p * d <= -p
  {
  }

  /** price_align */
  method PriceAlign(price: Decimal, tick: int) returns (mnt: Option<int>)
    ensures mnt == Aligned(price, tick)
    ensures forall m :: mnt == Some(m) <==> SameNumber(price, Decimal(tick, m))
  {
    hide SameNumber;
    forall m ensures Aligned(price, tick) == Some(m) <==> SameNumber(price, Decimal(tick, m)) {
      AlignedIsSame(price, tick, m);
    }
    var exp, m := price.exp, price.mnt;
    if exp > tick {
      while exp > tick
        invariant tick <= exp <= price.exp
        invariant m * D.Pow10(exp - tick) == price.mnt * D.Pow10(price.exp - tick)
      {
        m := m * 10;
        exp := exp - 1;
      }
    } else {
      while exp < tick
        invariant price.exp <= exp <= tick
        invariant Aligned(Decimal(exp, m), tick) == Aligned(price, tick)
      {
        DivideOnce(m, tick - exp);
        if m % 10 != 0 {
          return None;
        }
        m := m / 10;
        exp := exp + 1;
      }
    }
    return Some(m);
  }

  // ----- one book -------------------------------------------------------------------------

  class Book {
    const id: BookId
    var bids: Side
    var asks: Side
    var rptSeq: nat
    var snpSeq: nat
    var active: bool
    var join: bool
    var empty: bool
    ghost var Repr: set<object>

    ghost predicate Valid()
      reads this, Repr
      ensures Valid() ==> this in Repr
    {
      && this in Repr
      && bids in Repr && asks in Repr && bids.Repr <= Repr && asks.Repr <= Repr
      && this !in bids.Repr && this !in asks.Repr && bids.Repr !! asks.Repr
      && bids.Valid() && asks.Valid()
    }

    ghost function State(): BookState
      reads this, Repr
      requires Valid()
    {
      BookState(id, Sides(bids.Contents(), asks.Contents()), rptSeq, snpSeq, active, join, empty)
    }

    /** fast_book_add */
    constructor (id: BookId)
      ensures Valid() && fresh(Repr)
      ensures State() == BookState(id, Sides(map[], map[]), 0, 0, false, false, false)
    {
      this.id := id;
      bids := new Side();
      asks := new Side();
      rptSeq, snpSeq, active, join, empty := 0, 0, false, false, false;
      new;
      Repr := {this} + bids.Repr + asks.Repr;
    }

    /** fast_book_clear */
    method Clear()
      requires Valid()
      modifies Repr
      ensures Valid() && fresh(Repr - old(Repr))
      ensures State() == old(State()).(sides := Sides(map[], map[]), rptSeq := 0, snpSeq := 0)
    {
      hide Agree;
      bids := new Side();
      asks := new Side();
      rptSeq, snpSeq := 0, 0;
      Repr := {this} + bids.Repr + asks.Repr;
    }

    method ModifyBids(o: LevelBook.Order) returns (ok: bool)
      requires Valid()
      modifies Repr
      ensures Valid() && fresh(Repr - old(Repr))
      ensures ok == Modified(old(State()).sides.bids, o).Some?
      ensures State() == old(State()).(sides := Sides(if ok then Modified(old(State()).sides.bids, o).value
                                                      else old(State()).sides.bids, old(State()).sides.asks))
    {
      hide Agree;
      ok := bids.Modify(o);
      Repr := Repr + bids.Repr;
    }

    method ModifyAsks(o: LevelBook.Order) returns (ok: bool)
      requires Valid()
      modifies Repr
      ensures Valid() && fresh(Repr - old(Repr))
      ensures ok == Modified(old(State()).sides.asks, o).Some?
      ensures State() == old(State()).(sides := Sides(old(State()).sides.bids,
                                                      if ok then Modified(old(State()).sides.asks, o).value
                                                      else old(State()).sides.asks))
    {
      hide Agree;
      ok := asks.Modify(o);
      Repr := Repr + asks.Repr;
    }

    /** ob_level_modify */
    method ModifyLevel(o: LevelBook.Order) returns (ok: bool)
      requires Valid()
      modifies Repr
      ensures Valid() && fresh(Repr - old(Repr))
      ensures Applied(ok, State()) == BookSpec.Modify(old(State()), o)
    {
      if o.buy {
        ok := ModifyBids(o);
      } else {
        ok := ModifyAsks(o);
      }
    }

    /** ob_level_delete */
    method DeleteLevel(o: LevelBook.Order) returns (ok: bool)
      requires Valid()
      modifies Repr
      ensures Valid() && Repr == old(Repr)
      ensures ok && State() == BookSpec.Delete(old(State()), o)
    {
      if o.buy {
        ok := bids.Delete(o.price);
      } else {
        ok := asks.Delete(o.price);
      }
    }

    /** The checks md_increment and md_snapshot share. */
    method ReadEntry(e: MdEntry, seqNum: nat) returns (r: Reading)
      ensures r == Read(e, id.tick, seqNum)
    {
      if !e.entryType.Value? {
        return Bad;
      }
      var buy := e.entryType.v == '0';
      if !buy && e.entryType.v != '1' {
        return if e.entryType.v == 'J' then EmptyMark else Bad;
      }
      if !e.size.Value? {
        return Bad;
      }
      var size: Option<int>;
      match e.size.v {
        case IntSize(n) => size := Some(n);
        case DecimalSize(d) => size := DecimalToInt(d);
        case OtherSize => size := None;
      }
      if size.None? || !e.price.Value? {
        return Bad;
      }
      var mnt := PriceAlign(e.price.v, id.tick);
      if mnt.None? {
        return Bad;
      }
      return Reading.Order(LevelBook.Order(seqNum, mnt.value % U64, size.value % U64, buy));
    }

    /** md_increment */
    method MdIncrement(e: MdEntry) returns (ok: bool)
      requires Valid()
      modifies Repr
      ensures Valid() && fresh(Repr - old(Repr))
      ensures Applied(ok, State()) == Incremented(old(State()), e)
    {
      var r := ReadEntry(e, rptSeq);
      match r
      case Bad => return false;
      case EmptyMark =>
        empty := true;
        return true;
      case Order(o) =>
        if !e.action.Value? {
          return false;
        }
        if e.action.v == 0 {
          ok := ModifyLevel(o);
        } else if e.action.v == 1 {
          ok := ModifyLevel(o);
        } else if e.action.v == 2 {
          if active {
            ok := DeleteLevel(o);
          } else {
            ok := ModifyLevel(o.(size := 0));
          }
        } else {
          return false;
        }
    }

    /** md_snapshot */
    method MdSnapshot(e: MdEntry) returns (ok: bool)
      requires Valid()
      modifies Repr
      ensures Valid() && fresh(Repr - old(Repr))
      ensures Applied(ok, State()) == Snapshotted(old(State()), e)
    {
      var r := ReadEntry(e, snpSeq);
      match r
      case Bad => return false;
      case EmptyMark =>
        empty := true;
        return true;
      case Order(o) =>
        var level := if o.buy then FindLevel(bids, o.price) else FindLevel(asks, o.price);
        if level.None? {
          ok := ModifyLevel(o);
        } else if level.value.seqNum <= snpSeq {
          return level.value.size == o.size;
        } else {
          return true;
        }
    }

    function FindLevel(side: Side, price: nat): (r: Option<Entry>)
      reads side, side.Repr
      requires side.Valid()
      ensures r == if KeyOf(price) in side.Contents() then Some(side.Contents()[KeyOf(price)]) else None
    {
      if KeyOf(price) in side.hash then Some(side.hash[KeyOf(price)].Value()) else None
    }

    /** The part of apply_increment that follows the choice of the book. */
    method Accept(e: MdEntry) returns (ok: bool)
      requires Valid()
      modifies Repr
      ensures Valid() && fresh(Repr - old(Repr))
      ensures Applied(ok, State()) == BookSpec.Accept(old(State()), e)
    {
      if e.session != Absent {
        if e.session.Empty? {
          return false;
        }
        if !(id.session <= e.session.v) {
          return true;
        }
      }
      if !e.rptSeq.Value? {
        return false;
      }
      var expected := CountUp(e.rptSeq.v);
      if !expected {
        return false;
      }
      ok := MdIncrement(e);
    }

    /** The step of RptSeq in apply_increment. */
    method CountUp(n: nat) returns (expected: bool)
      requires Valid()
      modifies this`rptSeq, this`empty
      ensures Valid()
      ensures State() == old(State()).(rptSeq := rptSeq, empty := empty)
      ensures rptSeq == ((if old(rptSeq) == 0 then (n + U64 - 1) % U64 else old(rptSeq)) + 1) % U64
      ensures expected == (rptSeq == n) && empty == (old(empty) && !expected)
    {
      if rptSeq == 0 {
        rptSeq := (n + U64 - 1) % U64;
      }
      rptSeq := (rptSeq + 1) % U64;
      if rptSeq != n {
        return false;
      }
      empty := false;
      return true;
    }

    /** The part of apply_snapshot that follows the choice of the book. */
    method MergeSnapshot(snap: Snapshot) returns (ok: bool)
      requires Valid()
      modifies Repr
      ensures Valid() && fresh(Repr - old(Repr))
      ensures Applied(ok, State()) == BookSpec.MergeSnapshot(old(State()), snap)
    {
      if !snap.entries.Value? {
        return false;
      }
      var es := snap.entries.v;
      if es == [] {
        return true;
      }
      var session := es[|es| - 1].session;
      if session != Absent {
        if session.Empty? {
          return false;
        }
        if !(id.session <= session.v) {
          return true;
        }
      }
      if !snap.rptSeq.Value? {
        return false;
      }
      StartMerge(snap.rptSeq.v);
      ok := MergeAll(es);
      if !ok {
        return;
      }
      if !empty {
        SetFlags(true, join);
      }
    }

    method StartMerge(n: nat)
      requires Valid()
      modifies this`snpSeq, this`empty
      ensures Valid() && State() == old(State()).(snpSeq := n, empty := false)
    {
      snpSeq, empty := n, false;
    }

    /** The loop of apply_snapshot. */
    method MergeAll(es: seq<MdEntry>) returns (ok: bool)
      requires Valid()
      modifies Repr
      ensures Valid() && fresh(Repr - old(Repr))
      ensures Applied(ok, State()) == MergeEntries(old(State()), es)
    {
      ghost var start := State();
      var i := 0;
      while i < |es|
        invariant i <= |es|
        invariant Valid() && fresh(Repr - old(Repr))
        invariant Applied(true, State()) == MergeEntries(start, es[..i])
      {
        assert es[..i + 1][..i] == es[..i];
        ok := MdSnapshot(es[i]);
        i := i + 1;
        if !ok {
          MergeStopsAtFailure(start, es, i);
          return;
        }
      }
      assert es[..i] == es;
      return true;
    }

    /** The sweeps at the end of fast_books_join. */
    method Sweep() returns (ok: bool)
      requires Valid()
      modifies Repr
      ensures Valid() && Repr == old(Repr)
      ensures ok && State() == Swept(old(State()))
    {
      ok := SweepAsks();
      if !ok {
        return;
      }
      ok := SweepBids();
      if !ok {
        return;
      }
      SetFlags(active, false);
    }

    method SetFlags(active: bool, join: bool)
      requires Valid()
      modifies this`active, this`join
      ensures Valid() && State() == old(State()).(active := active, join := join)
    {
      this.active, this.join := active, join;
    }

    method SweepAsks() returns (ok: bool)
      requires Valid()
      modifies Repr
      ensures Valid() && Repr == old(Repr)
      ensures ok && State() == old(State()).(sides := Sides(old(State()).sides.bids, Live(old(State()).sides.asks)))
    {
      ok := asks.Sweep();
    }

    method SweepBids() returns (ok: bool)
      requires Valid()
      modifies Repr
      ensures Valid() && Repr == old(Repr)
      ensures ok && State() == old(State()).(sides := Sides(Live(old(State()).sides.bids), old(State()).sides.asks))
    {
      ok := bids.Sweep();
    }
  }

  lemma {:induction false} MergeStopsAtFailure(b: BookState, es: seq<MdEntry>, i: nat)
    requires i <= |es| && !MergeEntries(b, es[..i]).ok
    ensures MergeEntries(b, es) == MergeEntries(b, es[..i])
    decreases |es| - i
  {
    if i == |es| {
      assert es[..i] == es;
    } else {
      assert es[..i + 1][..i] == es[..i];
      MergeStopsAtFailure(b, es, i + 1);
    }
  }

  // ----- the set of books -----------------------------------------------------------------

  class BookSet {
    var books: seq<Book>
    ghost var Repr: set<object>

    ghost predicate Valid()
      reads this, Repr
      ensures Valid() ==> this in Repr
    {
      && this in Repr
      && (forall i | 0 <= i < |books| :: books[i] in Repr && books[i].Repr <= Repr && this !in books[i].Repr)
      && (forall i | 0 <= i < |books| :: books[i].Valid())
      && (forall i, j | 0 <= i < j < |books| :: books[i].Repr !! books[j].Repr)
    }

    ghost function Contents(): (r: Books)
      reads this, Repr
      requires Valid()
      ensures |r| == |books| && forall i | 0 <= i < |books| :: r[i] == books[i].State()
    {
      seq(|books|, i requires 0 <= i < |books| reads this, Repr requires Valid() => books[i].State())
    }

    /** An update of book `i` alone leaves the set valid and every other book as it was. */
    twostate lemma OthersStay(i: nat)
      requires old(Valid()) && books == old(books) && i < |books|
      requires forall o | o in old(Repr) && o != this && o !in old(books[i].Repr) :: unchanged(o)
      requires books[i].Valid() && Repr == old(Repr) + books[i].Repr
      requires forall o | o in books[i].Repr && o !in old(books[i].Repr) :: fresh(o)
      ensures Valid() && Contents() == old(Contents())[i := books[i].State()]
    {
      forall j | 0 <= j < |books| && j != i
        ensures books[j].Valid() && books[j].Repr == old(books[j].Repr) && books[j].State() == old(books[j].State())
        ensures books[j].Repr !! books[i].Repr
      {
        assert books[j].Repr !! old(books[i].Repr);
      }
    }

    constructor ()
      ensures Valid() && fresh(Repr) && Contents() == []
    {
      books := [];
      Repr := {this};
    }

    /** fast_book_add */
    method AddBook(id: BookId)
      requires Valid()
      modifies this
      ensures Valid() && fresh(Repr - old(Repr))
      ensures Contents() == old(Contents()) + [BookState(id, Sides(map[], map[]), 0, 0, false, false, false)]
    {
      hide Book.State, Book.Valid;
      var b := new Book(id);
      books := books + [b];
      Repr := Repr + b.Repr;
      forall j | 0 <= j < |books| - 1
        ensures books[j].Valid() && books[j].Repr == old(books[j].Repr) && books[j].State() == old(books[j].State())
        ensures books[j].Repr !! b.Repr
      {
        assert books[j] == old(books)[j];
      }
    }

    /** fast_book_by_id, fast_book_by_symbol and the checks around them */
    method Find(securityId: Field<nat>, symbol: Field<string>) returns (t: BookSpec.Target)
      requires Valid()
      ensures t == Locate(Contents(), securityId, symbol)
    {
      if securityId.Empty? || (securityId.Absent? && !symbol.Value?) {
        return BadTarget;
      }
      var i := 0;
      ghost var all := Contents();
      while i < |books|
        invariant i <= |books|
        invariant Locate(all, securityId, symbol) == Shifted(Locate(all[i..], securityId, symbol), i)
      {
        assert all[i..][1..] == all[i + 1..];
        if if securityId.Value? then books[i].id.securityId == securityId.v else books[i].id.symbol <= symbol.v {
          return Target(i);
        }
        i := i + 1;
      }
      return NoTarget;
    }

    /** One entry of apply_increment. */
    method ApplyEntry(e: MdEntry) returns (ok: bool)
      requires Valid()
      modifies Repr
      ensures Valid() && fresh(Repr - old(Repr))
      ensures BookSpec.Outcome(ok, Contents()) == BookSpec.ApplyEntry(old(Contents()), e)
    {
      var t := Find(e.securityId, e.symbol);
      match t
      case BadTarget => return false;
      case NoTarget => return true;
      case Target(i) =>
        if !books[i].active && !books[i].join {
          return true;
        }
        ok := AcceptAt(i, e);
    }

    /** apply_increment */
    method ApplyIncrement(msg: Increment) returns (ok: bool)
      requires Valid()
      modifies Repr
      ensures Valid() && fresh(Repr - old(Repr))
      ensures BookSpec.Outcome(ok, Contents()) == BookSpec.ApplyIncrement(old(Contents()), msg)
    {
      if !msg.entries.Value? {
        return false;
      }
      ghost var start := Contents();
      var es, i := msg.entries.v, 0;
      while i < |es|
        invariant i <= |es|
        invariant Valid() && fresh(Repr - old(Repr))
        invariant BookSpec.Outcome(true, Contents()) == ApplyEntries(start, es[..i])
      {
        assert es[..i + 1][..i] == es[..i];
        ok := ApplyEntry(es[i]);
        i := i + 1;
        if !ok {
          EntriesStopAtFailure(start, es, i);
          return;
        }
      }
      assert es[..i] == es;
      return true;
    }

    /** apply_snapshot for the book `t` */
    method ApplySnapshot(t: nat, snap: Snapshot) returns (ok: bool)
      requires Valid() && t < |books|
      modifies Repr
      ensures Valid() && fresh(Repr - old(Repr)) && books == old(books)
      ensures BookSpec.Outcome(ok, Contents()) == BookSpec.ApplySnapshot(old(Contents()), t, snap)
    {
      var l := Find(snap.securityId, snap.symbol);
      match l
      case BadTarget => return false;
      case NoTarget => return true;
      case Target(i) =>
        if books[i].active || !books[i].join {
          return true;
        }
        if snap.securityId.Value? {
          if books[t].id.securityId != books[i].id.securityId {
            return true;
          }
        } else if !(books[t].id.symbol <= books[i].id.symbol) {
          return true;
        }
        ok := MergeAt(i, snap);
    }

    method MergeAt(i: nat, snap: Snapshot) returns (ok: bool)
      requires Valid() && i < |books|
      modifies Repr
      ensures Valid() && fresh(Repr - old(Repr)) && books == old(books)
      ensures ok == MergeSnapshot(old(Contents())[i], snap).ok
      ensures Contents() == old(Contents())[i := MergeSnapshot(old(Contents())[i], snap).book]
    {
      var book := books[i];
      ok := book.MergeSnapshot(snap);
      Repr := Repr + book.Repr;
      OthersStay(i);
    }

    method SetFlagsAt(i: nat, active: bool, join: bool)
      requires Valid() && i < |books|
      modifies Repr
      ensures Valid() && Repr == old(Repr) && books == old(books)
      ensures Contents() == old(Contents())[i := old(Contents())[i].(active := active, join := join)]
    {
      books[i].SetFlags(active, join);
      OthersStay(i);
    }

    method SweepAt(i: nat) returns (ok: bool)
      requires Valid() && i < |books|
      modifies Repr
      ensures Valid() && Repr == old(Repr) && books == old(books)
      ensures ok && Contents() == old(Contents())[i := Swept(old(Contents())[i])]
    {
      ok := books[i].Sweep();
      OthersStay(i);
    }

    /** The snapshot's book is looked up again in the join loop. */
    method IsSnapshotOf(t: nat, snap: Snapshot) returns (ours: Option<bool>)
      requires Valid() && t < |books|
      ensures ours == SnapshotOf(Contents(), t, snap)
    {
      var l := Find(snap.securityId, snap.symbol);
      match l
      case BadTarget => return None;
      case NoTarget => return Some(false);
      case Target(i) =>
        return Some(if snap.securityId.Value? then books[i].id.securityId == books[t].id.securityId
                    else books[i].id.symbol == books[t].id.symbol);
    }

    /** The first part of a turn of the join loop. */
    method TakeIncrement(inc: Poll<Increment>, init: nat, cur: nat, ghost j: Joining)
        returns (ok: bool, init': nat, cur': nat)
      requires Valid() && j.books == Contents() && j.init == init && j.cur == cur
      modifies Repr
      ensures Valid() && fresh(Repr - old(Repr)) && |books| == |old(books)|
      ensures BookSpec.TakeIncrement(j, inc)
           == if ok then More(j.(books := Contents(), init := init', cur := cur')) else Done(false, Contents(), cur)
    {
      init', cur' := init, cur;
      match inc
      case Failed => return false, init, cur;
      case Nothing => return true, init, cur;
      case Got(msg) =>
        ok := ApplyIncrement(msg);
        assert |Contents()| == |old(Contents())|;
        if ok {
          cur' := msg.msgSeqNum;
          if init == 0 {
            init' := cur';
          }
        }
    }

    /** The last part of a turn of the join loop. */
    method UseSnapshot(t: nat, init: nat, cur: nat, snpReceived: bool, snap: Snapshot, ghost j: Joining)
        returns (ok: bool, snpReceived': bool)
      requires Valid() && t < |books|
      requires j == Joining(Contents(), init, cur, snpReceived, Some(snap))
      modifies Repr
      ensures Valid() && fresh(Repr - old(Repr)) && books == old(books)
      ensures BookSpec.UseSnapshot(j, t)
           == if ok then More(j.(books := Contents(), snpReceived := snpReceived')) else Done(false, Contents(), cur)
    {
      snpReceived' := snpReceived;
      var ours := IsSnapshotOf(t, snap);
      if ours.None? {
        return false, snpReceived;
      }
      if !ours.value {
        return true, snpReceived;
      }
      if !snap.lastMsgSeqNum.Value? {
        return false, snpReceived;
      }
      var last := snap.lastMsgSeqNum.v;
      if init == 0 || last < init {
        return true, snpReceived;
      }
      snpReceived' := true;
      if last > cur {
        return true, snpReceived';
      }
      ok := ApplySnapshot(t, snap);
      if ok && books[t].empty {
        snpReceived' := false;
      }
    }

    /** fast_books_join for the book `t`, fed with what the feeds deliver turn by turn; waiting means the turns ran
        out. */
    method Join(t: nat, turns: seq<Turn>) returns (ok: bool, waiting: bool)
      requires Valid() && t < |books|
      modifies Repr
      ensures Valid() && fresh(Repr - old(Repr))
      ensures match JoinRun(JoinStart(old(Contents()), t), t, turns)
        case Done(good, after, _) => !waiting && ok == good && Contents() == after
        case More(j) => waiting && Contents() == j.books
    {
      SetFlagsAt(t, false, true);
      var init, cur, snpReceived, snap: Option<Snapshot> := 0, 0, false, None;
      var i := 0;
      ghost var start := JoinStart(old(Contents()), t);
      while !books[t].active
        invariant Valid() && fresh(Repr - old(Repr)) && t < |books| && i <= |turns|
        invariant JoinRun(start, t, turns) == JoinRun(Joining(Contents(), init, cur, snpReceived, snap), t, turns[i..])
        decreases |turns| - i
      {
        if i == |turns| {
          return false, true;
        }
        ok, init, cur, snpReceived, snap := JoinStep(t, turns[i], init, cur, snpReceived, snap);
        assert turns[i..][1..] == turns[i + 1..];
        i := i + 1;
        if !ok {
          return false, false;
        }
      }
      ok := SweepAt(t);
      return ok, false;
    }

    /** One turn of the join loop. */
    method JoinStep(t: nat, turn: Turn, init: nat, cur: nat, snpReceived: bool, snap: Option<Snapshot>)
        returns (ok: bool, init': nat, cur': nat, snpReceived': bool, snap': Option<Snapshot>)
      requires Valid() && t < |books|
      modifies Repr
      ensures Valid() && fresh(Repr - old(Repr)) && |books| == |old(books)|
      ensures match JoinTurn(Joining(old(Contents()), init, cur, snpReceived, snap), t, turn)
        case Done(good, after, _) => !ok && !good && Contents() == after
        case More(j) => ok && j == Joining(Contents(), init', cur', snpReceived', snap')
    {
      ghost var j := Joining(Contents(), init, cur, snpReceived, snap);
      snpReceived', snap' := snpReceived, snap;
      ok, init', cur' := TakeIncrement(turn.inc, init, cur, j);
      if !ok {
        return;
      }
      if !snpReceived {
        if turn.snp.Failed? {
          return false, init', cur', snpReceived', snap';
        }
        snap' := if turn.snp.Got? then Some(turn.snp.msg) else None;
      }
      if snap'.Some? {
        ok, snpReceived' := UseSnapshot(t, init', cur', snpReceived, snap'.value,
                                        Joining(Contents(), init', cur', snpReceived, snap'));
      }
    }

    method AcceptAt(i: nat, e: MdEntry) returns (ok: bool)
      requires Valid() && i < |books|
      modifies Repr
      ensures Valid() && fresh(Repr - old(Repr)) && books == old(books)
      ensures ok == Accept(old(Contents())[i], e).ok
      ensures Contents() == old(Contents())[i := Accept(old(Contents())[i], e).book]
    {
      var book := books[i];
      ok := book.Accept(e);
      Repr := Repr + book.Repr;
      OthersStay(i);
    }
  }

  lemma {:induction false} EntriesStopAtFailure(books: Books, es: seq<MdEntry>, i: nat)
    requires i <= |es| && !ApplyEntries(books, es[..i]).ok
    ensures ApplyEntries(books, es) == ApplyEntries(books, es[..i])
    decreases |es| - i
  {
    if i == |es| {
      assert es[..i] == es;
    } else {
      assert es[..i + 1][..i] == es[..i];
      EntriesStopAtFailure(books, es, i + 1);
    }
  }

  function Shifted(t: BookSpec.Target, n: nat): BookSpec.Target {
    if t.Target? then Target(t.i + n) else t
  }
}
