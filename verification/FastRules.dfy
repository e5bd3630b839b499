/** The field operators of FAST as section 6.3 of FAST 1.1 tells them, against what the decoder does: fields that
    are not on the wire, decimals and differences of strings. */
module FastRules {
  import opened Wrappers
  import opened Digits
  import opened StopBit
  import opened PresenceMap
  import opened FastField
  import E = FieldEncoder
  import opened FastFlat

  // ----- the bytes of a number, a string or a map -----------------------------------------

  /** The bytes from `p` to `q` have no stop bit. */
  ghost predicate Plainly(d: seq<byte>, p: nat, q: nat) {
    p <= q <= |d| && forall i | p <= i < q :: d[i] < 128
  }

  /** The first byte with a stop bit is that at `q`. */
  ghost predicate StopsAt(d: seq<byte>, p: nat, q: nat) {
    q < |d| && d[q] >= 128 && Plainly(d, p, q)
  }

  /** A read of at most `room` bytes: done at the stop bit, short if the bytes end before, bad if the room does. */
  ghost predicate ReadWithin<T>(r: Read<T>, d: seq<byte>, p: nat, room: nat)
    requires p <= |d|
  {
    && (r.Got? <==> exists q: nat :: q < p + room && StopsAt(d, p, q))
    && (r.Got? ==> p < r.next && StopsAt(d, p, r.next - 1))
    && (r.Short? <==> |d| < p + room && Plainly(d, p, |d|))
    && (r.Bad? <==> Plainly(d, p, p + room))
  }

  /** One byte without a stop bit, and the rest. */
  lemma ReadOn<T>(r: Read<T>, d: seq<byte>, p: nat, room: nat)
    requires p < |d| && d[p] < 128 && room > 0 && ReadWithin(r, d, p + 1, room - 1)
    ensures ReadWithin(r, d, p, room)
  {
    forall q: nat ensures StopsAt(d, p, q) <==> StopsAt(d, p + 1, q) {
      assert q == p ==> !StopsAt(d, p, q);
    }
    if q: nat :| q < p + room && StopsAt(d, p, q) {
      assert StopsAt(d, p + 1, q);
    }
    if r.Got? {
      assert StopsAt(d, p, r.next - 1);
    }
  }

  /** No byte, a stop bit at once, or no room. */
  lemma ReadEnds<T>(r: Read<T>, d: seq<byte>, p: nat, room: nat)
    requires p <= |d|
    requires if room == 0 then r.Bad? else if p == |d| then r.Short? else d[p] >= 128 && r.Got? && r.next == p + 1
    ensures ReadWithin(r, d, p, room)
  {
    if r.Got? {
      assert StopsAt(d, p, p);
    }
  }

  lemma {:induction false} UintReads(d: seq<byte>, p: nat, i: nat, acc: nat)
    requires p <= |d| && i <= 9
    ensures ReadWithin(UintFrom(d, p, i, acc), d, p, 9 - i)
    decreases 9 - i
  {
    assert UintFrom(d, p, i, acc) == UintRound(d, p, i, acc);
    if i < 9 && p < |d| && d[p] < 128 {
      UintReads(d, p + 1, i + 1, acc * 128 + d[p]);
      ReadOn(UintFrom(d, p, i, acc), d, p, 9 - i);
    } else {
      ReadEnds(UintFrom(d, p, i, acc), d, p, 9 - i);
    }
  }

  lemma {:induction false} IntReads(d: seq<byte>, p: nat, i: nat, acc: int)
    requires p <= |d| && i <= 10
    ensures ReadWithin(IntFrom(d, p, i, acc), d, p, 10 - i)
    decreases 10 - i
  {
    assert IntFrom(d, p, i, acc) == IntRound(d, p, i, acc);
    if i < 10 && p < |d| && d[p] < 128 {
      IntReads(d, p + 1, i + 1, Wrap(acc * 128 + d[p]));
      ReadOn(IntFrom(d, p, i, acc), d, p, 10 - i);
    } else {
      ReadEnds(IntFrom(d, p, i, acc), d, p, 10 - i);
    }
  }

  lemma {:induction false} MapReadsWithin(d: seq<byte>, p: nat, read: seq<byte>)
    requires p <= |d| && |read| <= 8
    ensures ReadWithin(MapFrom(d, p, read), d, p, 8 - |read|)
    decreases 8 - |read|
  {
    assert MapFrom(d, p, read) == MapRound(d, p, read);
    if |read| < 8 && p < |d| && d[p] < 128 {
      MapReadsWithin(d, p + 1, read + [d[p]]);
      ReadOn(MapFrom(d, p, read), d, p, 8 - |read|);
    } else {
      ReadEnds(MapFrom(d, p, read), d, p, 8 - |read|);
    }
  }

  function AsRead(t: Text): Read<seq<byte>> {
    match t
    case Whole(s, n) => Got(s, n)
    case Cut(_) => Short
    case Long => Bad
  }

  lemma {:induction false} TextReads(d: seq<byte>, p: nat, room: nat, read: seq<byte>)
    requires p <= |d|
    ensures ReadWithin(AsRead(TextFrom(d, p, room, read)), d, p, room)
    decreases room
  {
    assert TextFrom(d, p, room, read) == TextRound(d, p, room, read);
    if room > 0 && p < |d| && d[p] < 128 {
      TextReads(d, p + 1, room - 1, read + [d[p]]);
      ReadOn(AsRead(TextFrom(d, p, room, read)), d, p, room);
    } else {
      ReadEnds(AsRead(TextFrom(d, p, room, read)), d, p, room);
    }
  }

  /** Everything on the wire ends with the first stop bit: unsigned numbers within nine bytes, signed ones within
      ten, maps within eight, strings within 255 and the characters of a difference within 31. */
  lemma StopBitEnds(d: seq<byte>, p: nat)
    requires p <= |d|
    ensures ReadWithin(UintAt(d, p), d, p, 9) && ReadWithin(IntAt(d, p), d, p, 10) && ReadWithin(MapAt(d, p), d, p, 8)
    ensures ReadWithin(AsRead(TextFrom(d, p, STRING_ROOM, [])), d, p, 255)
    ensures ReadWithin(AsRead(TextFrom(d, p, DELTA_ROOM, [])), d, p, 31)
  {
    UintReads(d, p, 0, 0);
    if p < |d| {
      IntReads(d, p, 0, SignOf(d[p]));
    } else {
      ReadEnds(IntAt(d, p), d, p, 10);
    }
    MapReadsWithin(d, p, []);
    TextReads(d, p, STRING_ROOM, []);
    TextReads(d, p, DELTA_ROOM, []);
  }

  // ----- what the bytes of a number denote ------------------------------------------------

  /** Seven bits of each byte, the first ones the highest. */
  function Septets(s: seq<byte>): nat {
    if s == [] then 0 else 128 * Septets(s[..|s| - 1]) + s[|s| - 1] % 128
  }

  lemma OneMore(s: seq<byte>, b: byte)
    ensures Septets(s + [b]) == 128 * Septets(s) + b % 128
  {
    assert (s + [b])[..|s|] == s;
  }

  lemma {:induction false} UintDenotes(d: seq<byte>, start: nat, p: nat, i: nat, acc: nat)
    requires start <= p <= |d| && i <= 9 && acc == Septets(d[start..p])
    ensures var r := UintFrom(d, p, i, acc); r.Got? ==> r.value == Septets(d[start..r.next])
    decreases 9 - i
  {
    hide Septets;
    assert UintFrom(d, p, i, acc) == UintRound(d, p, i, acc);
    if i < 9 && p < |d| {
      assert d[p] % 128 == if d[p] < 128 then d[p] else d[p] - 128;
      OneMore(d[start..p], d[p]);
      assert d[start..p] + [d[p]] == d[start..p + 1];
      if d[p] < 128 {
        UintDenotes(d, start, p + 1, i + 1, acc * 128 + d[p]);
      }
    }
  }

  /** Wrapping early or late is the same. */
  lemma WrapAgain(x: int, c: int)
    ensures Wrap(Wrap(x) * 128 + c) == Wrap(x * 128 + c)
  {
    var w: int := 0x1_0000_0000_0000_0000;
    var q := (x + 0x8000_0000_0000_0000) / w;
    assert Wrap(x) == x - q * w;
    assert (x * 128 + c) - (Wrap(x) * 128 + c) == 128 * q * w;
    WrapsTo(Wrap(x) * 128 + c, 128 * q);
  }

  lemma WrapsTo(x: int, q: int)
    ensures Wrap(x + q * 0x1_0000_0000_0000_0000) == Wrap(x)
  {
    var w: int := 0x1_0000_0000_0000_0000;
    var y, z := x + 0x8000_0000_0000_0000, x + q * w + 0x8000_0000_0000_0000;
    var k := z / w - y / w - q;
    assert k * w == y % w - z % w;
    assert Wrap(x) == y % w - 0x8000_0000_0000_0000;
    assert Wrap(x + q * w) == z % w - 0x8000_0000_0000_0000;
  }

  /** The value of so many signed bits. */
  function Complement(s: seq<byte>, negative: bool): int {
    Septets(s) - if negative then Pow128(|s|) else 0
  }

  lemma ComplementMore(s: seq<byte>, b: byte, negative: bool)
    ensures Complement(s + [b], negative) == 128 * Complement(s, negative) + b % 128
  {
    OneMore(s, b);
  }

  lemma {:induction false} IntDenotes(d: seq<byte>, start: nat, p: nat, i: nat, acc: int, negative: bool)
    requires start <= p <= |d| && i <= 10 && acc == Wrap(Complement(d[start..p], negative))
    ensures var r := IntFrom(d, p, i, acc); r.Got? ==> r.value == Wrap(Complement(d[start..r.next], negative))
    decreases 10 - i
  {
    hide Wrap, Complement;
    assert IntFrom(d, p, i, acc) == IntRound(d, p, i, acc);
    if i < 10 && p < |d| {
      ComplementMore(d[start..p], d[p], negative);
      assert d[start..p] + [d[p]] == d[start..p + 1];
      WrapAgain(Complement(d[start..p], negative), d[p] % 128);
      assert d[p] % 128 == if d[p] < 128 then d[p] else d[p] - 128;
      if d[p] < 128 {
        IntDenotes(d, start, p + 1, i + 1, Wrap(acc * 128 + d[p]), negative);
      }
    }
  }

  /** A number is the seven bits of its bytes in a row; the first of them is the sign of a signed one, whose value
      wraps at 64 bits. */
  lemma NumbersDenote(d: seq<byte>, p: nat)
    requires p <= |d|
    ensures UintAt(d, p).Got? ==> UintAt(d, p).value == Septets(d[p..UintAt(d, p).next])
    ensures IntAt(d, p).Got? ==>
      IntAt(d, p).value == Wrap(Complement(d[p..IntAt(d, p).next], d[p] / 64 % 2 == 1))
  {
    assert d[p..p] == [];
    UintDenotes(d, p, p, 0, 0);
    if p < |d| {
      assert SignOf(d[p]) == Complement([], d[p] / 64 % 2 == 1);
      IntDenotes(d, p, p, 0, SignOf(d[p]), d[p] / 64 % 2 == 1);
    }
  }

  /** A bit of the map: seven in each byte, the highest first. */
  lemma MapBitIs(bytes: seq<byte>, k: nat)
    ensures IsSet(bytes, k) <==> k / 7 < |bytes| && bytes[k / 7] / [64, 32, 16, 8, 4, 2, 1][k % 7] % 2 == 1
  {
    if k / 7 < |bytes| {
      BitIs(bytes[k / 7], 6 - k % 7);
      assert PresenceMap.Two(3) == 8 && PresenceMap.Two(2) == 4 && PresenceMap.Two(1) == 2 && PresenceMap.Two(0) == 1;
      assert PresenceMap.Two(6) == 8 * PresenceMap.Two(3) && PresenceMap.Two(5) == 4 * PresenceMap.Two(3)
             && PresenceMap.Two(4) == 2 * PresenceMap.Two(3);
    }
  }

  lemma {:induction false} BitIs(b: nat, n: nat)
    ensures BitAt(b, n) <==> b / PresenceMap.Two(n) % 2 == 1
  {
    if n > 0 {
      BitIs(b / 2, n - 1);
      HalfFirst(b, PresenceMap.Two(n - 1));
    } else {
      assert PresenceMap.Two(0) == 1;
    }
  }

  lemma HalfFirst(b: nat, m: nat)
    requires m > 0
    ensures b / 2 / m == b / (2 * m)
  {
    var q := b / (2 * m);
    var r := b - 2 * m * q;
    assert 0 <= r < 2 * m;
    assert b / 2 == m * q + r / 2;
    var k := b / 2 / m - q;
    assert m * k == r / 2 - b / 2 % m;
    assert k >= 1 ==> m * k >= m;
  }

  // ----- values that are on the wire ------------------------------------------------------

  /** A number: of an optional one, zero says that there is none, and others are one further from it if they are
      positive. */
  lemma NumberIsDecoded(leaf: Leaf, slot: Slot, d: seq<byte>, p: nat, raw: int, n: nat, v: int)
    requires p <= |d| && (leaf.kind == Int || leaf.kind == Uint) && Typed(leaf, slot)
    requires NumberAt(leaf.kind, d, p) == Got(raw, n)
    ensures Nullably(!leaf.mandatory, raw, v) ==> ReadValue(leaf, slot, d, p) == Done(Slot(Assigned, Num(v)), n)
    ensures !leaf.mandatory && raw == 0 ==> ReadValue(leaf, slot, d, p) == Done(Slot(Empty, Num(0)), n)
    ensures NumberAt(leaf.kind, d, p) == if leaf.kind == Int then IntAt(d, p) else UintAt(d, p)
  {
  }

  lemma WrapLess(k: Kind, x: int)
    ensures WrapKind(k, WrapKind(k, x) - 1) == WrapKind(k, x - 1)
  {
    var w: int := 0x1_0000_0000_0000_0000;
    if k != Uint {
      var q := (x + 0x8000_0000_0000_0000) / w;
      assert Wrap(x) == x - q * w;
      WrapsTo(Wrap(x) - 1, q);
    }
  }

  /** A difference of numbers, added to the previous value and wrapped at 64 bits; zero says that there is none. */
  lemma NumberDeltaIsDecoded(leaf: Leaf, slot: Slot, d: seq<byte>, p: nat, raw: int, n: nat, v: int)
    requires p <= |d| && (leaf.kind == Int || leaf.kind == Uint) && Typed(leaf, slot) && IntAt(d, p) == Got(raw, n)
    ensures Nullably(!leaf.mandatory, raw, v) ==>
      ReadDelta(leaf, slot, d, p) == Done(Slot(Assigned, Num(WrapKind(leaf.kind, slot.value.n + v))), n)
    ensures !leaf.mandatory && raw == 0 ==>
      ReadDelta(leaf, slot, d, p).Done? && ReadDelta(leaf, slot, d, p).slot.state == Empty
  {
    WrapLess(leaf.kind, slot.value.n + raw);
    hide IntAt, WrapKind;
  }

  /** The characters of a string are the seven bits of its bytes, and those of one that is cut all that have arrived. */
  lemma {:induction false} TextDenotes(d: seq<byte>, p: nat, room: nat, read: seq<byte>)
    requires p <= |d|
    ensures var r := TextFrom(d, p, room, read);
      && (r.Whole? ==> |r.s| == |read| + r.next - p && read <= r.s)
      && (r.Whole? ==> forall i | p <= i < r.next :: r.s[|read| + i - p] == d[i] % 128)
      && (r.Cut? ==> r.s == read + d[p..])
    decreases room
  {
    assert TextFrom(d, p, room, read) == TextRound(d, p, room, read);
    if room > 0 && p < |d| && d[p] < 128 {
      TextDenotes(d, p + 1, room - 1, read + [d[p]]);
    }
  }

  /** A string whose end has not arrived already covers the front of the one before it. */
  lemma CutStringCovers(leaf: Leaf, slot: Slot, d: seq<byte>, p: nat)
    requires p <= |d| && leaf.kind == Ascii && Typed(leaf, slot) && TextFrom(d, p, STRING_ROOM, []).Cut?
    ensures var was, r := slot.value.s, ReadValue(leaf, slot, d, p);
      && r.Wait? && r.slot.state == slot.state && r.slot.value.Str?
      && r.slot.value.s == if |d| - p < |was| then d[p..] + was[|d| - p..] else d[p..]
  {
    TextDenotes(d, p, STRING_ROOM, []);
    assert [] + d[p..] == d[p..];
  }

  /** The first difference in a session is one to the initial value, or to zero without one (section 6.3.7.1 of
      FAST 1.1). */
  lemma FirstDeltaIsToInitial(leaf: Leaf, bit: bool, d: seq<byte>, p: nat, raw: int, n: nat, v: int)
    requires p <= |d| && leaf.op == Delta && (leaf.kind == Int || leaf.kind == Uint) && Fits(leaf.reset, leaf.kind)
    requires IntAt(d, p) == Got(raw, n) && Nullably(!leaf.mandatory, raw, v)
    ensures DecodeLeaf(leaf, Loaded(leaf), bit, d, p) ==
      Done(Slot(Assigned, Num(WrapKind(leaf.kind, if leaf.hasReset then leaf.reset.n + v else v))), n)
  {
    hide IntAt, WrapKind;
    NumberDeltaIsDecoded(leaf, Loaded(leaf), d, p, raw, n, v);
  }

  /** The same for strings and decimals, whose difference is one to what the dictionary holds. */
  lemma FirstValueIsInitial(leaf: Leaf)
    requires Fits(leaf.reset, leaf.kind) && (leaf.kind == Ascii || leaf.kind == Decimal)
    ensures Loaded(leaf).state == Undefined
    ensures leaf.hasReset ==> Loaded(leaf).value == leaf.reset
    ensures !leaf.hasReset ==> Loaded(leaf).value in {Str([]), Dec(0, 0)}
  {
  }

  /** A string; of an optional one, a zero alone says that there is none. */
  lemma StringIsDecoded(leaf: Leaf, slot: Slot, d: seq<byte>, p: nat, s: seq<byte>, n: nat)
    requires p <= |d| && leaf.kind == Ascii && Typed(leaf, slot) && TextFrom(d, p, STRING_ROOM, []) == Whole(s, n)
    ensures ReadValue(leaf, slot, d, p) == Done(Slot(if leaf.mandatory || s != [0] then Assigned else Empty, Str(s)), n)
  {
  }

  /** An individual decimal: an exponent that is none ends it, and is an error if the decimal has to be there; one
      beyond 63 is an error; else the mantissa follows, with the next bit of the map if its operator takes one. */
  lemma PairIsDecoded(f: Field, fs: FieldSlot, pmap: seq<byte>, bit: Bit, d: seq<byte>, p: nat, e: Slot, n: nat)
    requires p <= |d| && f.Pair? && TypedFlat(f, fs)
    requires DecodeLeaf(f.exp, fs.e, TakesBit(f.exp) && IsSet(pmap, bit + 1), d, p) == Done(e, n)
    ensures var r := DecodePair(f, fs, pmap, bit, d, p);
      var after := if TakesBit(f.exp) then bit + 1 else bit;
      if e.state == Empty then
        if f.mandatory then r.Broken? else r.Ready? && r.slot.state == Empty && r.bit == after && r.next == n
      else if e.value.n > 63 || e.value.n < -63 then r.Broken?
      else
        match DecodeLeaf(f.mnt, fs.m, TakesBit(f.mnt) && IsSet(pmap, after + 1), d, n)
        case Wait(_) => r.Later? && r.next == p
        case Garbled => r.Broken?
        case Done(m, q) =>
          && r == Ready(Two(Assigned, e.value.n, m.value.n, e, m), if TakesBit(f.mnt) then after + 1 else after, q)
  {
    hide DecodeLeaf, IsSet;
  }

  // ----- fields that are not on the wire --------------------------------------------------

  /** What a field is: none if that may be, a value, or an error. */
  datatype Result = NoValue | Value(v: FastField.Value) | Error

  /** The entry of a field in the dictionary. */
  datatype Entry = Unset | Null | Previous(v: FastField.Value)

  function EntryOf(slot: Slot): Entry {
    match slot.state
    case Undefined => Unset
    case Empty => Null
    case Assigned => Previous(slot.value)
  }

  /** None, if the field is optional. */
  function NoneIf(optional: bool): Result {
    if optional then NoValue else Error
  }

  /** The initial value of the template. */
  function InitialOf(optional: bool, initial: Option<FastField.Value>): Result {
    match initial
    case Some(v) => Value(v)
    case None => NoneIf(optional)
  }

  function Successor(k: Kind, v: FastField.Value): FastField.Value {
    match v
    case Num(n) =>
      if k == Uint then Num(if n + 1 == 0x1_0000_0000_0000_0000 then 0 else n + 1)
      else Num(if n + 1 == 0x8000_0000_0000_0000 then -0x8000_0000_0000_0000 else n + 1)
    case other => other
  }

  /** A field with a bit in the map that is not set: default has its initial value; copy and increment have the previous
      value or its successor, none if that was none, and the initial value if there is no previous one. */
  function NotSent(op: Op, k: Kind, optional: bool, initial: Option<FastField.Value>, entry: Entry): Result {
    if op == Default then InitialOf(optional, initial)
    else
      match entry
      case Unset => InitialOf(optional, initial)
      case Null => NoneIf(optional)
      case Previous(v) => Value(if op == Increment then Successor(k, v) else v)
  }

  predicate Means(r: Step<Slot>, x: Result) {
    match x
    case Error => r.Garbled?
    case NoValue => r.Done? && r.slot.state == Empty
    case Value(v) => r.Done? && r.slot.state == Assigned && r.slot.value == v
  }

  function InitialValue(leaf: Leaf): Option<FastField.Value> {
    if leaf.hasReset then Some(leaf.reset) else None
  }

  /** Without its bit a field is what the operator makes of the dictionary, and no byte is read. */
  lemma NotSentIsDecoded(leaf: Leaf, slot: Slot, d: seq<byte>, p: nat)
    requires p <= |d| && Typed(leaf, slot) && E.Held(leaf.kind, slot.value)
    requires leaf.op == Copy || leaf.op == Default || (leaf.op == Increment && (leaf.kind == Int || leaf.kind == Uint))
    ensures var r := DecodeLeaf(leaf, slot, false, d, p);
      && Means(r, NotSent(leaf.op, leaf.kind, !leaf.mandatory, InitialValue(leaf), EntryOf(slot)))
      && (r.Done? ==> r.next == p)
  {
  }

  /** The operators that take a bit of the map (section 6.3 of FAST 1.1), whatever the field turns out to be. */
  lemma BitIsTakenExactly(leaf: Leaf, slot: Slot, pmap: seq<byte>, bit: Bit, d: seq<byte>, p: nat)
    requires p <= |d| && Typed(leaf, slot)
    ensures var r := DecodeSingle(leaf, slot, pmap, bit, d, p);
      r.Ready? ==>
        r.bit == if leaf.op in {Copy, Increment, Default} || (leaf.op == Constant && !leaf.mandatory) then bit + 1
                 else bit
  {
    hide DecodeLeaf;
  }

  /** A constant is never on the wire; if it is optional its bit says whether it is there. */
  lemma ConstantIsDecoded(leaf: Leaf, slot: Slot, bit: bool, d: seq<byte>, p: nat)
    requires p <= |d| && Typed(leaf, slot) && leaf.op == Constant
    requires slot.state == Assigned ==> slot.value == leaf.reset
    ensures var r := DecodeLeaf(leaf, slot, bit, d, p);
      Means(r, if leaf.mandatory || bit then Value(leaf.reset) else NoValue) && r.Done? && r.next == p
  {
  }

  /** Increments of strings and of decimals are errors. */
  lemma OnlyNumbersIncrement(leaf: Leaf, slot: Slot, bit: bool, d: seq<byte>, p: nat)
    requires p <= |d| && Typed(leaf, slot) && leaf.op == Increment && (leaf.kind == Ascii || leaf.kind == Decimal)
    ensures DecodeLeaf(leaf, slot, bit, d, p).Garbled?
  {
  }

  // ----- decimals -------------------------------------------------------------------------

  /** The number on the wire, if it is not the one that means none, and what it means. */
  ghost predicate Nullably(optional: bool, raw: int, e: int) {
    if optional then raw != 0 && e == (if raw > 0 then raw - 1 else raw) else e == raw
  }

  /** A decimal whose exponent has arrived: an exponent beyond 63 in either direction is an error, whatever follows;
      else the mantissa follows, and both are added to the base. */
  lemma DecimalIsDecoded(leaf: Leaf, slot: Slot, base: FastField.Value, d: seq<byte>, p: nat, raw: int, n: nat, e: int)
    requires p <= |d| && base.Dec? && IntAt(d, p) == Got(raw, n) && Nullably(!leaf.mandatory, raw, e)
    ensures var r := ReadDecimal(leaf, slot, base, d, p);
      if base.exp + e < -63 || base.exp + e > 63 then r.Garbled?
      else
        match IntAt(d, n)
        case Short => r.Wait?
        case Bad => r.Garbled?
        case Got(m, q) =>
          r.Done? && r.next == q && r.slot.state == Assigned && r.slot.value == Dec(base.exp + e, Wrap(base.mnt + m))
  {
  }

  /** The exponent that means none. */
  lemma NoDecimal(leaf: Leaf, slot: Slot, base: FastField.Value, d: seq<byte>, p: nat, n: nat)
    requires p <= |d| && base.Dec? && IntAt(d, p) == Got(0, n) && !leaf.mandatory
    ensures var r := ReadDecimal(leaf, slot, base, d, p);
      r.Done? && r.next == n && r.slot.state == Empty && r.slot.value == slot.value
  {
  }

  // ----- differences of strings -----------------------------------------------------------

  /** `now` is `was` without `cut` characters at its end and with others in their place; if `cut` is negative, at
      its front without one less of them than it says. */
  ghost predicate Replaced(was: seq<byte>, cut: int, with: seq<byte>, now: seq<byte>) {
    exists kept, gone ::
      if cut >= 0 then was == kept + gone && |gone| == cut && now == kept + with
      else was == gone + kept && |gone| == -cut - 1 && now == with + kept
  }

  /** A difference of strings whose length has arrived, and its characters: an error exactly if the old string has fewer
      characters than are to go, or the new one would have more than 255. */
  lemma StringDeltaIsDecoded(leaf: Leaf, slot: Slot, d: seq<byte>, p: nat, raw: int, n: nat, cut: int, s: seq<byte>,
                             q: nat)
    requires p <= |d| && slot.value.Str? && IntAt(d, p) == Got(raw, n) && Nullably(!leaf.mandatory, raw, cut)
    requires TextFrom(d, n, DELTA_ROOM, []) == Whole(s, q)
    ensures var was, with, r := Chars(slot.value.s), Chars(s), DeltaString(leaf, slot, d, p);
      var gone := if cut >= 0 then cut else -cut - 1;
      if gone > |was| || |was| - gone + |with| > 255 then r.Garbled?
      else
        && r.Done? && r.next == q && r.slot.state == Assigned && r.slot.value.Str?
        && Replaced(was, cut, with, r.slot.value.s)
  {
    hide Replaced, Chars;
    var was, with := Chars(slot.value.s), Chars(s);
    if (if cut >= 0 then cut else -cut - 1) <= |was| {
      SplicedIsReplaced(was, cut, with);
    }
  }

  /** Until they have arrived the string stays as it is, marked as assigned once the length is there. */
  lemma CutDeltaWaits(leaf: Leaf, slot: Slot, d: seq<byte>, p: nat)
    requires p <= |d| && slot.value.Str?
    ensures var length, r := IntAt(d, p), DeltaString(leaf, slot, d, p);
      && (length.Short? ==> r == Wait(slot))
      && (length.Got? && (leaf.mandatory || length.value != 0) && TextFrom(d, length.next, DELTA_ROOM, []).Cut? ==>
            r == Wait(Slot(Assigned, slot.value)))
  {
  }

  lemma SplicedIsReplaced(was: seq<byte>, cut: int, with: seq<byte>)
    requires (if cut >= 0 then cut else -cut - 1) <= |was|
    ensures Replaced(was, cut, with, Spliced(was, cut, with))
  {
    if cut >= 0 {
      assert was == was[..|was| - cut] + was[|was| - cut..];
    } else {
      assert was == was[..-cut - 1] + was[-cut - 1..];
    }
  }

  /** The length that means none: the string stays in the dictionary. */
  lemma NoStringDelta(leaf: Leaf, slot: Slot, d: seq<byte>, p: nat, n: nat)
    requires p <= |d| && slot.value.Str? && IntAt(d, p) == Got(0, n) && !leaf.mandatory
    ensures var r := DeltaString(leaf, slot, d, p);
      r.Done? && r.next == n && r.slot.state == Empty && r.slot.value == slot.value
  {
  }
}
