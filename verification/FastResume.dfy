/** Which fields of a FAST message may be cut anywhere: exactly those that FastMessage.Repeatable names. */
module FastResume {
  import opened Wrappers
  import opened Digits
  import opened StopBit
  import opened PresenceMap
  import opened FastField
  import opened FastFlat
  import opened FastMessage

  // ----- templates that can be decoded ----------------------------------------------------

  /** The decoder knows the operator, and a default that must be there has a value (FAST 1.1, section 6.3.5). */
  predicate SoundLeaf(leaf: Leaf) {
    Known(leaf) && Fits(leaf.reset, leaf.kind) && (leaf.op == Default ==> leaf.hasReset || !leaf.mandatory)
  }

  predicate SoundElement(f: Field) {
    match f
    case Single(leaf) => SoundLeaf(leaf)
    case Pair(mandatory, e, m) =>
      && e.kind == Int && m.kind == Int && SoundLeaf(e) && SoundLeaf(m) && e.mandatory == mandatory
         && -63 <= e.reset.n <= 63
    case Sequence(_, _, _, _) => false
  }

  predicate NoBits(f: Field) {
    match f
    case Single(leaf) => !TakesBit(leaf)
    case Pair(_, e, m) => !TakesBit(e) && !TakesBit(m)
    case Sequence(_, _, _, _) => false
  }

  /** Elements that take bits have a map. */
  predicate Sound(f: Field) {
    match f
    case Single(_) => true
    case Pair(_, e, m) => e.kind == Int && m.kind == Int && Fits(e.reset, Int) && Fits(m.reset, Int)
    case Sequence(_, length, mapped, elements) =>
      && length.kind == Uint && Fits(length.reset, Uint)
      && forall k | 0 <= k < |elements| :: SoundElement(elements[k]) && (mapped || NoBits(elements[k]))
  }

  // ----- bytes that let everything pass ---------------------------------------------------

  /** The byte 128 is the number zero, the empty string, and a map without bits. */
  predicate AllZero(d: seq<byte>, p: nat, n: nat) {
    p + n <= |d| && forall i | p <= i < p + n :: d[i] == 128
  }

  ghost predicate BitsOff(pmap: seq<byte>, from: nat) {
    forall k: nat | from <= k :: !IsSet(pmap, k)
  }

  const ZERO_MAP: seq<byte> := [128]

  lemma ZeroAt(d: seq<byte>, p: nat)
    requires p < |d| && d[p] == 128
    ensures IntAt(d, p) == Got(0, p + 1) && UintAt(d, p) == Got(0, p + 1) && MapAt(d, p) == Got(ZERO_MAP, p + 1)
    ensures forall room: nat | room > 0 :: TextFrom(d, p, room, []) == Whole([0], p + 1)
  {
    assert IntFrom(d, p, 0, 0) == IntRound(d, p, 0, 0);
    assert UintFrom(d, p, 0, 0) == UintRound(d, p, 0, 0);
    assert MapFrom(d, p, []) == MapRound(d, p, []) && [] + [d[p]] == ZERO_MAP;
    forall room: nat | room > 0 ensures TextFrom(d, p, room, []) == Whole([0], p + 1) {
      assert TextFrom(d, p, room, []) == TextRound(d, p, room, []);
    }
  }

  function ZeroOf(leaf: Leaf): Slot {
    Slot(Assigned,
         match leaf.kind
         case Ascii => Str([])
         case Decimal => Dec(0, 0)
         case _ => Num(0))
  }

  function ZeroField(f: Field): FieldSlot {
    match f
    case Single(leaf) => One(ZeroOf(leaf))
    case Pair(_, e, m) => Two(Assigned, 0, 0, ZeroOf(e), ZeroOf(m))
    case Sequence(_, _, _, _) => Many(Slot(Undefined, Num(0)), None, -1, 0, 0, [], [])
  }

  lemma LeafPasses(leaf: Leaf, d: seq<byte>, p: nat)
    requires SoundLeaf(leaf) && AllZero(d, p, 2)
    ensures var r := DecodeLeaf(leaf, ZeroOf(leaf), false, d, p);
      && r.Done? && r.next <= p + 2 && (r.slot.state == Empty ==> !leaf.mandatory)
      && (leaf.kind == Int && r.slot.state != Empty && leaf.op != Default ==> 0 <= r.slot.value.n <= 1)
      && (leaf.kind == Int && r.slot.state != Empty && leaf.op == Default ==> r.slot.value == leaf.reset)
  {
    ZeroAt(d, p);
    ZeroAt(d, p + 1);
  }

  lemma FlatPasses(f: Field, pmap: seq<byte>, bit: Bit, d: seq<byte>, p: nat)
    requires SoundElement(f) && BitsOff(pmap, bit + 1) && AllZero(d, p, 4)
    ensures TypedFlat(f, ZeroField(f))
    ensures var r := DecodeFlat(f, ZeroField(f), pmap, bit, d, p); r.Ready? && r.next <= p + 4 && r.bit >= bit
  {
    match f
    case Single(leaf) => LeafPasses(leaf, d, p);
    case Pair(_, e, m) =>
      LeafPasses(e, d, p);
      var r := DecodeLeaf(e, ZeroOf(e), false, d, p);
      assert BitOf(e, pmap, bit) == false;
      if r.slot.state != Empty {
        LeafPasses(m, d, r.next);
        assert BitOf(m, pmap, BitAfter(e, bit)) == false;
      }
  }

  // ----- elements that pass ---------------------------------------------------------------

  /** In the last element of a sequence, whose fields from `fs.field` on are zero. */
  ghost predicate LastElement(f: Field, fs: FieldSlot) {
    && f.Sequence? && Sound(f) && TypedMany(f, fs) && fs.decoded > 0 && fs.decoded == fs.count.value.n
    && forall j | fs.field <= j < |f.elements| :: fs.work[j] == ZeroField(f.elements[j])
  }

  /** The rest of the element passes, and the fields before it stay as they are. */
  ghost predicate Passes(f: Field, fs: FieldSlot, d: seq<byte>, p: nat) {
    && p <= |d| && f.Sequence? && TypedMany(f, fs) && fs.decoded > 0
    && var r := SeqRun(f, fs, d, p);
       r.Over? && |r.slot.work| == |fs.work| && r.slot.work[..fs.field] == fs.work[..fs.field]
  }

  lemma PassesFrom(f: Field, fs: FieldSlot, t: FieldSlot, d: seq<byte>, p: nat, q: nat)
    requires p <= |d| && f.Sequence? && TypedMany(f, fs) && fs.decoded > 0 && RoundOf(f, fs, d, p) == On(t, q)
    requires Passes(f, t, d, q) && |t.work| == |fs.work| && fs.field <= t.field
    requires t.work[..fs.field] == fs.work[..fs.field]
    ensures Passes(f, fs, d, p)
  {
    assert SeqRun(f, fs, d, p) == SeqRunOn(f, fs, d, p);
    var w := SeqRun(f, t, d, q).slot.work;
    assert w[..fs.field] == w[..t.field][..fs.field] == t.work[..t.field][..fs.field];
  }

  lemma {:induction false} RestPasses(f: Field, fs: FieldSlot, d: seq<byte>, p: nat)
    requires LastElement(f, fs) && !(f.mapped && fs.pmap.None?) && BitsOff(OwnMap(fs), fs.bit + 1)
    requires AllZero(d, p, 4 * (|f.elements| - fs.field))
    ensures Passes(f, fs, d, p)
    decreases |f.elements| - fs.field
  {
    RoundIsTyped(f, fs, d, p);
    assert SeqRun(f, fs, d, p) == SeqRunOn(f, fs, d, p);
    var k := fs.field;
    if k < |f.elements| {
      assert SoundElement(f.elements[k]);
      FlatPasses(f.elements[k], OwnMap(fs), fs.bit, d, p);
      var r := DecodeFlat(f.elements[k], fs.work[k], OwnMap(fs), fs.bit, d, p);
      var t := Stored(f, fs, r.slot, r.bit);
      assert RoundOf(f, fs, d, p) == On(t, r.next);
      RestPasses(f, t, d, r.next);
      PassesFrom(f, fs, t, d, p, r.next);
    }
  }

  /** From the start of an element, with its map. */
  lemma ElementPasses(f: Field, fs: FieldSlot, d: seq<byte>, p: nat)
    requires LastElement(f, fs) && fs.pmap.None? && fs.field == 0 && AllZero(d, p, 4 * |f.elements| + 1)
    ensures Passes(f, fs, d, p)
  {
    hide Passes, Sound, SeqRun;
    if f.mapped {
      ZeroAt(d, p);
      var t := fs.(pmap := Some(ZERO_MAP), bit := -1);
      assert RoundOf(f, fs, d, p) == On(t, p + 1);
      RoundIsTyped(f, fs, d, p);
      ByteOff(128);
      RestPasses(f, t, d, p + 1);
      PassesFrom(f, fs, t, d, p, p + 1);
    } else {
      RestPasses(f, fs, d, p);
    }
  }

  lemma ByteOff(b: byte)
    requires b == 0 || b == 128
    ensures BitsOff([b], 0)
  {
    var s: seq<byte> := [b];
    forall k: nat ensures !IsSet(s, k) {
      if k < 7 {
        NothingSet(6 - k);
        StopBitKeeps(0, 6 - k);
      }
    }
  }

  ghost predicate AlwaysResumes(f: Field) {
    forall fs, pmap, bit: Bit, d, e, p | 0 <= p <= |d| && TypedField(f, fs) :: FieldResumesAt(f, fs, pmap, bit, d, e, p)
  }

  // ----- a length that takes a bit --------------------------------------------------------

  /** At the end of the bytes an element that is not silent has to wait. */
  lemma {:induction false} WaitsAtEnd(f: Field, fs: FieldSlot, d: seq<byte>)
    requires LastElement(f, fs) && !(f.mapped && fs.pmap.None?) && !f.mapped
    requires exists k :: fs.field <= k < |f.elements| && !Silent(f.elements[k])
    ensures SeqRun(f, fs, d, |d|).Held?
    decreases |f.elements| - fs.field
  {
    RoundIsTyped(f, fs, d, |d|);
    assert SeqRun(f, fs, d, |d|) == SeqRunOn(f, fs, d, |d|);
    var k := fs.field;
    var g := f.elements[k];
    assert SoundElement(g) && NoBits(g) && fs.work[k] == ZeroField(g);
    NothingAtEnd(d);
    var r := DecodeFlat(g, fs.work[k], OwnMap(fs), fs.bit, d, |d|);
    if Silent(g) {
      assert r.Ready? && r.next == |d|;
      var t := Stored(f, fs, r.slot, r.bit);
      assert RoundOf(f, fs, d, |d|) == On(t, |d|);
      WaitsAtEnd(f, t, d);
    } else {
      assert r.Later?;
    }
  }

  lemma NothingAtEnd(d: seq<byte>)
    ensures IntAt(d, |d|) == Short && UintAt(d, |d|) == Short && MapAt(d, |d|) == Short
    ensures forall room: nat | room > 0 :: TextFrom(d, |d|, room, []) == Cut([])
  {
    assert UintFrom(d, |d|, 0, 0) == UintRound(d, |d|, 0, 0);
    assert MapFrom(d, |d|, []) == MapRound(d, |d|, []);
    forall room: nat | room > 0 ensures TextFrom(d, |d|, room, []) == Cut([]) {
      assert TextFrom(d, |d|, room, []) == TextRound(d, |d|, room, []);
    }
  }

  function Zeros(n: nat): (s: seq<byte>)
    ensures |s| == n && forall i | 0 <= i < n :: s[i] == 128
  {
    seq(n, _ => 128)
  }

  lemma ZerosBehind(d: seq<byte>, n: nat)
    ensures AllZero(d + Zeros(n), |d|, n)
  {
  }

  /** A sequence of one element, of which `k` fields are done. */
  function OneElement(f: Field, pmap: Option<seq<byte>>, bit: Bit, decoded: nat, k: nat): FieldSlot
    requires f.Sequence?
  {
    Many(Slot(Assigned, Num(1)), pmap, bit, decoded, k,
         seq(|f.elements|, j requires 0 <= j < |f.elements| => ZeroField(f.elements[j])),
         seq(ELEMENTS, _ => seq(|f.elements|, _ => Shown(Undefined, Num(0)))))
  }

  lemma OneElementIs(f: Field, pmap: Option<seq<byte>>, bit: Bit, decoded: nat, k: nat)
    requires f.Sequence? && Sound(f) && k <= |f.elements| && decoded <= 1
    requires (pmap.None? ==> bit == -1 && (f.mapped ==> k == 0)) && (pmap.Some? ==> f.mapped && decoded == 1)
             && (decoded == 0 ==> k == 0)
    ensures var fs := OneElement(f, pmap, bit, decoded, k); TypedMany(f, fs) && (decoded == 1 ==> LastElement(f, fs))
  {
    var fs := OneElement(f, pmap, bit, decoded, k);
    forall j | 0 <= j < |f.elements| ensures TypedFlat(f.elements[j], fs.work[j]) {
      assert SoundElement(f.elements[j]);
    }
  }

  /** All bits of the outer map are set. */
  const ALL_SET: seq<byte> := [127]

  function OneByte(leaf: Leaf): seq<byte> {
    if leaf.op == Constant then [] else if leaf.mandatory then [129] else [130]
  }

  lemma LengthIsOne(leaf: Leaf, e: seq<byte>)
    requires leaf.kind == Uint && Fits(leaf.reset, Uint) && TakesBit(leaf)
    ensures BitOf(leaf, ALL_SET, 0)
    ensures DecodeLeaf(leaf, Slot(Assigned, Num(1)), true, OneByte(leaf) + e, 0) == Done(Slot(Assigned, Num(1)),
            |OneByte(leaf)|)
  {
    assert BitAt(127, 5);
    if leaf.op != Constant {
      var d := OneByte(leaf) + e;
      assert d[0] == if leaf.mandatory then 129 else 130;
      assert UintFrom(d, 0, 0, 0) == UintRound(d, 0, 0, 0);
    }
  }

  /** If an element of a sequence can wait, and the length takes a bit, that bit is lost. */
  lemma LengthBitIsLost(f: Field)
    requires f.Sequence? && Sound(f) && TakesBit(f.length)
    requires f.mapped || exists k :: 0 <= k < |f.elements| && !Silent(f.elements[k])
    ensures !AlwaysResumes(f)
  {
    hide IsSet;
    var fs := OneElement(f, None, -1, 0, 0);
    OneElementIs(f, None, -1, 0, 0);
    OneElementIs(f, None, -1, 1, 0);
    var d, e := OneByte(f.length), Zeros(4 * |f.elements| + 1);
    LengthIsOne(f.length, []);
    LengthIsOne(f.length, e);
    assert d + [] == d;
    WaitsThere(f, d);
    ZerosBehind(d, 4 * |f.elements| + 1);
    ElementPasses(f, OneElement(f, None, -1, 1, 0), d + e, |d|);
    var r, w := DecodeField(f, fs, ALL_SET, 0, d, 0), DecodeField(f, fs, ALL_SET, 0, d + e, 0);
    assert fs.(count := Slot(Assigned, Num(1)), decoded := 1) == OneElement(f, None, -1, 1, 0);
    assert r == Placed(SeqRun(f, OneElement(f, None, -1, 1, 0), d, |d|), 1);
    assert w == Placed(SeqRun(f, OneElement(f, None, -1, 1, 0), d + e, |d|), 1);
    var v := DecodeField(f, r.slot, ALL_SET, 0, d + e, r.next);
    assert v == Placed(SeqRun(f, r.slot, d + e, r.next), 0);
    assert w.Ready? && w.bit == 1 && v != w;
    assert !FieldResumesAt(f, fs, ALL_SET, 0, d, e, 0);
  }

  lemma WaitsThere(f: Field, d: seq<byte>)
    requires f.Sequence? && Sound(f) && (f.mapped || exists k :: 0 <= k < |f.elements| && !Silent(f.elements[k]))
    ensures TypedMany(f, OneElement(f, None, -1, 1, 0)) && SeqRun(f, OneElement(f, None, -1, 1, 0), d, |d|).Held?
  {
    var fs := OneElement(f, None, -1, 1, 0);
    OneElementIs(f, None, -1, 1, 0);
    if f.mapped {
      NothingAtEnd(d);
      assert SeqRun(f, fs, d, |d|) == SeqRunOn(f, fs, d, |d|);
    } else {
      WaitsAtEnd(f, fs, d);
    }
  }

  // ----- an exponent that counts or adds --------------------------------------------------

  /** The exponent's bit is not set, the mantissa's is, and none behind it. */
  function Odd(f: Field): seq<byte>
    requires f.Pair?
  {
    if !TakesBit(f.mnt) then [0] else if TakesBit(f.exp) then [16] else [32]
  }

  ghost predicate OddAt(f: Field, pmap: seq<byte>, bit: Bit)
    requires f.Pair?
  {
    && (TakesBit(f.exp) ==> !BitOf(f.exp, pmap, bit)) && (TakesBit(f.mnt) ==> BitOf(f.mnt, pmap, BitAfter(f.exp, bit)))
    && BitsOff(pmap, BitAfter(f.mnt, BitAfter(f.exp, bit)) + 1)
  }

  lemma OddBits(f: Field)
    requires f.Pair?
    ensures OddAt(f, Odd(f), 0)
  {
    assert BitAt(16, 4) && !BitAt(16, 5) && BitAt(32, 5);
    ByteOff(0);
    var s, from := Odd(f), BitAfter(f.mnt, BitAfter(f.exp, 0)) + 1;
    forall k: nat | from <= k ensures !IsSet(s, k) {
      if s != [0] && k < 7 {
        LowOff(6 - k, if TakesBit(f.exp) then 4 else 5);
      }
    }
  }

  lemma LowOff(n: nat, m: nat)
    requires n < m && (m == 4 || m == 5)
    ensures !BitAt(if m == 4 then 16 else 32, n)
  {
    assert !BitAt(16, 0) && !BitAt(16, 1) && !BitAt(16, 2) && !BitAt(16, 3);
    assert !BitAt(32, 0) && !BitAt(32, 1) && !BitAt(32, 2) && !BitAt(32, 3) && !BitAt(32, 4);
  }

  function ExponentByte(f: Field): seq<byte>
    requires f.Pair?
  {
    if f.exp.op == Delta then [130] else []
  }

  lemma OneByteAt(d: seq<byte>, b: byte, e: seq<byte>)
    requires 129 <= b < 192
    ensures IntAt(d + ([b] + e), |d|) == Got(b - 128, |d| + 1)
  {
    var x := d + ([b] + e);
    assert x[|d|] == b;
    assert SignOf(b) == 0;
    assert IntFrom(x, |d|, 0, 0) == IntRound(x, |d|, 0, 0);
  }

  /** The mantissa waits without its byte, and is there with it. */
  lemma MantissaAt(mnt: Leaf, bit: bool, d: seq<byte>, e: seq<byte>)
    requires mnt.kind == Int && mnt.op != Constant && Fits(mnt.reset, Int) && (TakesBit(mnt) ==> bit)
    ensures DecodeLeaf(mnt, ZeroOf(mnt), bit, d, |d|) == Wait(ZeroOf(mnt))
    ensures DecodeLeaf(mnt, ZeroOf(mnt), bit, d + ([129] + e), |d|).Done?
    ensures DecodeLeaf(mnt, ZeroOf(mnt), bit, d + ([129] + e), |d|).next == |d| + 1
  {
    NothingAtEnd(d);
    OneByteAt(d, 129, e);
  }

  /** An exponent that counts on or adds up is counted twice when the mantissa is late: an incremented exponent of 0
      becomes 2 instead of 1, an exponent sent as a difference of 2 becomes 4. */
  ghost predicate CountsTwice(f: Field, pmap: seq<byte>, bit: Bit, e: seq<byte>, after: Bit)
    requires f.Pair?
  {
    var z, d := ZeroField(f), ExponentByte(f);
    && TypedFlat(f, z)
    && var r := DecodeFlat(f, z, pmap, bit, d, 0);
       && r.Later?
       && var w, v := DecodeFlat(f, z, pmap, bit, d + ([129] + e), 0),
          DecodeFlat(f, r.slot, pmap, bit, d + ([129] + e), 0);
          w.Ready? && v.Ready? && w.bit == v.bit == after && w.next == v.next == |d| + 1 && w.slot != v.slot
  }

  lemma CountedTwice(f: Field, pmap: seq<byte>, bit: Bit, e: seq<byte>)
    requires f.Pair? && Sound(f) && !RepeatableFlat(f) && OddAt(f, pmap, bit)
    ensures CountsTwice(f, pmap, bit, e, BitAfter(f.mnt, BitAfter(f.exp, bit)))
  {
    var d := ExponentByte(f);
    if f.exp.op == Delta {
      OneByteAt([], 130, []);
      OneByteAt([], 130, [129] + e);
      assert [] + ([130] + []) == d && [] + ([130] + ([129] + e)) == d + ([129] + e);
    }
    MantissaAt(f.mnt, BitOf(f.mnt, pmap, BitAfter(f.exp, bit)), d, e);
  }

  /** One field of the last element, and then the rest of it. */
  lemma FieldThenRest(f: Field, fs: FieldSlot, r: FieldStep, d: seq<byte>, p: nat)
    requires f.Sequence? && TypedMany(f, fs) && fs.decoded > 0 && fs.field < |f.elements|
    requires !(f.mapped && fs.pmap.None?) && p <= |d|
    requires TypedFlat(f.elements[fs.field], fs.work[fs.field]) && r.Ready?
    requires r == DecodeFlat(f.elements[fs.field], fs.work[fs.field], OwnMap(fs), fs.bit, d, p)
    requires LastElement(f, Stored(f, fs, r.slot, r.bit)) && AllZero(d, r.next, 4 * |f.elements|)
    requires BitsOff(OwnMap(fs), r.bit + 1)
    ensures var x := SeqRun(f, fs, d, p); x.Over? && |x.slot.work| == |fs.work| && x.slot.work[fs.field] == r.slot
  {
    var t := Stored(f, fs, r.slot, r.bit);
    assert RoundOf(f, fs, d, p) == On(t, r.next);
    assert SeqRun(f, fs, d, p) == SeqRunOn(f, fs, d, p);
    RestPasses(f, t, d, r.next);
    var w := SeqRun(f, t, d, r.next).slot.work;
    assert w[fs.field] == w[..t.field][fs.field] == t.work[..t.field][fs.field];
  }

  /** In the element with only field `k` before the rest. */
  lemma StoredIsLast(f: Field, k: nat, fs: FieldSlot, s: FieldSlot, x: FieldSlot, bit: Bit)
    requires f.Sequence? && Sound(f) && k < |f.elements|
             && fs == OneElement(f, if f.mapped then Some(OddMap(f, k)) else None, if f.mapped then 0 else -1, 1, k)
    requires TypedFlat(f.elements[k], s) && TypedFlat(f.elements[k], x)
    ensures TypedMany(f, fs.(work := fs.work[k := s]))
    ensures LastElement(f, Stored(f, fs.(work := fs.work[k := s]), x, bit))
    ensures TypedMany(f, fs) && LastElement(f, Stored(f, fs, x, bit))
  {
    OneElementIs(f, fs.pmap, fs.bit, 1, k);
    WorkUpdate(f.elements, fs.work, k, s);
    WorkUpdate(f.elements, fs.work, k, x);
    var t := fs.(work := fs.work[k := s]);
    WorkUpdate(f.elements, t.work, k, x);
  }

  function OddMap(f: Field, k: nat): seq<byte>
    requires f.Sequence? && k < |f.elements|
  {
    if f.elements[k].Pair? then Odd(f.elements[k]) else []
  }

  lemma OddWithin(f: Field, k: nat)
    requires f.Sequence? && Sound(f) && k < |f.elements| && f.elements[k].Pair?
    ensures OddAt(f.elements[k], if f.mapped then OddMap(f, k) else [], if f.mapped then 0 else -1)
  {
    assert SoundElement(f.elements[k]) && (f.mapped || NoBits(f.elements[k]));
    OddBits(f.elements[k]);
  }

  lemma CountedTwiceWithin(f: Field, k: nat)
    requires f.Sequence? && Sound(f) && k < |f.elements| && !RepeatableFlat(f.elements[k])
    ensures !AlwaysResumes(f)
  {
    hide IsSet, DecodeLeaf;
    var g, pmap, bit: Bit := f.elements[k], if f.mapped then Some(OddMap(f, k)) else None, if f.mapped then 0 else -1;
    var fs := OneElement(f, pmap, bit, 1, k);
    OneElementIs(f, pmap, bit, 1, k);
    assert SoundElement(g);
    OddWithin(f, k);
    var d, e := ExponentByte(g), Zeros(4 * |f.elements|);
    var after := BitAfter(g.mnt, BitAfter(g.exp, bit));
    CountedTwice(g, OwnMap(fs), bit, e);
    assert CountsTwice(g, OwnMap(fs), bit, e, after);
    var x := d + ([129] + e);
    assert AllZero(x, |d| + 1, 4 * |f.elements|);
    var r := DecodeFlat(g, fs.work[k], OwnMap(fs), bit, d, 0);
    var w, v := DecodeFlat(g, fs.work[k], OwnMap(fs), bit, x, 0), DecodeFlat(g, r.slot, OwnMap(fs), bit, x, 0);
    StoredIsLast(f, k, fs, r.slot, w.slot, w.bit);
    StoredIsLast(f, k, fs, r.slot, v.slot, v.bit);
    var late := fs.(work := fs.work[k := r.slot]);
    FieldThenRest(f, fs, w, x, 0);
    FieldThenRest(f, late, v, x, 0);
    assert SeqRun(f, fs, d, 0) == SeqRunOn(f, fs, d, 0) == Held(late, 0);
    assert DecodeField(f, fs, [], 0, d, 0) == Later(late, 0);
    assert DecodeField(f, fs, [], 0, x, 0).slot.work[k] == w.slot;
    assert DecodeField(f, late, [], 0, x, 0).slot.work[k] == v.slot;
    assert !FieldResumesAt(f, fs, [], 0, d, [129] + e, 0);
  }

  /** Exactly these fields can be cut anywhere. */
  lemma ResumesExactly(f: Field)
    requires Sound(f)
    ensures AlwaysResumes(f) <==> Repeatable(f)
  {
    if Repeatable(f) {
      forall fs, pmap, bit: Bit, d, e, p | 0 <= p <= |d|
        && TypedField(f, fs) ensures FieldResumesAt(f, fs, pmap, bit, d, e, p) {
        FieldResumes(f, fs, pmap, bit, d, e, p);
      }
    } else if f.Pair? {
      OddBits(f);
      CountedTwice(f, Odd(f), 0, []);
      assert CountsTwice(f, Odd(f), 0, [], BitAfter(f.mnt, BitAfter(f.exp, 0)));
      assert !FieldResumesAt(f, ZeroField(f), Odd(f), 0, ExponentByte(f), [129] + [], 0);
    } else if exists k :: 0 <= k < |f.elements| && !RepeatableFlat(f.elements[k]) {
      var k :| 0 <= k < |f.elements| && !RepeatableFlat(f.elements[k]);
      CountedTwiceWithin(f, k);
    } else {
      LengthBitIsLost(f);
    }
  }
}
