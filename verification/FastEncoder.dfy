/** fast_message_encode: fields, their bits, and the whole message; and a field that was encoded is decoded. */
module FastEncoder {
  import opened Digits
  import opened StopBit
  import opened PresenceMap
  import opened FastField
  import opened FieldEncoder
  import opened FastFlat
  import opened FastMessage
  import FieldRoundTrip

  /** What the encoder remembers of a field. */
  datatype FieldPrev = OnePrev(prev: Slot) | TwoPrev(e: Slot, m: Slot) | NoPrev

  datatype FieldSent = FieldSent(bits: seq<bool>, bytes: seq<byte>, prev: FieldPrev, now: FieldSlot) | FieldRefused

  predicate TypedPrev(f: Field, prev: FieldPrev) {
    match f
    case Single(leaf) => prev.OnePrev? && Typed(leaf, prev.prev)
    case Pair(_, e, m) => prev.TwoPrev? && Typed(e, prev.e) && Typed(m, prev.m)
    case Sequence(_, _, _, _) => prev.NoPrev?
  }

  /** The bit that goes into the map. */
  function Bits(leaf: Leaf, bit: bool): seq<bool> {
    if TakesBit(leaf) && Known(leaf) then [bit] else []
  }

  function EncodeSingle(leaf: Leaf, prev: Slot, field: Slot): FieldSent
    requires Typed(leaf, prev) && Typed(leaf, field)
  {
    match EncodeLeaf(leaf, prev, field)
    case Refused => FieldRefused
    case Sent(bit, bytes, prev', now) => FieldSent(Bits(leaf, bit), bytes, OnePrev(prev'), One(now))
  }

  /** The exponent as fast_encode_decimal_individ prepares it: an empty decimal leaves the old value there. */
  function ExponentOf(fs: FieldSlot): Slot
    requires fs.Two?
  {
    Slot(fs.state, if fs.state == Empty then fs.e.value else Num(fs.exp))
  }

  function MantissaOf(fs: FieldSlot): Slot
    requires fs.Two?
  {
    Slot(fs.state, if fs.state == Empty then fs.m.value else Num(fs.mnt))
  }

  /** fast_encode_decimal_individ */
  function EncodePair(f: Field, prev: FieldPrev, fs: FieldSlot): FieldSent
    requires f.Pair? && TypedField(f, fs) && TypedPrev(f, prev)
  {
    match EncodeLeaf(f.exp, prev.e, ExponentOf(fs))
    case Refused => FieldRefused
    case Sent(bit, bytes, e, now) =>
      if now.state == Empty then
        FieldSent(Bits(f.exp, bit), bytes, TwoPrev(e, prev.m), Two(fs.state, fs.exp, fs.mnt, now, MantissaOf(fs)))
      else
        match EncodeLeaf(f.mnt, prev.m, MantissaOf(fs))
        case Refused => FieldRefused
        case Sent(bit', bytes', m, now') =>
          FieldSent(Bits(f.exp, bit) + Bits(f.mnt, bit'), bytes + bytes', TwoPrev(e, m),
                    Two(Assigned, fs.exp, fs.mnt, now, now'))
  }

  function EncodeField(f: Field, prev: FieldPrev, fs: FieldSlot): FieldSent
    requires TypedField(f, fs) && TypedPrev(f, prev)
  {
    match f
    case Single(leaf) => EncodeSingle(leaf, prev.prev, fs.slot)
    case Pair(_, _, _) => EncodePair(f, prev, fs)
    case Sequence(_, _, _, _) => FieldRefused
  }

  // ----- coupling and contract, field by field --------------------------------------------

  predicate CoupledField(f: Field, prev: FieldPrev, fs: FieldSlot) {
    && TypedField(f, fs) && TypedPrev(f, prev)
    && match f
       case Single(leaf) => Coupled(leaf, prev.prev, fs.slot)
       case Pair(_, e, m) => Coupled(e, prev.e, fs.e) && Coupled(m, prev.m, fs.m)
       case Sequence(_, _, _, _) => true
  }

  predicate AllowedField(f: Field, prev: FieldPrev, fs: FieldSlot) {
    && TypedField(f, fs) && TypedPrev(f, prev)
    && match f
       case Single(leaf) => Allowed(leaf, prev.prev, fs.slot)
       case Pair(mandatory, e, m) =>
         && Allowed(e, prev.e, ExponentOf(fs)) && (fs.state == Empty ==> !mandatory)
         && (fs.state != Empty ==> Allowed(m, prev.m, MantissaOf(fs)) && -63 <= fs.exp <= 63)
       case Sequence(_, _, _, _) => false
  }

  predicate ShowsField(f: Field, fs: FieldSlot, sent: FieldSlot)
    requires TypedField(f, fs) && TypedField(f, sent)
  {
    match f
    case Single(_) => Shows(fs.slot, sent.slot)
    case Pair(_, _, _) =>
      if sent.state == Empty then fs.state == Empty
      else fs.state == Assigned && fs.exp == sent.exp && fs.mnt == sent.mnt
    case Sequence(_, _, _, _) => false
  }

  /** The bits stand in the map behind bit `bit`. */
  predicate BitsAt(pmap: seq<byte>, bit: Bit, bits: seq<bool>) {
    forall i | 0 <= i < |bits| :: IsSet(pmap, bit + 1 + i) == bits[i]
  }

  ghost predicate FieldDecoded(f: Field, s: FieldSent, r: FieldStep, fs: FieldSlot, bit: Bit, p: nat)
    requires TypedField(f, fs)
  {
    && s.FieldSent? && r.Ready? && r.bit == bit + |s.bits| && r.next == p + |s.bytes|
    && CoupledField(f, s.prev, r.slot) && ShowsField(f, r.slot, fs)
  }

  lemma BitIs(leaf: Leaf, pmap: seq<byte>, bit: Bit, b: bool)
    requires Supported(leaf) && BitsAt(pmap, bit, Bits(leaf, b))
    ensures TakesBit(leaf) ==> BitOf(leaf, pmap, bit) == b
    ensures BitAfter(leaf, bit) == bit + |Bits(leaf, b)|
  {
    if TakesBit(leaf) {
      assert Bits(leaf, b)[0] == b;
    }
  }

  /** The operator looks at its bit only if it takes one. */
  lemma OnlyItsBit(leaf: Leaf, slot: Slot, a: bool, b: bool, d: seq<byte>, p: nat)
    requires p <= |d| && Typed(leaf, slot) && (TakesBit(leaf) ==> a == b)
    ensures DecodeLeaf(leaf, slot, a, d, p) == DecodeLeaf(leaf, slot, b, d, p)
  {
  }

  /** One operator, with its bit in the map. */
  lemma LeafInMap(leaf: Leaf, prev: Slot, slot: Slot, field: Slot, pmap: seq<byte>, bit: Bit, d: seq<byte>, p: nat)
    requires Coupled(leaf, prev, slot) && Allowed(leaf, prev, field)
    ensures EncodeLeaf(leaf, prev, field).Sent?
    ensures var s := EncodeLeaf(leaf, prev, field);
      p <= |d| && StandsAt(d, p, s.bytes) && BitsAt(pmap, bit, Bits(leaf, s.bit)) ==>
        && FieldRoundTrip.Decoded(leaf, s, DecodeLeaf(leaf, slot, BitOf(leaf, pmap, bit), d, p), field, p)
        && BitAfter(leaf, bit) == bit + |Bits(leaf, s.bit)|
  {
    FieldRoundTrip.LeafRoundTrip(leaf, prev, slot, field, d, p);
    var s := EncodeLeaf(leaf, prev, field);
    if p <= |d| && StandsAt(d, p, s.bytes) && BitsAt(pmap, bit, Bits(leaf, s.bit)) {
      BitIs(leaf, pmap, bit, s.bit);
      OnlyItsBit(leaf, slot, BitOf(leaf, pmap, bit), s.bit, d, p);
    }
  }

  lemma BitsParts(pmap: seq<byte>, bit: Bit, a: seq<bool>, b: seq<bool>)
    ensures BitsAt(pmap, bit, a + b) <==> BitsAt(pmap, bit, a) && BitsAt(pmap, bit + |a|, b)
  {
    var c := a + b;
    if BitsAt(pmap, bit, c) {
      assert forall i | 0 <= i < |a| :: c[i] == a[i];
      forall i | 0 <= i < |b| ensures IsSet(pmap, bit + |a| + 1 + i) == b[i] {
        assert c[|a| + i] == b[i];
        assert IsSet(pmap, bit + 1 + (|a| + i)) == c[|a| + i];
      }
    }
    if BitsAt(pmap, bit, a) && BitsAt(pmap, bit + |a|, b) {
      forall i | 0 <= i < |c| ensures IsSet(pmap, bit + 1 + i) == c[i] {
        if i >= |a| {
          assert IsSet(pmap, bit + |a| + 1 + (i - |a|)) == b[i - |a|];
        }
      }
    }
  }

  lemma EmptyPairReadsBack(f: Field, prev: FieldPrev, slot: FieldSlot, fs: FieldSlot, pmap: seq<byte>, bit: Bit,
                           d: seq<byte>, p: nat)
    requires f.Pair? && CoupledField(f, prev, slot) && AllowedField(f, prev, fs) && p <= |d| && fs.state == Empty
    ensures EncodePair(f, prev, fs).FieldSent?
    ensures var s := EncodePair(f, prev, fs);
      StandsAt(d, p, s.bytes) && BitsAt(pmap, bit, s.bits) ==>
        FieldDecoded(f, s, DecodePair(f, slot, pmap, bit, d, p), fs, bit, p)
  {
    LeafInMap(f.exp, prev.e, slot.e, ExponentOf(fs), pmap, bit, d, p);
  }

  /** A decimal that is there is sent as its exponent and its mantissa. */
  lemma PairIsBoth(f: Field, prev: FieldPrev, fs: FieldSlot)
    requires f.Pair? && AllowedField(f, prev, fs) && fs.state != Empty
    requires EncodeLeaf(f.exp, prev.e, ExponentOf(fs)).Sent? && EncodeLeaf(f.mnt, prev.m, MantissaOf(fs)).Sent?
    ensures var e, m, s := EncodeLeaf(f.exp, prev.e, ExponentOf(fs)), EncodeLeaf(f.mnt, prev.m, MantissaOf(fs)),
            EncodePair(f, prev, fs);
      && s.FieldSent? && s.bits == Bits(f.exp, e.bit) + Bits(f.mnt, m.bit) && s.bytes == e.bytes + m.bytes
      && s.prev == TwoPrev(e.prev, m.prev)
  {
    assert EncodeLeaf(f.exp, prev.e, ExponentOf(fs)).now.state == Assigned;
  }

  /** What the two halves of a decimal come to. */
  lemma BothHalves(f: Field, e: Sent, m: Sent, x: Slot, y: Slot, s: FieldSent, r: FieldStep, fs: FieldSlot, bit: Bit,
                   p: nat)
    requires f.Pair? && TypedField(f, fs) && f.exp.kind == Int && f.mnt.kind == Int && e.Sent? && m.Sent?
    requires fs.state != Empty
    requires s.FieldSent? && s.bits == Bits(f.exp, e.bit) + Bits(f.mnt, m.bit) && s.bytes == e.bytes + m.bytes
    requires s.prev == TwoPrev(e.prev, m.prev)
    requires Coupled(f.exp, e.prev, x) && Shows(x, ExponentOf(fs)) && Coupled(f.mnt, m.prev, y)
    requires Shows(y, MantissaOf(fs))
    requires x.value.Num? && y.value.Num?
    requires r == Ready(Two(Assigned, x.value.n, y.value.n, x, y), bit + |Bits(f.exp, e.bit)| + |Bits(f.mnt, m.bit)|,
                        p + |e.bytes| + |m.bytes|)
    ensures FieldDecoded(f, s, r, fs, bit, p)
  {
  }

  /** How a decimal is put together from its halves. */
  lemma PairSteps(f: Field, slot: FieldSlot, x: Slot, y: Slot, pmap: seq<byte>, bit: Bit, b: Bit, d: seq<byte>, p: nat,
                  q: nat, n: nat)
    requires f.Pair? && TypedField(f, slot) && p <= |d| && q <= |d| && x.value.Num? && y.value.Num?
    ensures DecodeLeaf(f.exp, slot.e, BitOf(f.exp, pmap, bit), d, p) == Done(x, q) && x.state == Assigned
            && b == BitAfter(f.exp, bit) && -63 <= x.value.n <= 63
            && DecodeLeaf(f.mnt, slot.m, BitOf(f.mnt, pmap, b), d, q) == Done(y, n) ==>
      DecodePair(f, slot, pmap, bit, d, p) == Ready(Two(Assigned, x.value.n, y.value.n, x, y), BitAfter(f.mnt, b), n)
  {
  }

  /** The slot that an operator leaves behind. */
  function After(leaf: Leaf, slot: Slot, pmap: seq<byte>, bit: Bit, d: seq<byte>, p: nat): Slot
    requires p <= |d| && Typed(leaf, slot)
  {
    var r := DecodeLeaf(leaf, slot, BitOf(leaf, pmap, bit), d, p);
    if r.Done? then r.slot else slot
  }

  lemma LeafLeaves(leaf: Leaf, prev: Slot, slot: Slot, field: Slot, s: Sent, pmap: seq<byte>, bit: Bit, d: seq<byte>,
                   p: nat)
      returns (x: Slot)
    ensures p <= |d| && Coupled(leaf, prev, slot) && Allowed(leaf, prev, field) && s == EncodeLeaf(leaf, prev, field)
            && s.Sent?
            && StandsAt(d, p, s.bytes) && BitsAt(pmap, bit, Bits(leaf, s.bit)) ==>
      && DecodeLeaf(leaf, slot, BitOf(leaf, pmap, bit), d, p) == Done(x, p + |s.bytes|)
      && Coupled(leaf, s.prev, x) && Shows(x, field) && BitAfter(leaf, bit) == bit + |Bits(leaf, s.bit)|
  {
    x := slot;
    if p <= |d| && Coupled(leaf, prev, slot) && Allowed(leaf, prev, field) {
      LeafInMap(leaf, prev, slot, field, pmap, bit, d, p);
      x := After(leaf, slot, pmap, bit, d, p);
    }
  }

  /** Exponent and mantissa one after the other. */
  lemma PairDecodes(f: Field, prev: FieldPrev, slot: FieldSlot, u: Slot, v: Slot, e: Sent, m: Sent, pmap: seq<byte>,
                    bit: Bit, d: seq<byte>, p: nat)
      returns (x: Slot, y: Slot)
    requires f.Pair? && CoupledField(f, prev, slot) && Allowed(f.exp, prev.e, u) && Allowed(f.mnt, prev.m, v)
    requires u.state != Empty && -63 <= u.value.n <= 63
    requires e == EncodeLeaf(f.exp, prev.e, u) && e.Sent? && m == EncodeLeaf(f.mnt, prev.m, v) && m.Sent?
    requires StandsAt(d, p, e.bytes) && StandsAt(d, p + |e.bytes|, m.bytes)
    requires BitsAt(pmap, bit, Bits(f.exp, e.bit)) && BitsAt(pmap, bit + |Bits(f.exp, e.bit)|, Bits(f.mnt, m.bit))
    ensures Coupled(f.exp, e.prev, x) && Shows(x, u) && Coupled(f.mnt, m.prev, y) && Shows(y, v)
    ensures DecodePair(f, slot, pmap, bit, d, p) ==
      Ready(Two(Assigned, x.value.n, y.value.n, x, y), bit + |Bits(f.exp, e.bit)| + |Bits(f.mnt, m.bit)|,
            p + |e.bytes| + |m.bytes|)
  {
    hide DecodePair, BitsAt, EncodeLeaf;
    x := LeafLeaves(f.exp, prev.e, slot.e, u, e, pmap, bit, d, p);
    var q, b := p + |e.bytes|, bit + |Bits(f.exp, e.bit)|;
    y := LeafLeaves(f.mnt, prev.m, slot.m, v, m, pmap, b, d, q);
    PairSteps(f, slot, x, y, pmap, bit, b, d, p, q, q + |m.bytes|);
  }

  lemma FullPairAt(f: Field, prev: FieldPrev, slot: FieldSlot, fs: FieldSlot, e: Sent, m: Sent, s: FieldSent,
                   pmap: seq<byte>, bit: Bit, d: seq<byte>, p: nat)
    requires f.Pair? && CoupledField(f, prev, slot) && AllowedField(f, prev, fs) && fs.state != Empty
    requires e == EncodeLeaf(f.exp, prev.e, ExponentOf(fs)) && e.Sent?
    requires m == EncodeLeaf(f.mnt, prev.m, MantissaOf(fs)) && m.Sent?
    requires s.FieldSent? && s.bits == Bits(f.exp, e.bit) + Bits(f.mnt, m.bit) && s.bytes == e.bytes + m.bytes
    requires s.prev == TwoPrev(e.prev, m.prev)
    requires StandsAt(d, p, s.bytes) && BitsAt(pmap, bit, s.bits)
    ensures FieldDecoded(f, s, DecodePair(f, slot, pmap, bit, d, p), fs, bit, p)
  {
    StandsParts(d, p, e.bytes, m.bytes);
    BitsParts(pmap, bit, Bits(f.exp, e.bit), Bits(f.mnt, m.bit));
    var x, y := PairDecodes(f, prev, slot, ExponentOf(fs), MantissaOf(fs), e, m, pmap, bit, d, p);
    BothHalves(f, e, m, x, y, s, DecodePair(f, slot, pmap, bit, d, p), fs, bit, p);
  }

  lemma FullPairReadsBack(f: Field, prev: FieldPrev, slot: FieldSlot, fs: FieldSlot, pmap: seq<byte>, bit: Bit,
                          d: seq<byte>, p: nat)
    requires f.Pair? && CoupledField(f, prev, slot) && AllowedField(f, prev, fs) && p <= |d| && fs.state != Empty
    ensures EncodePair(f, prev, fs).FieldSent?
    ensures var s := EncodePair(f, prev, fs);
      StandsAt(d, p, s.bytes) && BitsAt(pmap, bit, s.bits) ==>
        FieldDecoded(f, s, DecodePair(f, slot, pmap, bit, d, p), fs, bit, p)
  {
    FieldRoundTrip.LeafRoundTrip(f.exp, prev.e, slot.e, ExponentOf(fs), d, p);
    FieldRoundTrip.LeafRoundTrip(f.mnt, prev.m, slot.m, MantissaOf(fs), d, p);
    PairIsBoth(f, prev, fs);
    var s := EncodePair(f, prev, fs);
    if StandsAt(d, p, s.bytes) && BitsAt(pmap, bit, s.bits) {
      FullPairAt(f, prev, slot, fs, EncodeLeaf(f.exp, prev.e, ExponentOf(fs)),
                 EncodeLeaf(f.mnt, prev.m, MantissaOf(fs)), s, pmap, bit, d, p);
    }
  }

  lemma FieldReadsBack(f: Field, prev: FieldPrev, slot: FieldSlot, fs: FieldSlot, pmap: seq<byte>, bit: Bit,
                       d: seq<byte>, p: nat)
    requires CoupledField(f, prev, slot) && AllowedField(f, prev, fs) && p <= |d|
    ensures EncodeField(f, prev, fs).FieldSent?
    ensures var s := EncodeField(f, prev, fs);
      StandsAt(d, p, s.bytes) && BitsAt(pmap, bit, s.bits) ==>
        FieldDecoded(f, s, DecodeField(f, slot, pmap, bit, d, p), fs, bit, p)
  {
    if f.Single? {
      LeafInMap(f.leaf, prev.prev, slot.slot, fs.slot, pmap, bit, d, p);
    } else if fs.state == Empty {
      EmptyPairReadsBack(f, prev, slot, fs, pmap, bit, d, p);
    } else {
      FullPairReadsBack(f, prev, slot, fs, pmap, bit, d, p);
    }
  }
}
