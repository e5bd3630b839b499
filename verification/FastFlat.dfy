/** The fields of a FAST message that are not sequences, as lib/proto/fast_message.c decodes them: a field that stops
    where bytes are missing and is decoded again when they are there. */
module FastFlat {
  import opened Wrappers
  import opened Digits
  import opened StopBit
  import opened PresenceMap
  import opened FastField

  // ----- fields ---------------------------------------------------------------------------

  /** A field of a template: one operator, or a decimal whose exponent and mantissa have one each, or a sequence of
      elements with a map of their own if one of their operators takes a bit. */
  datatype Field =
    | Single(leaf: Leaf)
    | Pair(mandatory: bool, exp: Leaf, mnt: Leaf)
    | Sequence(mandatory: bool, length: Leaf, mapped: bool, elements: seq<Field>)

  /** What an element of a sequence shows of a field. */
  datatype Shown = Shown(state: State, value: Value)

  /** The slot of a sequence: its length, the map of the element being decoded, how many elements and how many fields
      of the next one are done, the dictionary of the element fields, and the elements. */
  datatype FieldSlot =
    | One(slot: Slot)
    | Two(state: State, exp: int, mnt: int, e: Slot, m: Slot)
    | Many(count: Slot, pmap: Option<seq<byte>>, bit: Bit, decoded: nat, field: nat, work: seq<FieldSlot>,
           rows: seq<seq<Shown>>)

  /** Fields of one or two operators; the decoder supports no sequence within a sequence. */
  predicate TypedFlat(f: Field, fs: FieldSlot) {
    match f
    case Single(leaf) => fs.One? && Typed(leaf, fs.slot)
    case Pair(_, e, m) => fs.Two? && e.kind == Int && m.kind == Int && Typed(e, fs.e) && Typed(m, fs.m)
    case Sequence(_, _, _, _) => fs.Many?
  }

  /** The field is decoded and so many bits of the map are used, or it waits at a place, or it is broken. */
  datatype FieldStep = Ready(slot: FieldSlot, bit: Bit, next: nat) | Later(slot: FieldSlot, next: nat) | Broken

  predicate BitOf(leaf: Leaf, pmap: seq<byte>, bit: Bit) {
    TakesBit(leaf) && IsSet(pmap, bit + 1)
  }

  function BitAfter(leaf: Leaf, bit: Bit): Bit {
    if TakesBit(leaf) then bit + 1 else bit
  }

  function DecodeSingle(leaf: Leaf, slot: Slot, pmap: seq<byte>, bit: Bit, d: seq<byte>, p: nat): (r: FieldStep)
    requires p <= |d| && Typed(leaf, slot)
    ensures r.Ready? ==> p <= r.next <= |d|
  {
    match DecodeLeaf(leaf, slot, BitOf(leaf, pmap, bit), d, p)
    case Done(s, n) => Ready(One(s), BitAfter(leaf, bit), n)
    case Wait(s) => Later(One(s), p)
    case Garbled => Broken
  }

  /** The mantissa, once the exponent is there. */
  function DecodeMantissa(mnt: Leaf, e: Slot, m: Slot, fs: FieldSlot, pmap: seq<byte>, bit: Bit, d: seq<byte>, p: nat,
                          start: nat)
    : (r: FieldStep)
    requires p <= |d| && Typed(mnt, m) && mnt.kind == Int && e.value.Num? && fs.Two?
    ensures r.Ready? ==> p <= r.next <= |d|
  {
    if !(-63 <= e.value.n <= 63) then Broken
    else
      match DecodeLeaf(mnt, m, BitOf(mnt, pmap, bit), d, p)
      case Done(s, n) => Ready(Two(Assigned, e.value.n, s.value.n, e, s), BitAfter(mnt, bit), n)
      case Wait(s) => Later(fs.(e := e, m := s), start)
      case Garbled => Broken
  }

  /** What follows the exponent. */
  function PairOn(f: Field, fs: FieldSlot, r: Step<Slot>, pmap: seq<byte>, bit: Bit, d: seq<byte>,
                  start: nat): (x: FieldStep)
    requires f.Pair? && TypedFlat(f, fs) && (r.Done? ==> r.next <= |d|) && (!r.Garbled? ==> Typed(f.exp, r.slot))
    ensures x.Ready? ==> r.Done? && r.next <= x.next <= |d|
    ensures !x.Broken? ==> TypedFlat(f, x.slot)
  {
    match r
    case Wait(s) => Later(fs.(e := s), start)
    case Garbled => Broken
    case Done(s, n) =>
      if s.state == Empty then if f.mandatory then Broken else Ready(fs.(state := Empty, e := s), bit, n)
      else DecodeMantissa(f.mnt, s, fs.m, fs, pmap, bit, d, n, start)
  }

  /** fast_decode_decimal_individ */
  function DecodePair(f: Field, fs: FieldSlot, pmap: seq<byte>, bit: Bit, d: seq<byte>, p: nat): (r: FieldStep)
    requires p <= |d| && f.Pair? && TypedFlat(f, fs)
    ensures r.Ready? ==> p <= r.next <= |d|
    ensures r.Later? ==> r.next == p
    ensures !r.Broken? ==> TypedFlat(f, r.slot)
  {
    PairOn(f, fs, DecodeLeaf(f.exp, fs.e, BitOf(f.exp, pmap, bit), d, p), pmap, BitAfter(f.exp, bit), d, p)
  }

  function DecodeFlat(f: Field, fs: FieldSlot, pmap: seq<byte>, bit: Bit, d: seq<byte>, p: nat): (r: FieldStep)
    requires p <= |d| && TypedFlat(f, fs)
    ensures r.Ready? ==> p <= r.next <= |d|
    ensures r.Later? ==> r.next == p
    ensures !r.Broken? ==> TypedFlat(f, r.slot)
  {
    match f
    case Single(leaf) => DecodeSingle(leaf, fs.slot, pmap, bit, d, p)
    case Pair(_, _, _) => DecodePair(f, fs, pmap, bit, d, p)
    case Sequence(_, _, _, _) => Broken
  }

  // ----- a field in pieces ----------------------------------------------------------------

  /** Whether a field that had to wait is decoded as if nothing had happened. */
  ghost predicate FlatResumesAt(f: Field, fs: FieldSlot, pmap: seq<byte>, bit: Bit, d: seq<byte>, e: seq<byte>, p: nat)
    requires p <= |d| && TypedFlat(f, fs)
  {
    var r, w := DecodeFlat(f, fs, pmap, bit, d, p), DecodeFlat(f, fs, pmap, bit, d + e, p);
    if r.Later? then DecodeFlat(f, r.slot, pmap, bit, d + e, p) == w else w == r
  }

  /** Decoding these exponents twice is decoding them once; and without a mantissa on the wire it is done once. */
  predicate RepeatableFlat(f: Field) {
    !f.Pair? || (f.exp.op != Increment && f.exp.op != Delta) || f.mnt.op == Constant
  }

  lemma ExponentAgain(exp: Leaf, slot: Slot, bit: bool, d: seq<byte>, p: nat)
    requires p <= |d| && Typed(exp, slot) && exp.kind == Int && exp.op != Increment && exp.op != Delta
    requires DecodeLeaf(exp, slot, bit, d, p).Done? && DecodeLeaf(exp, slot, bit, d, p).slot.state != Empty
    ensures DecodeLeaf(exp, DecodeLeaf(exp, slot, bit, d, p).slot, bit, d, p) == DecodeLeaf(exp, slot, bit, d, p)
  {
  }

  lemma MantissaResumes(mnt: Leaf, e: Slot, m: Slot, fs: FieldSlot, pmap: seq<byte>, bit: Bit, d: seq<byte>,
                        x: seq<byte>, p: nat, start: nat)
    requires p <= |d| && Typed(mnt, m) && mnt.kind == Int && e.value.Num? && fs.Two?
    ensures var r, w := DecodeMantissa(mnt, e, m, fs, pmap, bit, d, p, start),
            DecodeMantissa(mnt, e, m, fs, pmap, bit, d + x, p, start);
      if r.Later? then
        && mnt.op != Constant && r.slot.Two? && r.slot.e == e && Typed(mnt, r.slot.m)
        && DecodeMantissa(mnt, e, r.slot.m, r.slot, pmap, bit, d + x, p, start) == w
      else w == r
  {
    LeafResumes(mnt, m, BitOf(mnt, pmap, bit), d, x, p);
  }

  lemma PairResumes(f: Field, fs: FieldSlot, pmap: seq<byte>, bit: Bit, d: seq<byte>, x: seq<byte>, p: nat)
    requires p <= |d| && f.Pair? && TypedFlat(f, fs) && RepeatableFlat(f)
    ensures FlatResumesAt(f, fs, pmap, bit, d, x, p)
  {
    var b := BitOf(f.exp, pmap, bit);
    LeafResumes(f.exp, fs.e, b, d, x, p);
    var r := DecodeLeaf(f.exp, fs.e, b, d, p);
    if r.Done? && r.slot.state != Empty {
      MantissaResumes(f.mnt, r.slot, fs.m, fs, pmap, BitAfter(f.exp, bit), d, x, r.next, p);
      if f.mnt.op != Constant {
        ExponentAgain(f.exp, fs.e, b, d + x, p);
      }
    }
  }

  lemma FlatResumes(f: Field, fs: FieldSlot, pmap: seq<byte>, bit: Bit, d: seq<byte>, x: seq<byte>, p: nat)
    requires p <= |d| && TypedFlat(f, fs) && RepeatableFlat(f)
    ensures FlatResumesAt(f, fs, pmap, bit, d, x, p)
  {
    if f.Single? {
      LeafResumes(f.leaf, fs.slot, BitOf(f.leaf, pmap, bit), d, x, p);
    } else if f.Pair? {
      PairResumes(f, fs, pmap, bit, d, x, p);
    }
  }
}
