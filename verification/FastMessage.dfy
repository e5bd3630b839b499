/** The fields of a FAST message with its sequences: fast_decode_sequence of lib/proto/fast_message.c, which goes on at
    the field of the element where the bytes ran out. */
module FastMessage {
  import opened Wrappers
  import opened Digits
  import opened StopBit
  import opened PresenceMap
  import opened FastField
  import opened FastFlat

  const ELEMENTS: nat := 128

  // ----- sequences ------------------------------------------------------------------------

  predicate TypedWork(elements: seq<Field>, work: seq<FieldSlot>) {
    |work| == |elements| && forall k {:trigger TypedFlat(elements[k], work[k])} | 0 <= k < |elements| ::
      TypedFlat(elements[k], work[k])
  }

  predicate TypedRows(n: nat, rows: seq<seq<Shown>>) {
    |rows| == ELEMENTS && forall j | 0 <= j < ELEMENTS :: |rows[j]| == n
  }

  /** A sequence whose length is not read yet, or of whose elements at least one is still to be decoded. */
  predicate TypedMany(f: Field, fs: FieldSlot)
    requires f.Sequence?
  {
    && fs.Many? && f.length.kind == Uint && Typed(f.length, fs.count)
    && TypedWork(f.elements, fs.work) && TypedRows(|f.elements|, fs.rows) && fs.field <= |f.elements|
    && (fs.pmap.None? ==> fs.bit == -1 && (f.mapped ==> fs.field == 0))
    && (fs.pmap.Some? ==> f.mapped && fs.decoded > 0)
    && (fs.decoded == 0 ==> fs.field == 0)
    && (fs.decoded > 0 ==> fs.decoded <= fs.count.value.n < ELEMENTS)
  }

  predicate TypedField(f: Field, fs: FieldSlot) {
    if f.Sequence? then TypedMany(f, fs) else TypedFlat(f, fs)
  }

  /** What is copied to the element. */
  function ShownOf(fs: FieldSlot): Shown {
    match fs
    case One(s) => Shown(s.state, s.value)
    case Two(state, exp, mnt, _, _) => Shown(state, Dec(exp, mnt))
    case Many(_, _, _, _, _, _, _) => Shown(Undefined, Num(0))
  }

  /** The loops go on, or are done, or wait at a place, or fail. */
  datatype Round = On(slot: FieldSlot, p: nat) | Over(slot: FieldSlot, p: nat) | Held(slot: FieldSlot, p: nat) | Lost

  function MapRoundOf(fs: FieldSlot, d: seq<byte>, p: nat): (r: Round)
    requires p <= |d| && fs.Many?
    ensures r.On? ==> p < r.p <= |d|
  {
    match MapAt(d, p)
    case Got(bytes, n) => On(fs.(pmap := Some(bytes), bit := -1), n)
    case Short => Held(fs, p)
    case Bad => Lost
  }

  /** The field decoded, counted, and copied to the element. */
  function Stored(f: Field, fs: FieldSlot, s: FieldSlot, bit: Bit): FieldSlot
    requires f.Sequence? && TypedMany(f, fs) && fs.decoded > 0 && fs.field < |f.elements|
  {
    fs.(work := fs.work[fs.field := s],
        rows := fs.rows[fs.decoded := fs.rows[fs.decoded][fs.field := ShownOf(s)]],
        bit := if f.mapped then bit else -1, field := fs.field + 1)
  }

  /** What follows a field of an element. */
  function ElementOn(f: Field, fs: FieldSlot, r: FieldStep): Round
    requires f.Sequence? && TypedMany(f, fs) && fs.decoded > 0 && fs.field < |f.elements|
  {
    match r
    case Ready(s, bit, n) => On(Stored(f, fs, s, bit), n)
    case Later(s, n) => Held(fs.(work := fs.work[fs.field := s]), n)
    case Broken => Lost
  }

  /** The map of an element; without one no bit is set. */
  function OwnMap(fs: FieldSlot): seq<byte>
    requires fs.Many?
  {
    if fs.pmap.Some? then fs.pmap.value else []
  }

  function ElementRound(f: Field, fs: FieldSlot, d: seq<byte>, p: nat): (r: Round)
    requires p <= |d| && f.Sequence? && TypedMany(f, fs) && fs.decoded > 0 && fs.field < |f.elements|
    ensures r.On? ==> p <= r.p <= |d|
  {
    assert TypedFlat(f.elements[fs.field], fs.work[fs.field]);
    ElementOn(f, fs, DecodeFlat(f.elements[fs.field], fs.work[fs.field], OwnMap(fs), fs.bit, d, p))
  }

  /** The element is complete. */
  function CloseRound(fs: FieldSlot, p: nat): Round
    requires fs.Many? && fs.count.value.Num?
  {
    var t := fs.(pmap := None, bit := -1, field := 0, decoded := fs.decoded + 1);
    if fs.decoded + 1 <= fs.count.value.n then On(t, p) else Over(t.(decoded := 0), p)
  }

  function RoundOf(f: Field, fs: FieldSlot, d: seq<byte>, p: nat): (r: Round)
    requires p <= |d| && f.Sequence? && TypedMany(f, fs) && fs.decoded > 0
  {
    if f.mapped && fs.pmap.None? then MapRoundOf(fs, d, p)
    else if fs.field < |f.elements| then ElementRound(f, fs, d, p)
    else CloseRound(fs, p)
  }

  lemma WorkUpdate(elements: seq<Field>, work: seq<FieldSlot>, k: nat, s: FieldSlot)
    requires TypedWork(elements, work) && k < |elements| && TypedFlat(elements[k], s)
    ensures TypedWork(elements, work[k := s])
  {
    forall j | 0 <= j < |elements| ensures TypedFlat(elements[j], work[k := s][j]) {
      assert j == k || TypedFlat(elements[j], work[j]);
    }
  }

  /** How much of a sequence is left. */
  function MapsLeft(fs: FieldSlot): nat
    requires fs.Many?
  {
    if fs.pmap.None? then 1 else 0
  }

  lemma RoundIsTyped(f: Field, fs: FieldSlot, d: seq<byte>, p: nat)
    requires p <= |d| && f.Sequence? && TypedMany(f, fs) && fs.decoded > 0
    ensures match RoundOf(f, fs, d, p)
      case On(t, q) =>
        && TypedMany(f, t) && t.decoded > 0 && p <= q <= |d|
        && (t.decoded > fs.decoded || (t.decoded == fs.decoded && t.field > fs.field)
            || (t.decoded == fs.decoded && t.field == fs.field && MapsLeft(t) < MapsLeft(fs)))
      case Over(t, q) => TypedMany(f, t) && q == p
      case Held(t, q) => TypedMany(f, t) && t.decoded > 0 && q == p
      case Lost => true
  {
    if !(f.mapped && fs.pmap.None?) && fs.field < |f.elements| {
      assert TypedFlat(f.elements[fs.field], fs.work[fs.field]);
      var r := DecodeFlat(f.elements[fs.field], fs.work[fs.field], OwnMap(fs), fs.bit, d, p);
      if !r.Broken? {
        WorkUpdate(f.elements, fs.work, fs.field, r.slot);
      }
    }
  }

  /** Both loops of fast_decode_sequence. */
  function SeqRun(f: Field, fs: FieldSlot, d: seq<byte>, p: nat): (r: Round)
    requires p <= |d| && f.Sequence? && TypedMany(f, fs) && fs.decoded > 0
    ensures !r.On? && (!r.Lost? ==> TypedMany(f, r.slot) && p <= r.p <= |d|) && (r.Held? ==> r.slot.decoded > 0)
    decreases ELEMENTS - fs.decoded, |f.elements| - fs.field, MapsLeft(fs), 1
  {
    SeqRunOn(f, fs, d, p)
  }

  function SeqRunOn(f: Field, fs: FieldSlot, d: seq<byte>, p: nat): (r: Round)
    requires p <= |d| && f.Sequence? && TypedMany(f, fs) && fs.decoded > 0
    ensures !r.On? && (!r.Lost? ==> TypedMany(f, r.slot) && p <= r.p <= |d|) && (r.Held? ==> r.slot.decoded > 0)
    decreases ELEMENTS - fs.decoded, |f.elements| - fs.field, MapsLeft(fs), 0
  {
    RoundIsTyped(f, fs, d, p);
    match RoundOf(f, fs, d, p)
    case On(t, q) => SeqRun(f, t, d, q)
    case x => x
  }

  /** The bits of the outer map are counted only if the sequence is complete; if it has to wait they are not. */
  function Placed(r: Round, bit: Bit): FieldStep
    requires !r.On?
  {
    match r
    case Over(fs, p) => Ready(fs, bit, p)
    case Held(fs, p) => Later(fs, p)
    case Lost => Broken
  }

  /** What follows the length. */
  function ManyOn(f: Field, fs: FieldSlot, r: Step<Slot>, bit: Bit, d: seq<byte>, start: nat): (x: FieldStep)
    requires f.Sequence? && TypedMany(f, fs) && fs.decoded == 0 && start <= |d|
    requires (r.Done? ==> start <= r.next <= |d|) && (!r.Garbled? ==> Typed(f.length, r.slot))
    ensures !x.Broken? ==> TypedMany(f, x.slot) && start <= x.next <= |d|
  {
    match r
    case Wait(s) => Later(fs.(count := s), start)
    case Garbled => Broken
    case Done(s, n) =>
      if s.state == Empty then if f.mandatory then Broken else Ready(fs.(count := s), bit, n)
      else if s.value.n >= ELEMENTS then Broken
      else if s.value.n < 1 then Ready(fs.(count := s), bit, n)
      else Placed(SeqRun(f, fs.(count := s, decoded := 1), d, n), bit)
  }

  /** fast_decode_sequence */
  function DecodeMany(f: Field, fs: FieldSlot, pmap: seq<byte>, bit: Bit, d: seq<byte>, p: nat): (r: FieldStep)
    requires p <= |d| && f.Sequence? && TypedMany(f, fs)
    ensures !r.Broken? ==> TypedMany(f, r.slot) && p <= r.next <= |d|
  {
    if fs.decoded > 0 then Placed(SeqRun(f, fs, d, p), bit)
    else ManyOn(f, fs, DecodeLeaf(f.length, fs.count, BitOf(f.length, pmap, bit), d, p), BitAfter(f.length, bit), d, p)
  }

  /** The switch of fast_message_decode over the types of fields. */
  function DecodeField(f: Field, fs: FieldSlot, pmap: seq<byte>, bit: Bit, d: seq<byte>, p: nat): (r: FieldStep)
    requires p <= |d| && TypedField(f, fs)
    ensures !r.Broken? ==> TypedField(f, r.slot) && p <= r.next <= |d|
  {
    if f.Sequence? then DecodeMany(f, fs, pmap, bit, d, p) else DecodeFlat(f, fs, pmap, bit, d, p)
  }

  // ----- a field in pieces ----------------------------------------------------------------

  /** Whether a field that had to wait is decoded as if nothing had happened. */
  ghost predicate FieldResumesAt(f: Field, fs: FieldSlot, pmap: seq<byte>, bit: Bit, d: seq<byte>, e: seq<byte>, p: nat)
    requires p <= |d| && TypedField(f, fs)
  {
    var r, w := DecodeField(f, fs, pmap, bit, d, p), DecodeField(f, fs, pmap, bit, d + e, p);
    if r.Later? then DecodeField(f, r.slot, pmap, bit, d + e, r.next) == w else w == r
  }

  ghost predicate RoundResumesAt(f: Field, fs: FieldSlot, d: seq<byte>, e: seq<byte>, p: nat)
    requires p <= |d| && f.Sequence? && TypedMany(f, fs) && fs.decoded > 0
  {
    var r, w := RoundOf(f, fs, d, p), RoundOf(f, fs, d + e, p);
    if r.Held? then TypedMany(f, r.slot) && r.slot.decoded > 0 && r.p == p && RoundOf(f, r.slot, d + e, p) == w
      else w == r
  }

  /** A field that waited leaves nothing else behind. */
  lemma ElementAgain(f: Field, fs: FieldSlot, s: FieldSlot, w: FieldStep)
    requires f.Sequence? && TypedMany(f, fs) && fs.decoded > 0 && fs.field < |f.elements|
    requires TypedFlat(f.elements[fs.field], s)
    ensures var t := fs.(work := fs.work[fs.field := s]);
      TypedMany(f, t) && t.work[fs.field] == s && ElementOn(f, t, w) == ElementOn(f, fs, w)
  {
    WorkUpdate(f.elements, fs.work, fs.field, s);
    var t := fs.(work := fs.work[fs.field := s]);
    if !w.Broken? {
      assert t.work[fs.field := w.slot] == fs.work[fs.field := w.slot];
    }
  }

  lemma ElementResumes(f: Field, fs: FieldSlot, d: seq<byte>, e: seq<byte>, p: nat)
    requires p <= |d| && f.Sequence? && TypedMany(f, fs) && fs.decoded > 0 && fs.field < |f.elements|
    requires RepeatableFlat(f.elements[fs.field]) && !(f.mapped && fs.pmap.None?)
    ensures RoundResumesAt(f, fs, d, e, p)
  {
    var k := fs.field;
    assert TypedFlat(f.elements[k], fs.work[k]);
    FlatResumes(f.elements[k], fs.work[k], OwnMap(fs), fs.bit, d, e, p);
    var r := DecodeFlat(f.elements[k], fs.work[k], OwnMap(fs), fs.bit, d, p);
    if r.Later? {
      ElementAgain(f, fs, r.slot, DecodeFlat(f.elements[k], fs.work[k], OwnMap(fs), fs.bit, d + e, p));
    }
  }

  lemma RoundResumes(f: Field, fs: FieldSlot, d: seq<byte>, e: seq<byte>, p: nat)
    requires p <= |d| && f.Sequence? && TypedMany(f, fs) && fs.decoded > 0
    requires forall k | 0 <= k < |f.elements| :: RepeatableFlat(f.elements[k])
    ensures RoundResumesAt(f, fs, d, e, p)
  {
    if f.mapped && fs.pmap.None? {
      MapGrows(d, e, p, []);
    } else if fs.field < |f.elements| {
      ElementResumes(f, fs, d, e, p);
    }
  }

  ghost predicate SeqResumesAt(f: Field, fs: FieldSlot, d: seq<byte>, e: seq<byte>, p: nat)
    requires p <= |d| && f.Sequence? && TypedMany(f, fs) && fs.decoded > 0
  {
    var r, w := SeqRun(f, fs, d, p), SeqRun(f, fs, d + e, p);
    if r.Held? then r.slot.decoded > 0 && SeqRun(f, r.slot, d + e, r.p) == w else w == r
  }

  lemma {:induction false} SeqResumes(f: Field, fs: FieldSlot, d: seq<byte>, e: seq<byte>, p: nat)
    requires p <= |d| && f.Sequence? && TypedMany(f, fs) && fs.decoded > 0
    requires forall k | 0 <= k < |f.elements| :: RepeatableFlat(f.elements[k])
    ensures SeqResumesAt(f, fs, d, e, p)
    decreases ELEMENTS - fs.decoded, |f.elements| - fs.field, MapsLeft(fs)
  {
    RoundIsTyped(f, fs, d, p);
    RoundResumes(f, fs, d, e, p);
    assert SeqRun(f, fs, d, p) == SeqRunOn(f, fs, d, p);
    assert SeqRun(f, fs, d + e, p) == SeqRunOn(f, fs, d + e, p);
    var m := RoundOf(f, fs, d, p);
    if m.On? {
      SeqResumes(f, m.slot, d, e, m.p);
    } else if m.Held? {
      assert SeqRun(f, m.slot, d + e, p) == SeqRunOn(f, m.slot, d + e, p);
    }
  }

  /** A field that waits for nothing, at least if no bit is set. */
  predicate Silent(f: Field) {
    match f
    case Single(leaf) => leaf.op == Constant
    case Pair(_, e, m) => e.op == Constant && m.op == Constant
    case Sequence(_, _, _, _) => false
  }

  lemma {:induction false} NeverHeld(f: Field, fs: FieldSlot, d: seq<byte>, p: nat)
    requires p <= |d| && f.Sequence? && TypedMany(f, fs) && fs.decoded > 0
    requires !f.mapped && forall k | 0 <= k < |f.elements| :: Silent(f.elements[k])
    ensures !SeqRun(f, fs, d, p).Held?
    decreases ELEMENTS - fs.decoded, |f.elements| - fs.field, MapsLeft(fs)
  {
    RoundIsTyped(f, fs, d, p);
    assert SeqRun(f, fs, d, p) == SeqRunOn(f, fs, d, p);
    if fs.field < |f.elements| {
      assert Silent(f.elements[fs.field]);
    }
    var m := RoundOf(f, fs, d, p);
    if m.On? {
      NeverHeld(f, m.slot, d, m.p);
    }
  }

  /** Exactly these fields can be cut anywhere. A sequence whose length takes a bit of the outer map loses that bit when
      one of its elements has to wait, because the map goes back to where it was before the length. */
  predicate Repeatable(f: Field) {
    if f.Sequence? then
      && (forall k | 0 <= k < |f.elements| :: RepeatableFlat(f.elements[k]))
      && (TakesBit(f.length) ==> !f.mapped && forall k | 0 <= k < |f.elements| :: Silent(f.elements[k]))
    else RepeatableFlat(f)
  }

  /** The rest of a sequence, with the length read. */
  lemma RestResumes(f: Field, fs: FieldSlot, bit: Bit, after: Bit, d: seq<byte>, e: seq<byte>, p: nat)
    requires p <= |d| && f.Sequence? && TypedMany(f, fs) && fs.decoded > 0 && Repeatable(f)
             && (TakesBit(f.length) || after == bit)
    ensures var r, w := Placed(SeqRun(f, fs, d, p), after), Placed(SeqRun(f, fs, d + e, p), after);
      if r.Later? then TypedMany(f, r.slot) && r.slot.decoded > 0 && r.next <= |d|
        && Placed(SeqRun(f, r.slot, d + e, r.next), bit) == w
      else w == r
  {
    SeqResumes(f, fs, d, e, p);
    if TakesBit(f.length) {
      NeverHeld(f, fs, d, p);
    }
  }

  lemma ManyResumes(f: Field, fs: FieldSlot, pmap: seq<byte>, bit: Bit, d: seq<byte>, e: seq<byte>, p: nat)
    requires p <= |d| && f.Sequence? && TypedMany(f, fs) && Repeatable(f)
    ensures FieldResumesAt(f, fs, pmap, bit, d, e, p)
  {
    if fs.decoded > 0 {
      SeqResumes(f, fs, d, e, p);
    } else {
      var b := BitOf(f.length, pmap, bit);
      LeafResumes(f.length, fs.count, b, d, e, p);
      var s := DecodeLeaf(f.length, fs.count, b, d, p);
      if s.Done? && s.slot.state != Empty && 1 <= s.slot.value.n < ELEMENTS {
        RestResumes(f, fs.(count := s.slot, decoded := 1), bit, BitAfter(f.length, bit), d, e, s.next);
      }
    }
  }

  lemma FieldResumes(f: Field, fs: FieldSlot, pmap: seq<byte>, bit: Bit, d: seq<byte>, e: seq<byte>, p: nat)
    requires p <= |d| && TypedField(f, fs) && Repeatable(f)
    ensures FieldResumesAt(f, fs, pmap, bit, d, e, p)
  {
    if f.Sequence? {
      ManyResumes(f, fs, pmap, bit, d, e, p);
    } else {
      FlatResumes(f, fs, pmap, bit, d, e, p);
    }
  }
}
