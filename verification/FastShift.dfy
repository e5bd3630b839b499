/** What lies before the cursor does not matter to the FAST decoder, so that fast_session_recv of
    lib/proto/fast_session.c may compact its buffer. */
module FastShift {
  import opened Wrappers
  import opened Digits
  import opened StopBit
  import opened PresenceMap
  import opened FastField
  import opened FastFlat
  import opened FastMessage
  import opened FastDecoder

  /** The same reading, `n` bytes further on. */
  function Moved<T>(r: Read<T>, n: nat): Read<T> {
    if r.Got? then Got(r.value, n + r.next) else r
  }

  function MovedText(r: Text, n: nat): Text {
    if r.Whole? then Whole(r.s, n + r.next) else r
  }

  function MovedStep(r: Step<Slot>, n: nat): Step<Slot> {
    if r.Done? then Done(r.slot, n + r.next) else r
  }

  function MovedField(r: FieldStep, n: nat): FieldStep {
    match r
    case Ready(s, bit, p) => Ready(s, bit, n + p)
    case Later(s, p) => Later(s, n + p)
    case Broken => Broken
  }

  function MovedMicro(m: Micro, n: nat): Micro {
    match m
    case Next(s, p) => Next(s, n + p)
    case Finished(s, i, p) => Finished(s, i, n + p)
    case Waiting(s, p) => Waiting(s, n + p)
    case Failed => Failed
  }

  function MovedOutcome(r: Outcome, n: nat): Outcome {
    match r
    case Message(s, i, p) => Message(s, i, n + p)
    case NeedMore(s, p) => NeedMore(s, n + p)
    case GaveUp => GaveUp
  }

  /** The bytes `y` are those of `d` behind `n` others. */
  predicate Tail(y: seq<byte>, n: nat, d: seq<byte>) {
    |y| == n + |d| && forall i {:trigger d[i]} | 0 <= i < |d| :: y[n + i] == d[i]
  }

  lemma {:induction false} UintMoves(y: seq<byte>, n: nat, d: seq<byte>, p: nat, i: nat, acc: nat)
    requires Tail(y, n, d)
    requires p <= |d| && i <= 9
    ensures UintFrom(y, n + p, i, acc) == Moved(UintFrom(d, p, i, acc), n)
    decreases 9 - i
  {
    assert UintFrom(d, p, i, acc) == UintRound(d, p, i, acc);
    assert UintFrom(y, n + p, i, acc) == UintRound(y, n + p, i, acc);
    if i < 9 && p < |d| && d[p] < 128 {
      UintMoves(y, n, d, p + 1, i + 1, acc * 128 + d[p]);
    }
  }

  lemma {:induction false} IntMoves(y: seq<byte>, n: nat, d: seq<byte>, p: nat, i: nat, acc: int)
    requires Tail(y, n, d)
    requires p <= |d| && i <= 10
    ensures IntFrom(y, n + p, i, acc) == Moved(IntFrom(d, p, i, acc), n)
    decreases 10 - i
  {
    assert IntFrom(d, p, i, acc) == IntRound(d, p, i, acc);
    assert IntFrom(y, n + p, i, acc) == IntRound(y, n + p, i, acc);
    if i < 10 && p < |d| && d[p] < 128 {
      IntMoves(y, n, d, p + 1, i + 1, Wrap(acc * 128 + d[p]));
    }
  }

  lemma {:induction false} TextMoves(y: seq<byte>, n: nat, d: seq<byte>, p: nat, room: nat, read: seq<byte>)
    requires Tail(y, n, d)
    requires p <= |d|
    ensures TextFrom(y, n + p, room, read) == MovedText(TextFrom(d, p, room, read), n)
    decreases room
  {
    assert TextFrom(d, p, room, read) == TextRound(d, p, room, read);
    assert TextFrom(y, n + p, room, read) == TextRound(y, n + p, room, read);
    if room > 0 && p < |d| && d[p] < 128 {
      TextMoves(y, n, d, p + 1, room - 1, read + [d[p]]);
    }
  }

  lemma {:induction false} MapMoves(y: seq<byte>, n: nat, d: seq<byte>, p: nat, read: seq<byte>)
    requires Tail(y, n, d)
    requires p <= |d| && |read| <= MAX_BYTES
    ensures MapFrom(y, n + p, read) == Moved(MapFrom(d, p, read), n)
    decreases MAX_BYTES - |read|
  {
    assert MapFrom(d, p, read) == MapRound(d, p, read);
    assert MapFrom(y, n + p, read) == MapRound(y, n + p, read);
    if |read| < MAX_BYTES && p < |d| && d[p] < 128 {
      MapMoves(y, n, d, p + 1, read + [d[p]]);
    }
  }

  lemma NumbersMove(y: seq<byte>, n: nat, d: seq<byte>, p: nat)
    requires Tail(y, n, d)
    requires p <= |d|
    ensures UintAt(y, n + p) == Moved(UintAt(d, p), n)
    ensures IntAt(y, n + p) == Moved(IntAt(d, p), n)
  {
    UintMoves(y, n, d, p, 0, 0);
    if p < |d| {
      IntMoves(y, n, d, p, 0, SignOf(d[p]));
    }
  }

  // ----- fields ---------------------------------------------------------------------------

  lemma MantissaMoves(slot: Slot, exp: int, mnt: int, y: seq<byte>, n: nat, d: seq<byte>, p: nat)
    requires Tail(y, n, d)
    requires p <= |d|
    ensures ReadMantissa(slot, exp, mnt, y, n + p) == MovedStep(ReadMantissa(slot, exp, mnt, d, p), n)
  {
    NumbersMove(y, n, d, p);
  }

  lemma DecimalOnMoves(leaf: Leaf, slot: Slot, base: Value, r: Read<int>, y: seq<byte>, n: nat, d: seq<byte>)
    requires Tail(y, n, d)
    requires base.Dec? && (r.Got? ==> r.next <= |d|)
    ensures DecimalOn(leaf, slot, base, Moved(r, n), y) == MovedStep(DecimalOn(leaf, slot, base, r, d), n)
  {
    if r.Got? {
      MantissaMoves(slot, base.exp + Exponent(leaf, r.value), base.mnt, y, n, d, r.next);
    }
  }

  lemma DecimalMoves(leaf: Leaf, slot: Slot, base: Value, y: seq<byte>, n: nat, d: seq<byte>, p: nat)
    requires Tail(y, n, d)
    requires p <= |d| && base.Dec?
    ensures ReadDecimal(leaf, slot, base, y, n + p) == MovedStep(ReadDecimal(leaf, slot, base, d, p), n)
  {
    NumbersMove(y, n, d, p);
    DecimalOnMoves(leaf, slot, base, IntAt(d, p), y, n, d);
  }

  lemma ValueMoves(leaf: Leaf, slot: Slot, y: seq<byte>, n: nat, d: seq<byte>, p: nat)
    requires Tail(y, n, d)
    requires p <= |d| && Typed(leaf, slot)
    ensures ReadValue(leaf, slot, y, n + p) == MovedStep(ReadValue(leaf, slot, d, p), n)
  {
    match leaf.kind
    case Ascii => TextMoves(y, n, d, p, STRING_ROOM, []);
    case Decimal => DecimalMoves(leaf, slot, Dec(0, 0), y, n, d, p);
    case _ => NumbersMove(y, n, d, p);
  }

  lemma DeltaStringMoves(leaf: Leaf, slot: Slot, y: seq<byte>, n: nat, d: seq<byte>, p: nat)
    requires Tail(y, n, d)
    requires p <= |d| && slot.value.Str?
    ensures DeltaString(leaf, slot, y, n + p) == MovedStep(DeltaString(leaf, slot, d, p), n)
  {
    hide IntFrom, TextFrom, IntAt;
    NumbersMove(y, n, d, p);
    if IntAt(d, p).Got? {
      TextMoves(y, n, d, IntAt(d, p).next, DELTA_ROOM, []);
    }
  }

  lemma DeltaMoves(leaf: Leaf, slot: Slot, y: seq<byte>, n: nat, d: seq<byte>, p: nat)
    requires Tail(y, n, d)
    requires p <= |d| && Typed(leaf, slot)
    ensures ReadDelta(leaf, slot, y, n + p) == MovedStep(ReadDelta(leaf, slot, d, p), n)
  {
    match leaf.kind
    case Ascii => DeltaStringMoves(leaf, slot, y, n, d, p);
    case Decimal => DecimalMoves(leaf, slot, slot.value, y, n, d, p);
    case _ => NumbersMove(y, n, d, p);
  }

  lemma LeafMoves(leaf: Leaf, slot: Slot, bit: bool, y: seq<byte>, n: nat, d: seq<byte>, p: nat)
    requires Tail(y, n, d)
    requires p <= |d| && Typed(leaf, slot)
    ensures DecodeLeaf(leaf, slot, bit, y, n + p) == MovedStep(DecodeLeaf(leaf, slot, bit, d, p), n)
  {
    if leaf.op == Delta {
      DeltaMoves(leaf, slot, y, n, d, p);
    } else {
      ValueMoves(leaf, slot, y, n, d, p);
    }
  }

  lemma SingleMoves(leaf: Leaf, slot: Slot, pmap: seq<byte>, bit: Bit, y: seq<byte>, n: nat, d: seq<byte>, p: nat)
    requires Tail(y, n, d)
    requires p <= |d| && Typed(leaf, slot)
    ensures DecodeSingle(leaf, slot, pmap, bit, y, n + p) == MovedField(DecodeSingle(leaf, slot, pmap, bit, d, p), n)
  {
    LeafMoves(leaf, slot, BitOf(leaf, pmap, bit), y, n, d, p);
  }

  lemma PairMantissaMoves(mnt: Leaf, e: Slot, m: Slot, fs: FieldSlot, pmap: seq<byte>, bit: Bit, y: seq<byte>, n: nat,
                          d: seq<byte>, p: nat, start: nat)
    requires Tail(y, n, d) && p <= |d| && Typed(mnt, m) && mnt.kind == Int && e.value.Num? && fs.Two?
    ensures DecodeMantissa(mnt, e, m, fs, pmap, bit, y, n + p,
                           n + start) == MovedField(DecodeMantissa(mnt, e, m, fs, pmap, bit, d, p, start), n)
  {
    LeafMoves(mnt, m, BitOf(mnt, pmap, bit), y, n, d, p);
  }

  lemma PairOnMoves(f: Field, fs: FieldSlot, r: Step<Slot>, pmap: seq<byte>, bit: Bit, y: seq<byte>, n: nat,
                    d: seq<byte>, start: nat)
    requires Tail(y, n, d) && f.Pair? && TypedFlat(f, fs) && (r.Done? ==> r.next <= |d|)
             && (!r.Garbled? ==> Typed(f.exp, r.slot))
    ensures PairOn(f, fs, MovedStep(r, n), pmap, bit, y, n + start) == MovedField(PairOn(f, fs, r, pmap, bit, d, start),
            n)
  {
    if r.Done? {
      PairMantissaMoves(f.mnt, r.slot, fs.m, fs, pmap, bit, y, n, d, r.next, start);
    }
  }

  lemma PairMoves(f: Field, fs: FieldSlot, pmap: seq<byte>, bit: Bit, y: seq<byte>, n: nat, d: seq<byte>, p: nat)
    requires Tail(y, n, d) && p <= |d| && f.Pair? && TypedFlat(f, fs)
    ensures DecodePair(f, fs, pmap, bit, y, n + p) == MovedField(DecodePair(f, fs, pmap, bit, d, p), n)
  {
    LeafMoves(f.exp, fs.e, BitOf(f.exp, pmap, bit), y, n, d, p);
    PairOnMoves(f, fs, DecodeLeaf(f.exp, fs.e, BitOf(f.exp, pmap, bit), d, p), pmap, BitAfter(f.exp, bit), y, n, d, p);
  }

  lemma FlatMoves(f: Field, fs: FieldSlot, pmap: seq<byte>, bit: Bit, y: seq<byte>, n: nat, d: seq<byte>, p: nat)
    requires Tail(y, n, d) && p <= |d| && TypedFlat(f, fs)
    ensures DecodeFlat(f, fs, pmap, bit, y, n + p) == MovedField(DecodeFlat(f, fs, pmap, bit, d, p), n)
  {
    if f.Single? {
      SingleMoves(f.leaf, fs.slot, pmap, bit, y, n, d, p);
    } else if f.Pair? {
      PairMoves(f, fs, pmap, bit, y, n, d, p);
    }
  }

  // ----- sequences ------------------------------------------------------------------------

  function MovedRound(r: Round, n: nat): Round {
    match r
    case On(s, p) => On(s, n + p)
    case Over(s, p) => Over(s, n + p)
    case Held(s, p) => Held(s, n + p)
    case Lost => Lost
  }

  lemma RoundMoves(f: Field, fs: FieldSlot, y: seq<byte>, n: nat, d: seq<byte>, p: nat)
    requires Tail(y, n, d) && p <= |d| && f.Sequence? && TypedMany(f, fs) && fs.decoded > 0
    ensures RoundOf(f, fs, y, n + p) == MovedRound(RoundOf(f, fs, d, p), n)
  {
    if f.mapped && fs.pmap.None? {
      MapMoves(y, n, d, p, []);
    } else if fs.field < |f.elements| {
      assert TypedFlat(f.elements[fs.field], fs.work[fs.field]);
      FlatMoves(f.elements[fs.field], fs.work[fs.field], OwnMap(fs), fs.bit, y, n, d, p);
    }
  }

  ghost predicate SeqMovesAt(f: Field, fs: FieldSlot, y: seq<byte>, n: nat, d: seq<byte>, p: nat) {
    && p <= |d| && |y| == n + |d| && f.Sequence? && TypedMany(f, fs) && fs.decoded > 0
    && SeqRun(f, fs, y, n + p) == MovedRound(SeqRun(f, fs, d, p), n)
  }

  lemma {:induction false} SeqMoves(f: Field, fs: FieldSlot, y: seq<byte>, n: nat, d: seq<byte>, p: nat)
    requires Tail(y, n, d) && p <= |d| && f.Sequence? && TypedMany(f, fs) && fs.decoded > 0
    ensures SeqMovesAt(f, fs, y, n, d, p)
    decreases ELEMENTS - fs.decoded, |f.elements| - fs.field, MapsLeft(fs)
  {
    hide RoundOf, TypedMany;
    RoundIsTyped(f, fs, d, p);
    RoundMoves(f, fs, y, n, d, p);
    assert SeqRun(f, fs, d, p) == SeqRunOn(f, fs, d, p);
    assert SeqRun(f, fs, y, n + p) == SeqRunOn(f, fs, y, n + p);
    var m := RoundOf(f, fs, d, p);
    if m.On? {
      SeqMoves(f, m.slot, y, n, d, m.p);
    }
  }

  lemma ManyOnMoves(f: Field, fs: FieldSlot, r: Step<Slot>, bit: Bit, y: seq<byte>, n: nat, d: seq<byte>, start: nat)
    requires Tail(y, n, d) && f.Sequence? && TypedMany(f, fs) && fs.decoded == 0 && start <= |d|
    requires (r.Done? ==> start <= r.next <= |d|) && (!r.Garbled? ==> Typed(f.length, r.slot))
    ensures ManyOn(f, fs, MovedStep(r, n), bit, y, n + start) == MovedField(ManyOn(f, fs, r, bit, d, start), n)
  {
    if r.Done? && r.slot.state != Empty && 1 <= r.slot.value.n < ELEMENTS {
      SeqMoves(f, fs.(count := r.slot, decoded := 1), y, n, d, r.next);
    }
  }

  lemma FieldMoves(f: Field, fs: FieldSlot, pmap: seq<byte>, bit: Bit, y: seq<byte>, n: nat, d: seq<byte>, p: nat)
    requires Tail(y, n, d) && p <= |d| && TypedField(f, fs)
    ensures DecodeField(f, fs, pmap, bit, y, n + p) == MovedField(DecodeField(f, fs, pmap, bit, d, p), n)
  {
    if !f.Sequence? {
      FlatMoves(f, fs, pmap, bit, y, n, d, p);
    } else if fs.decoded > 0 {
      SeqMoves(f, fs, y, n, d, p);
    } else {
      LeafMoves(f.length, fs.count, BitOf(f.length, pmap, bit), y, n, d, p);
      ManyOnMoves(f, fs, DecodeLeaf(f.length, fs.count, BitOf(f.length, pmap, bit), d, p), BitAfter(f.length, bit), y,
                  n, d, p);
    }
  }

  // ----- messages -------------------------------------------------------------------------

  ghost predicate StepMoves(c: Config, s: Session, y: seq<byte>, n: nat, d: seq<byte>, p: nat) {
    p <= |d| && |y| == n + |d| && Valid(c, s) && MicroStep(c, s, y, n + p) == MovedMicro(MicroStep(c, s, d, p), n)
  }

  lemma MicroMoves(c: Config, s: Session, y: seq<byte>, n: nat, d: seq<byte>, p: nat)
    requires Tail(y, n, d)
    requires p <= |d| && Valid(c, s)
    ensures StepMoves(c, s, y, n, d, p)
  {
    hide MapFrom, UintAt, DecodeField, IsSet;
    if c.preambleBytes > 0 && !s.preamble {
    } else if s.pmap.None? {
      MapMoves(y, n, d, p, []);
    } else if s.msg.None? {
      NumbersMove(y, n, d, p);
    } else if s.decoded < |c.ts[s.msg.value].fields| {
      var i, k := s.msg.value, s.decoded;
      assert TypedField(c.ts[i].fields[k], s.slots[i][k]);
      FieldMoves(c.ts[i].fields[k], s.slots[i][k], s.pmap.value, s.bit, y, n, d, p);
    }
  }

  ghost predicate RunMovesAt(c: Config, s: Session, y: seq<byte>, n: nat, d: seq<byte>, p: nat) {
    p <= |d| && |y| == n + |d| && Valid(c, s) && Ahead(c, s, y, n + p) == MovedOutcome(Ahead(c, s, d, p), n)
  }

  lemma EndMoves(c: Config, s: Session, y: seq<byte>, n: nat, d: seq<byte>, p: nat)
    ensures StepMoves(c, s, y, n, d, p) && !MicroStep(c, s, d, p).Next? ==> RunMovesAt(c, s, y, n, d, p)
  {
    if StepMoves(c, s, y, n, d, p) && !MicroStep(c, s, d, p).Next? {
      assert Run(c, s, d, p) == RunOn(c, s, d, p);
      assert Run(c, s, y, n + p) == RunOn(c, s, y, n + p);
    }
  }

  /** With and without the bytes in front, the run goes on from the same session, which is nearer to its end. */
  ghost predicate Onward(c: Config, s: Session, y: seq<byte>, n: nat, d: seq<byte>, p: nat, t: Session, q: nat) {
    && RunsTo(c, s, t, d, p, q) && RunsTo(c, s, t, y, n + p, n + q)
    && (Steps(t) < Steps(s) || (Steps(t) == Steps(s) && FieldsLeft(c, t) < FieldsLeft(c, s)))
  }

  lemma StepOnward(c: Config, s: Session, y: seq<byte>, n: nat, d: seq<byte>, p: nat, t: Session, q: nat)
    ensures StepMoves(c, s, y, n, d, p) && MicroStep(c, s, d, p) == Next(t, q) ==> Onward(c, s, y, n, d, p, t, q)
  {
    hide MicroStep, Valid;
    if StepMoves(c, s, y, n, d, p) && MicroStep(c, s, d, p) == Next(t, q) {
      MicroIsValid(c, s, d, p);
      RunsStep(c, s, t, d, p, q);
      RunsStep(c, s, t, y, n + p, n + q);
    }
  }

  lemma OneStep(c: Config, s: Session, y: seq<byte>, n: nat, d: seq<byte>, p: nat)
    ensures StepMoves(c, s, y, n, d, p) ==>
      RunMovesAt(c, s, y, n, d, p) || exists t, q: nat :: Onward(c, s, y, n, d, p, t, q)
  {
    if StepMoves(c, s, y, n, d, p) {
      match MicroStep(c, s, d, p)
      case Next(t, q) => StepOnward(c, s, y, n, d, p, t, q);
      case _ => EndMoves(c, s, y, n, d, p);
    }
  }

  /** Bytes before the cursor may come or go. */
  lemma {:induction false} RunMoves(c: Config, s: Session, y: seq<byte>, n: nat, d: seq<byte>, p: nat)
    requires Tail(y, n, d) && p <= |d| && Valid(c, s)
    ensures RunMovesAt(c, s, y, n, d, p)
    decreases Steps(s), FieldsLeft(c, s)
  {
    MicroMoves(c, s, y, n, d, p);
    OneStep(c, s, y, n, d, p);
    if !RunMovesAt(c, s, y, n, d, p) {
      var t, q: nat :| Onward(c, s, y, n, d, p, t, q);
      RunMoves(c, t, y, n, d, q);
    }
  }
}
