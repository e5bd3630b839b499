/** The FAST decoder never waits in vain: whenever it asks for more bytes, fewer than 255 are unread, or fewer than
    the preamble has. With more than that in its buffer it has a message or gives up. */
module FastProgress {
  import opened Wrappers
  import opened Digits
  import opened StopBit
  import opened PresenceMap
  import opened FastField
  import opened FastFlat
  import opened FastMessage
  import opened FastDecoder
  import opened FastChunks
  import opened FastRules

  // ----- fields ---------------------------------------------------------------------------

  /** So many bytes are enough for anything that is read at once. */
  const ENOUGH: nat := 255

  lemma GotWithin<T>(r: Read<T>, d: seq<byte>, p: nat, room: nat)
    requires p <= |d| && ReadWithin(r, d, p, room)
    ensures r.Got? ==> r.next <= p + room
    ensures r.Short? ==> |d| < p + room
  {
    if r.Got? {
      var q: nat :| q < p + room && StopsAt(d, p, q);
      assert StopsAt(d, p, r.next - 1);
    }
  }

  lemma NumbersWithin(d: seq<byte>, p: nat)
    requires p <= |d|
    ensures IntAt(d, p).Got? ==> IntAt(d, p).next <= p + 10
    ensures IntAt(d, p).Short? ==> |d| < p + 10
    ensures UintAt(d, p).Short? ==> |d| < p + 9
    ensures MapAt(d, p).Short? ==> |d| < p + 8
  {
    StopBitEnds(d, p);
    GotWithin(IntAt(d, p), d, p, 10);
    GotWithin(UintAt(d, p), d, p, 9);
    GotWithin(MapAt(d, p), d, p, 8);
  }

  lemma TextsWithin(d: seq<byte>, p: nat, room: nat)
    requires p <= |d|
    ensures TextFrom(d, p, room, []).Cut? ==> |d| < p + room
  {
    TextReads(d, p, room, []);
    GotWithin(AsRead(TextFrom(d, p, room, [])), d, p, room);
  }

  lemma LeafWaits(leaf: Leaf, slot: Slot, bit: bool, d: seq<byte>, p: nat)
    requires p <= |d| && Typed(leaf, slot) && DecodeLeaf(leaf, slot, bit, d, p).Wait?
    ensures |d| < p + ENOUGH
    ensures leaf.kind == Int ==> |d| < p + 10
  {
    NumbersWithin(d, p);
    TextsWithin(d, p, STRING_ROOM);
    if IntAt(d, p).Got? {
      NumbersWithin(d, IntAt(d, p).next);
      TextsWithin(d, IntAt(d, p).next, DELTA_ROOM);
    }
  }

  lemma IntLeafUses(leaf: Leaf, slot: Slot, bit: bool, d: seq<byte>, p: nat)
    requires p <= |d| && Typed(leaf, slot) && leaf.kind == Int && DecodeLeaf(leaf, slot, bit, d, p).Done?
    ensures DecodeLeaf(leaf, slot, bit, d, p).next <= p + 10
  {
    NumbersWithin(d, p);
  }

  lemma FlatWaits(f: Field, fs: FieldSlot, pmap: seq<byte>, bit: Bit, d: seq<byte>, p: nat)
    requires p <= |d| && TypedFlat(f, fs) && DecodeFlat(f, fs, pmap, bit, d, p).Later?
    ensures DecodeFlat(f, fs, pmap, bit, d, p).next == p && |d| < p + ENOUGH
  {
    match f
    case Single(leaf) => LeafWaits(leaf, fs.slot, BitOf(leaf, pmap, bit), d, p);
    case Pair(_, e, m) =>
      var r := DecodeLeaf(e, fs.e, BitOf(e, pmap, bit), d, p);
      if r.Wait? {
        LeafWaits(e, fs.e, BitOf(e, pmap, bit), d, p);
      } else {
        IntLeafUses(e, fs.e, BitOf(e, pmap, bit), d, p);
        LeafWaits(m, fs.m, BitOf(m, pmap, BitAfter(e, bit)), d, r.next);
      }
  }

  lemma RoundWaits(f: Field, fs: FieldSlot, d: seq<byte>, p: nat)
    requires p <= |d| && f.Sequence? && TypedMany(f, fs) && fs.decoded > 0 && RoundOf(f, fs, d, p).Held?
    ensures RoundOf(f, fs, d, p).p == p && |d| < p + ENOUGH
  {
    if f.mapped && fs.pmap.None? {
      NumbersWithin(d, p);
    } else if fs.field < |f.elements| {
      assert TypedFlat(f.elements[fs.field], fs.work[fs.field]);
      FlatWaits(f.elements[fs.field], fs.work[fs.field], OwnMap(fs), fs.bit, d, p);
    }
  }

  lemma {:induction false} SequenceWaits(f: Field, fs: FieldSlot, d: seq<byte>, p: nat)
    requires p <= |d| && f.Sequence? && TypedMany(f, fs) && fs.decoded > 0
    ensures var r := SeqRun(f, fs, d, p); r.Held? ==> |d| < r.p + ENOUGH
    decreases ELEMENTS - fs.decoded, |f.elements| - fs.field, MapsLeft(fs)
  {
    hide RoundOf, TypedMany;
    RoundIsTyped(f, fs, d, p);
    assert SeqRun(f, fs, d, p) == SeqRunOn(f, fs, d, p);
    var m := RoundOf(f, fs, d, p);
    if m.On? {
      SequenceWaits(f, m.slot, d, m.p);
    } else if m.Held? {
      RoundWaits(f, fs, d, p);
    }
  }

  lemma FieldWaits(f: Field, fs: FieldSlot, pmap: seq<byte>, bit: Bit, d: seq<byte>, p: nat)
    requires p <= |d| && TypedField(f, fs) && DecodeField(f, fs, pmap, bit, d, p).Later?
    ensures |d| < DecodeField(f, fs, pmap, bit, d, p).next + ENOUGH
  {
    if !f.Sequence? {
      FlatWaits(f, fs, pmap, bit, d, p);
    } else if fs.decoded > 0 {
      SequenceWaits(f, fs, d, p);
    } else {
      var r := DecodeLeaf(f.length, fs.count, BitOf(f.length, pmap, bit), d, p);
      if r.Wait? {
        LeafWaits(f.length, fs.count, BitOf(f.length, pmap, bit), d, p);
      } else if r.Done? && r.slot.state != Empty && 1 <= r.slot.value.n < ELEMENTS {
        SequenceWaits(f, fs.(count := r.slot, decoded := 1), d, r.next);
      }
    }
  }

  // ----- messages -------------------------------------------------------------------------

  lemma StepWaits(c: Config, s: Session, d: seq<byte>, p: nat)
    requires p <= |d| && Valid(c, s) && MicroStep(c, s, d, p).Waiting?
    ensures var q := MicroStep(c, s, d, p).p; |d| < q + ENOUGH || |d| < q + c.preambleBytes
  {
    NumbersWithin(d, p);
    if !(c.preambleBytes > 0 && !s.preamble) && s.pmap.Some? && s.msg.Some? && s.decoded < |c.ts[s.msg.value].fields| {
      var i, k := s.msg.value, s.decoded;
      assert TypedField(c.ts[i].fields[k], s.slots[i][k]);
      FieldWaits(c.ts[i].fields[k], s.slots[i][k], s.pmap.value, s.bit, d, p);
    }
  }

  lemma {:induction false} RunWaits(c: Config, s: Session, d: seq<byte>, p: nat)
    requires p <= |d| && Valid(c, s)
    ensures var r := Run(c, s, d, p); r.NeedMore? ==> |d| < r.p + ENOUGH || |d| < r.p + c.preambleBytes
    decreases Steps(s), FieldsLeft(c, s)
  {
    hide MicroStep;
    MicroIsValid(c, s, d, p);
    assert Run(c, s, d, p) == RunOn(c, s, d, p);
    var m := MicroStep(c, s, d, p);
    if m.Next? {
      RunWaits(c, m.s, d, m.p);
    } else if m.Waiting? {
      StepWaits(c, s, d, p);
    }
  }

  /** However many bytes have arrived: unless the decoder has given up, all but the last 254, or less than a
      preamble, have been used by the messages it returned or by the one it is in. */
  lemma {:induction false} NeverStalls(c: Config, s: Session, d: seq<byte>, p: nat)
    requires p <= |d| && Valid(c, s)
    ensures var r := DecodeAll(c, s, d, p).end;
      r.GaveUp? || (r.NeedMore? && (|d| < r.p + ENOUGH || |d| < r.p + c.preambleBytes))
    decreases |d| - p, if s.pmap.Some? then 1 else 0
  {
    RunWaits(c, s, d, p);
    match Run(c, s, d, p)
    case Message(t, i, q) =>
      ThenMessage(c, s, d, p, t, i, q);
      NeverStalls(c, t, d, q);
    case r =>
      ThenNothing(c, s, d, p, r);
  }
}
