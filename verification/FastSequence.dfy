/** Sequences of FAST (section 6.2.5 of FAST 1.1) as a peer may send them: the length, then the elements one after
    the other, each with a map of its own if its operators take bits. The library has no encoder for them; here is
    one to decode against. */
module FastSequence {
  import opened Wrappers
  import opened Digits
  import opened StopBit
  import opened PresenceMap
  import opened FastField
  import opened FieldEncoder
  import opened FieldRoundTrip
  import opened FastFlat
  import opened FastMessage
  import opened FastDecoder
  import opened FastEncoder
  import opened FastStream
  import opened FastRows

  // ----- what a peer sends ----------------------------------------------------------------

  /** The map of an element; one without bits still has a byte. */
  function OwnMapText(bits: seq<bool>): seq<byte> {
    if Trimmed(MapOf(bits)) == 0 then [128] else MapText(MapOf(bits))
  }

  function ElementText(f: Field, e: Fields): seq<byte>
    requires f.Sequence? && e.Fields?
  {
    if f.mapped then OwnMapText(e.bits) + e.bytes else e.bytes
  }

  function Row(f: Field, prevs: seq<FieldPrev>, values: seq<FieldSlot>): Fields
    requires f.Sequence? && TypedPrevs(f.elements, prevs) && TypedAll(f.elements, values)
  {
    EncodeFields(f.elements, prevs, values, |f.elements|)
  }

  /** The fields of one element are filled as the operators demand; its map has room. */
  ghost predicate RowFilled(f: Field, prevs: seq<FieldPrev>, values: seq<FieldSlot>) {
    && f.Sequence? && TypedPrevs(f.elements, prevs) && TypedAll(f.elements, values)
    && AllowedFields(f.elements, prevs, values)
    && (Row(f, prevs, values).Fields? ==> |Row(f, prevs, values).bits| <= 56)
  }

  function PrevsAfter(f: Field, prevs: seq<FieldPrev>, values: seq<FieldSlot>): seq<FieldPrev>
    requires f.Sequence? && TypedPrevs(f.elements, prevs) && TypedAll(f.elements, values)
  {
    var e := Row(f, prevs, values);
    if e.Fields? then e.prevs else prevs
  }

  ghost predicate RowsFilled(f: Field, prevs: seq<FieldPrev>, values: seq<seq<FieldSlot>>)
    decreases |values|
  {
    values != [] ==> RowFilled(f, prevs, values[0]) && RowsFilled(f, PrevsAfter(f, prevs, values[0]), values[1..])
  }

  /** The elements one after the other. */
  function RowsText(f: Field, prevs: seq<FieldPrev>, values: seq<seq<FieldSlot>>): seq<byte>
    requires RowsFilled(f, prevs, values)
    decreases |values|
  {
    if values == [] then []
    else
      var e := Row(f, prevs, values[0]);
      (if e.Fields? then ElementText(f, e) else []) + RowsText(f, PrevsAfter(f, prevs, values[0]), values[1..])
  }

  // ----- one element ----------------------------------------------------------------------

  lemma OwnMapArrives(bits: seq<bool>, d: seq<byte>, p: nat) returns (bytes: seq<byte>)
    requires |bits| <= 56 && StandsAt(d, p, OwnMapText(bits))
    ensures p <= |d| && MapAt(d, p) == Got(bytes, p + |OwnMapText(bits)|) && BitsAt(bytes, -1, bits)
  {
    var m := MapOf(bits);
    if Trimmed(m) == 0 {
      assert StandsAt(d, p, [128]) && [128][0] == 128 && d[p + 0] == 128;
      assert MapFrom(d, p, []) == MapRound(d, p, []) && [] + [d[p]] == [128];
      bytes := [128];
      forall j | 0 <= j < |bits| ensures IsSet(bytes, -1 + 1 + j) == bits[j] {
        NoBitOf128(j);
        TrimmedAway(m, j);
        MapHolds(bits, j);
      }
    } else {
      MapSurvives(d, p, m, 0);
      bytes := MapAt(d, p).value;
      forall j | 0 <= j < |bits| ensures IsSet(bytes, -1 + 1 + j) == bits[j] {
        MapSurvives(d, p, m, j);
        MapHolds(bits, j);
      }
    }
  }

  lemma NoBitOf128(k: nat)
    ensures !IsSet([128], k)
  {
    if k < 7 {
      NothingSet(6 - k);
      StopBitKeeps(0, 6 - k);
    }
  }

  /** A map of zeros has no bit. */
  lemma {:induction false} TrimmedAway(bytes: seq<byte>, k: nat)
    requires Trimmed(bytes) == 0
    ensures !IsSet(bytes, k)
    decreases |bytes|
  {
    if bytes != [] {
      var prev := bytes[..|bytes| - 1];
      TrimmedAway(prev, k);
      if k / 7 == |prev| {
        NothingSet(6 - k % 7);
      } else if k / 7 < |prev| {
        assert bytes[k / 7] == prev[k / 7];
      }
    }
  }

  lemma {:induction false} NoBits(f: Field, prevs: seq<FieldPrev>, values: seq<FieldSlot>, k: nat)
    requires Regular(f) && !f.mapped && TypedPrevs(f.elements, prevs) && TypedAll(f.elements, values)
    requires k <= |f.elements|
    ensures EncodeFields(f.elements, prevs, values, k).Fields? ==> EncodeFields(f.elements, prevs, values, k).bits == []
    decreases k
  {
    if k > 0 {
      NoBits(f, prevs, values, k - 1);
      assert EncodeFields(f.elements, prevs, values, k) == EncodeNext(f.elements, prevs, values, k);
      assert UsesNoBit(f.elements[k - 1]);
    }
  }

  /** An element is read back, with the dictionary coupled again. */
  ghost predicate ElementIsBack(f: Field, work: seq<FieldSlot>, values: seq<FieldSlot>, e: Fields, d: seq<byte>,
                                p: nat) {
    && Regular(f) && TypedAll(f.elements, work) && p <= |d| && e.Fields?
    && var r := DecodeElement(f, work, d, p);
       && r.Complete? && r.p == p + |ElementText(f, e)|
       && CoupledFields(f.elements, e.prevs, r.slots) && ShowsFields(f.elements, r.slots, values)
  }

  lemma ElementIs(f: Field, work: seq<FieldSlot>, values: seq<FieldSlot>, e: Fields, bytes: seq<byte>, d: seq<byte>,
                  p: nat, n: nat, slots: seq<FieldSlot>)
    requires Regular(f) && TypedAll(f.elements, work) && p <= n <= |d| && e.Fields?
    requires if f.mapped then MapAt(d, p) == Got(bytes, n) && n == p + |OwnMapText(e.bits)| else bytes == [] && n == p
    requires DecodeFrom(f.elements, work, bytes, -1, 0, d, n) == Complete(slots, -1 + |e.bits|, n + |e.bytes|)
    requires CoupledFields(f.elements, e.prevs, slots) && ShowsFields(f.elements, slots, values)
    ensures ElementIsBack(f, work, values, e, d, p)
  {
    hide DecodeFrom, DecodeOn, CoupledFields, ShowsFields, TypedAll, OwnMapText, MapAt;
  }

  lemma ElementReadsBack(f: Field, prevs: seq<FieldPrev>, work: seq<FieldSlot>, values: seq<FieldSlot>, e: Fields,
                         d: seq<byte>, p: nat)
    requires Regular(f) && TypedAll(f.elements, work) && CoupledFields(f.elements, prevs, work)
    requires RowFilled(f, prevs, values)
    requires e == Row(f, prevs, values) && e.Fields? && p <= |d| && StandsAt(d, p, ElementText(f, e))
    ensures ElementIsBack(f, work, values, e, d, p)
  {
    hide AllowedFields, CoupledFields, ShowsFields, BitsAt, OwnMapText, StandsAt, EncodeFields, ElementIsBack;
    if f.mapped {
      StandsParts(d, p, OwnMapText(e.bits), e.bytes);
      var bytes := OwnMapArrives(e.bits, d, p);
      var n := p + |OwnMapText(e.bits)|;
      EndsInside(d, n, e.bytes);
      var slots := AllFieldsReadBack(f.elements, prevs, values, work, bytes, -1, d, n);
      ElementIs(f, work, values, e, bytes, d, p, n, slots);
    } else {
      NoBits(f, prevs, values, |f.elements|);
      var none: seq<byte> := [];
      NothingAt(none);
      var slots := AllFieldsReadBack(f.elements, prevs, values, work, none, -1, d, p);
      ElementIs(f, work, values, e, none, d, p, p, slots);
    }
  }

  lemma EndsInside(d: seq<byte>, p: nat, s: seq<byte>)
    requires StandsAt(d, p, s)
    ensures p <= |d|
  {
  }

  lemma NothingAt(pmap: seq<byte>)
    ensures BitsAt(pmap, -1, [])
  {
  }

  // ----- all elements ---------------------------------------------------------------------

  ghost predicate ShowRows(f: Field, rows: seq<seq<FieldSlot>>, values: seq<seq<FieldSlot>>)
    requires f.Sequence?
  {
    |rows| == |values| && forall j | 0 <= j < |values| :: ShowsFields(f.elements, rows[j], values[j])
  }

  lemma {:induction false} RowsReadBack(f: Field, prevs: seq<FieldPrev>, work: seq<FieldSlot>,
                                        values: seq<seq<FieldSlot>>, d: seq<byte>, p: nat)
    requires Regular(f) && TypedAll(f.elements, work) && CoupledFields(f.elements, prevs, work)
    requires RowsFilled(f, prevs, values)
    requires p <= |d| && StandsAt(d, p, RowsText(f, prevs, values))
    ensures var r := DecodeElements(f, work, d, p, |values|);
      r.Decoded? && r.p == p + |RowsText(f, prevs, values)| && ShowRows(f, r.rows, values)
    decreases |values|
  {
    if values != [] {
      var e := Row(f, prevs, values[0]);
      FieldsAreSent(f.elements, prevs, work, values[0], |f.elements|);
      var after := PrevsAfter(f, prevs, values[0]);
      StandsParts(d, p, ElementText(f, e), RowsText(f, after, values[1..]));
      ElementReadsBack(f, prevs, work, values[0], e, d, p);
      var r := DecodeElement(f, work, d, p);
      RowsReadBack(f, after, r.slots, values[1..], d, r.p);
      var rest := DecodeElements(f, r.slots, d, r.p, |values| - 1);
      forall j | 0 <= j < |values| ensures ShowsFields(f.elements, ([r.slots] + rest.rows)[j], values[j]) {
        if j > 0 {
          assert values[1..][j - 1] == values[j];
        }
      }
    }
  }

  // ----- the sequence ---------------------------------------------------------------------

  /** An element of the sequence shows the value of a field. */
  predicate ShowsValue(f: Field, x: Shown, value: FieldSlot)
    requires !f.Sequence? && TypedFlat(f, value)
  {
    match f
    case Single(_) =>
      if value.slot.state == Empty then x.state == Empty else x.state == Assigned && Same(x.value, value.slot.value)
    case Pair(_, _, _) =>
      if value.state == Empty then x.state == Empty else x.state == Assigned && x.value == Dec(value.exp, value.mnt)
  }

  /** The length as the operator of the sequence sends it. */
  ghost predicate LengthSent(f: Field, prev: Slot, fs: FieldSlot, n: nat, x: Sent) {
    && f.Sequence? && fs.Many? && Coupled(f.length, prev, fs.count) && f.length.kind == Uint
    && exists state :: Allowed(f.length, prev, Slot(state, Num(n))) && state != Empty
                       && x == EncodeLeaf(f.length, prev, Slot(state, Num(n)))
  }

  lemma LengthReadsBack(f: Field, fs: FieldSlot, prev: Slot, x: Sent, n: nat, pmap: seq<byte>, bit: Bit, d: seq<byte>,
                        p: nat)
    requires LengthSent(f, prev, fs, n, x) && p <= |d| && x.Sent? && StandsAt(d, p, x.bytes)
    requires BitsAt(pmap, bit, Bits(f.length, x.bit)) && Typed(f.length, fs.count)
    ensures p + |x.bytes| <= |d| && BitAfter(f.length, bit) == bit + |Bits(f.length, x.bit)|
    ensures DecodeLeaf(f.length, fs.count, BitOf(f.length, pmap, bit), d, p) == Done(Slot(Assigned, Num(n)),
            p + |x.bytes|)
  {
    var state :| Allowed(f.length, prev, Slot(state, Num(n))) && state != Empty
                 && x == EncodeLeaf(f.length, prev, Slot(state, Num(n)));
    LeafInMap(f.length, prev, fs.count, Slot(state, Num(n)), pmap, bit, d, p);
  }

  /** What a peer sends of a sequence of 1 to 127 elements is decoded to these elements: field `k` of element `j`
      shows what was sent for it, and the other elements are untouched. */
  lemma SequenceReadsBack(f: Field, fs: FieldSlot, lengthPrev: Slot, x: Sent, prevs: seq<FieldPrev>,
                          values: seq<seq<FieldSlot>>, pmap: seq<byte>, bit: Bit, d: seq<byte>, p: nat)
    requires Regular(f) && TypedMany(f, fs) && fs.decoded == 0 && TypedAll(f.elements, fs.work) && 1 <= |values| <= 127
    requires LengthSent(f, lengthPrev, fs, |values|, x) && CoupledFields(f.elements, prevs, fs.work)
    requires RowsFilled(f, prevs, values)
    requires p <= |d| && x.Sent? && StandsAt(d, p, x.bytes + RowsText(f, prevs, values))
    requires BitsAt(pmap, bit, Bits(f.length, x.bit))
    ensures var r := DecodeMany(f, fs, pmap, bit, d, p);
      && r.Ready? && r.next == p + |x.bytes| + |RowsText(f, prevs, values)| && r.bit == bit + |Bits(f.length, x.bit)|
      && r.slot.Many? && r.slot.decoded == 0 && HoldRows(f, fs.rows, r.slot.rows, values)
  {
    hide HoldRows, CoupledFields, StandsAt, BitsAt, IsSet, RowsFilled, UsesNoBit, LengthSent;
    StandsParts(d, p, x.bytes, RowsText(f, prevs, values));
    LengthReadsBack(f, fs, lengthPrev, x, |values|, pmap, bit, d, p);
    SequenceIsElements(f, fs, pmap, bit, d, p);
    RowsReadBack(f, prevs, fs.work, values, d, p + |x.bytes|);
    var e := DecodeElements(f, fs.work, d, p + |x.bytes|, |values|);
    RowsAreHeld(f, fs.rows, e.rows, values);
  }

  /** The rows from 1 on show the values; the others are as they were. */
  ghost predicate HoldRows(f: Field, was: seq<seq<Shown>>, now: seq<seq<Shown>>, values: seq<seq<FieldSlot>>)
    requires Regular(f)
  {
    && |now| == |was|
    && (forall j, k | 0 <= j < |values| && 0 <= k < |f.elements| :: HoldsAt(f, now, values, j, k))
    && (forall j | 0 <= j < |was| && !(1 <= j <= |values|) :: now[j] == was[j])
  }

  /** Field `k` of element `j`, which is in row `j`+1, shows what was sent for it. */
  ghost predicate HoldsAt(f: Field, now: seq<seq<Shown>>, values: seq<seq<FieldSlot>>, j: nat, k: nat)
    requires Regular(f) && j < |values| && k < |f.elements|
  {
    && j + 1 < |now| && |now[j + 1]| == |values[j]| == |f.elements| && TypedFlat(f.elements[k], values[j][k])
    && ShowsValue(f.elements[k], now[j + 1][k], values[j][k])
  }

  lemma RowsAreHeld(f: Field, was: seq<seq<Shown>>, rows: seq<seq<FieldSlot>>, values: seq<seq<FieldSlot>>)
    requires Regular(f) && ShowRows(f, rows, values) && |values| < |was|
    ensures HoldRows(f, was, Filled(was, 1, rows), values)
  {
    hide TypedFlat, ShowsValue, ShowsFields, TypedField, ShowsField;
    forall j, k | 0 <= j < |values| && 0 <= k < |f.elements|
      ensures HoldsAt(f, Filled(was, 1, rows), values, j, k)
    {
      RowShows(f, rows, values, j, k);
    }
  }

  lemma RowShows(f: Field, rows: seq<seq<FieldSlot>>, values: seq<seq<FieldSlot>>, j: nat, k: nat)
    requires Regular(f) && ShowRows(f, rows, values) && j < |values| && k < |f.elements|
    ensures |rows[j]| == |values[j]| == |f.elements| && TypedFlat(f.elements[k], values[j][k])
    ensures ShowsValue(f.elements[k], RowOf(rows[j])[k], values[j][k])
  {
    assert ShowsFields(f.elements, rows[j], values[j]);
    assert TypedField(f.elements[k], rows[j][k]) && ShowsField(f.elements[k], rows[j][k], values[j][k]);
  }
}
