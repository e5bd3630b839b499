/** A stream of FAST messages that the encoder sent is decoded to the same messages (FAST 1.1, sections 6.3, 10.5
    and 10.6): the dictionaries of both sides stay coupled from message to message. */
module FastStream {
  import opened Wrappers
  import opened Digits
  import opened StopBit
  import opened PresenceMap
  import opened FastField
  import opened FieldEncoder
  import opened FastFlat
  import opened FastMessage
  import opened FastDecoder
  import opened FastEncoder

  // ----- the fields of a message ----------------------------------------------------------

  /** The bits and bytes of the fields, what the encoder remembers and the fields as they are left. */
  datatype Fields = Fields(bits: seq<bool>, bytes: seq<byte>, prevs: seq<FieldPrev>, now: seq<FieldSlot>) | NoFields

  predicate TypedPrevs(fields: seq<Field>, prevs: seq<FieldPrev>) {
    |prevs| == |fields| && forall k {:trigger TypedPrev(fields[k], prevs[k])} | 0 <= k < |fields| ::
      TypedPrev(fields[k], prevs[k])
  }

  /** One field more. */
  function Append(f: Fields, x: FieldSent): (r: Fields)
    ensures r.Fields? <==> f.Fields? && x.FieldSent?
    ensures r.Fields? ==> |r.prevs| == |f.prevs| + 1 && |r.now| == |f.now| + 1 && |r.bytes| == |f.bytes| + |x.bytes|
  {
    if f.Fields? && x.FieldSent? then Fields(f.bits + x.bits, f.bytes + x.bytes, f.prevs + [x.prev], f.now + [x.now])
    else NoFields
  }

  /** The loop of fast_message_encode after `k` fields. */
  function EncodeFields(fields: seq<Field>, prevs: seq<FieldPrev>, values: seq<FieldSlot>, k: nat): (r: Fields)
    requires TypedPrevs(fields, prevs) && TypedAll(fields, values) && k <= |fields|
    ensures r.Fields? ==> |r.prevs| == k && |r.now| == k
    decreases k, 1
  {
    if k == 0 then Fields([], [], [], []) else EncodeNext(fields, prevs, values, k)
  }

  function EncodeNext(fields: seq<Field>, prevs: seq<FieldPrev>, values: seq<FieldSlot>, k: nat): (r: Fields)
    requires TypedPrevs(fields, prevs) && TypedAll(fields, values) && 0 < k <= |fields|
    ensures r.Fields? ==> |r.prevs| == k && |r.now| == k
    decreases k, 0
  {
    Append(EncodeFields(fields, prevs, values, k - 1), EncodeField(fields[k - 1], prevs[k - 1], values[k - 1]))
  }

  /** The presence map of a message. */
  function MapPart(bits: seq<bool>): seq<byte> {
    FirstBitIsSet(bits);
    MapText(MapOf([true] + bits))
  }

  /** fast_message_encode: the map, the identifier of the template, the fields. */
  function MessageText(tid: nat, f: Fields): seq<byte>
    requires f.Fields?
  {
    FirstBitIsSet(f.bits);
    MapText(MapOf([true] + f.bits)) + (UintText(tid) + f.bytes)
  }

  lemma FirstBitIsSet(bits: seq<bool>)
    ensures Trimmed(MapOf([true] + bits)) > 0
  {
    MapHolds([true] + bits, 0);
    TrimmedKeeps(MapOf([true] + bits), 0);
  }

  // ----- coupling and contract ------------------------------------------------------------

  predicate CoupledFields(fields: seq<Field>, prevs: seq<FieldPrev>, slots: seq<FieldSlot>) {
    |prevs| == |slots| == |fields| &&
    forall k {:trigger CoupledField(fields[k], prevs[k], slots[k])} | 0 <= k < |fields| ::
      CoupledField(fields[k], prevs[k], slots[k])
  }

  predicate AllowedFields(fields: seq<Field>, prevs: seq<FieldPrev>, values: seq<FieldSlot>) {
    |prevs| == |values| == |fields| &&
    forall k {:trigger AllowedField(fields[k], prevs[k], values[k])} | 0 <= k < |fields| ::
      AllowedField(fields[k], prevs[k], values[k])
  }

  predicate ShowsFields(fields: seq<Field>, slots: seq<FieldSlot>, values: seq<FieldSlot>) {
    |slots| == |values| == |fields| &&
    forall k | 0 <= k < |fields| :: TypedField(fields[k], slots[k]) && TypedField(fields[k], values[k])
                                    && ShowsField(fields[k], slots[k], values[k])
  }

  // ----- decoding the fields one after the other ------------------------------------------

  /** The first `k` fields. */
  predicate AreBack(fields: seq<Field>, prevs: seq<FieldPrev>, slots: seq<FieldSlot>, values: seq<FieldSlot>, k: nat) {
    k == |prevs| <= |fields| == |slots| == |values| &&
    forall j {:trigger FieldIsBack(fields[j], prevs[j], slots[j], values[j])} | 0 <= j < k ::
      FieldIsBack(fields[j], prevs[j], slots[j], values[j])
  }

  predicate FieldIsBack(f: Field, prev: FieldPrev, slot: FieldSlot, value: FieldSlot) {
    CoupledField(f, prev, slot) && TypedField(f, value) && ShowsField(f, slot, value)
  }

  /** The fields of a message from the one with number `k` on. */
  datatype Rest = Complete(slots: seq<FieldSlot>, bit: Bit, p: nat) | Stuck

  function DecodeFrom(fields: seq<Field>, slots: seq<FieldSlot>, pmap: seq<byte>, bit: Bit, k: nat, d: seq<byte>,
                      p: nat): (r: Rest)
    requires TypedAll(fields, slots) && k <= |fields| && p <= |d|
    decreases |fields| - k, 1
  {
    DecodeOn(fields, slots, pmap, bit, k, d, p)
  }

  function DecodeOn(fields: seq<Field>, slots: seq<FieldSlot>, pmap: seq<byte>, bit: Bit, k: nat, d: seq<byte>,
                    p: nat): (r: Rest)
    requires TypedAll(fields, slots) && k <= |fields| && p <= |d|
    decreases |fields| - k, 0
  {
    if k == |fields| then Complete(slots, bit, p)
    else
      assert TypedField(fields[k], slots[k]);
      match DecodeField(fields[k], slots[k], pmap, bit, d, p)
      case Ready(fs, b, n) =>
        TypedUpdate(fields, slots, k, fs);
        DecodeFrom(fields, slots[k := fs], pmap, b, k + 1, d, n)
      case _ => Stuck
  }

  lemma TypedUpdate(fields: seq<Field>, slots: seq<FieldSlot>, k: nat, fs: FieldSlot)
    requires TypedAll(fields, slots) && k < |fields| && TypedField(fields[k], fs)
    ensures TypedAll(fields, slots[k := fs])
  {
    forall j | 0 <= j < |fields| ensures TypedField(fields[j], slots[k := fs][j]) {
      assert j == k || TypedField(fields[j], slots[j]);
    }
  }

  /** Decoding goes on from field `j` as it does from field `k`. */
  ghost predicate FieldsLead(fields: seq<Field>, pmap: seq<byte>, d: seq<byte>, slots: seq<FieldSlot>, bit: Bit, k: nat,
                             p: nat, now: seq<FieldSlot>, b: Bit, j: nat, q: nat) {
    && TypedAll(fields, slots) && TypedAll(fields, now) && k <= |fields| && j <= |fields| && p <= |d| && q <= |d|
    && DecodeFrom(fields, slots, pmap, bit, k, d, p) == DecodeFrom(fields, now, pmap, b, j, d, q)
  }

  lemma LeadStep(fields: seq<Field>, pmap: seq<byte>, d: seq<byte>, slots: seq<FieldSlot>, bit: Bit, k: nat, p: nat,
                 fs: FieldSlot, b: Bit, q: nat)
    ensures TypedAll(fields, slots) && k < |fields| && p <= |d| && TypedField(fields[k], slots[k])
            && DecodeField(fields[k], slots[k], pmap, bit, d, p) == Ready(fs, b, q) ==>
      FieldsLead(fields, pmap, d, slots, bit, k, p, slots[k := fs], b, k + 1, q)
  {
    if TypedAll(fields, slots) && k < |fields| && p <= |d| && TypedField(fields[k], slots[k])
       && DecodeField(fields[k], slots[k], pmap, bit, d, p) == Ready(fs, b, q) {
      TypedUpdate(fields, slots, k, fs);
      assert DecodeFrom(fields, slots, pmap, bit, k, d, p) == DecodeOn(fields, slots, pmap, bit, k, d, p);
    }
  }

  lemma LeadsOn(fields: seq<Field>, pmap: seq<byte>, d: seq<byte>, x: seq<FieldSlot>, a: Bit, i: nat, p: nat,
                y: seq<FieldSlot>, b: Bit, j: nat, q: nat, z: seq<FieldSlot>, c: Bit, k: nat, r: nat)
    ensures FieldsLead(fields, pmap, d, x, a, i, p, y, b, j, q)
            && FieldsLead(fields, pmap, d, y, b, j, q, z, c, k, r) ==>
      FieldsLead(fields, pmap, d, x, a, i, p, z, c, k, r)
  {
  }

  /** Within the contract the encoder refuses nothing. */
  lemma {:induction false} FieldsAreSent(fields: seq<Field>, prevs: seq<FieldPrev>, slots: seq<FieldSlot>,
                                         values: seq<FieldSlot>, k: nat)
    requires CoupledFields(fields, prevs, slots) && AllowedFields(fields, prevs, values) && k <= |fields|
    requires TypedPrevs(fields, prevs) && TypedAll(fields, values)
    ensures EncodeFields(fields, prevs, values, k).Fields?
    decreases k
  {
    if k > 0 {
      FieldsAreSent(fields, prevs, slots, values, k - 1);
      var nothing: seq<byte> := [];
      FieldReadsBack(fields[k - 1], prevs[k - 1], slots[k - 1], values[k - 1], [], 0, nothing, 0);
      assert EncodeNext(fields, prevs, values, k).Fields?;
    }
  }

  /** One more field is one more round of the encoder's loop. */
  lemma FieldsGrow(fields: seq<Field>, prevs: seq<FieldPrev>, values: seq<FieldSlot>, k: nat)
    requires TypedPrevs(fields, prevs) && TypedAll(fields, values) && k < |fields|
    requires EncodeFields(fields, prevs, values, k + 1).Fields?
    ensures var x, y, z := EncodeFields(fields, prevs, values, k), EncodeField(fields[k], prevs[k], values[k]),
                           EncodeFields(fields, prevs, values, k + 1);
      && x.Fields? && y.FieldSent? && z.bits == x.bits + y.bits && z.bytes == x.bytes + y.bytes
      && z.prevs == x.prevs + [y.prev] && z.now == x.now + [y.now]
  {
    assert EncodeFields(fields, prevs, values, k + 1) == EncodeNext(fields, prevs, values, k + 1);
  }

  lemma SplitField(d: seq<byte>, p: nat, pmap: seq<byte>, first: Bit, f: Fields, x: FieldSent, g: Fields)
    requires f.Fields? && x.FieldSent? && g.Fields? && g.bits == f.bits + x.bits && g.bytes == f.bytes + x.bytes
    requires StandsAt(d, p, g.bytes) && BitsAt(pmap, first, g.bits)
    ensures StandsAt(d, p, f.bytes) && BitsAt(pmap, first, f.bits)
    ensures p + |f.bytes| <= |d| && StandsAt(d, p + |f.bytes|, x.bytes) && BitsAt(pmap, first + |f.bits|, x.bits)
    ensures |g.bytes| == |f.bytes| + |x.bytes|
  {
    StandsParts(d, p, f.bytes, x.bytes);
    BitsParts(pmap, first, f.bits, x.bits);
  }

  /** What stands where more fields stand. */
  lemma FewerFields(fields: seq<Field>, prevs: seq<FieldPrev>, values: seq<FieldSlot>, k: nat, d: seq<byte>, p: nat,
                    pmap: seq<byte>, first: Bit)
    requires TypedPrevs(fields, prevs) && TypedAll(fields, values) && k < |fields|
    ensures var f, g := EncodeFields(fields, prevs, values, k), EncodeFields(fields, prevs, values, k + 1);
      g.Fields? && StandsAt(d, p, g.bytes) && BitsAt(pmap, first, g.bits) ==>
        f.Fields? && StandsAt(d, p, f.bytes) && BitsAt(pmap, first, f.bits)
  {
    var g := EncodeFields(fields, prevs, values, k + 1);
    if g.Fields? && StandsAt(d, p, g.bytes) && BitsAt(pmap, first, g.bits) {
      FieldsGrow(fields, prevs, values, k);
      SplitField(d, p, pmap, first, EncodeFields(fields, prevs, values, k), EncodeField(fields[k], prevs[k], values[k]),
                 g);
    }
  }

  /** After `k` fields: these are back, the others are as they were. */
  ghost predicate Partway(fields: seq<Field>, prevs: seq<FieldPrev>, values: seq<FieldSlot>, before: seq<FieldSlot>,
                          slots: seq<FieldSlot>, k: nat)
    requires TypedPrevs(fields, prevs) && TypedAll(fields, values) && k <= |fields|
  {
    && EncodeFields(fields, prevs, values, k).Fields? && |before| == |slots| == |fields|
    && AreBack(fields, EncodeFields(fields, prevs, values, k).prevs, slots, values, k)
    && slots[k..] == before[k..]
  }

  lemma PartwayGrows(fields: seq<Field>, prevs: seq<FieldPrev>, values: seq<FieldSlot>, before: seq<FieldSlot>,
                     slots: seq<FieldSlot>, k: nat, fs: FieldSlot, x: FieldSent)
    requires TypedPrevs(fields, prevs) && TypedAll(fields, values) && k < |fields| && |slots| == |fields|
    requires EncodeFields(fields, prevs, values, k + 1).Fields?
    ensures Partway(fields, prevs, values, before, slots, k)
            && x.FieldSent? && EncodeFields(fields, prevs, values, k + 1).prevs == EncodeFields(fields, prevs, values,
               k).prevs + [x.prev]
            && FieldIsBack(fields[k], x.prev, fs, values[k]) ==>
      Partway(fields, prevs, values, before, slots[k := fs], k + 1)
  {
    var f, g := EncodeFields(fields, prevs, values, k), EncodeFields(fields, prevs, values, k + 1);
    if Partway(fields, prevs, values, before, slots, k) && x.FieldSent? && g.prevs == f.prevs + [x.prev]
       && FieldIsBack(fields[k], x.prev, fs, values[k]) {
      forall j | 0 <= j < k + 1 ensures FieldIsBack(fields[j], g.prevs[j], slots[k := fs][j], values[j]) {
        assert j == k || FieldIsBack(fields[j], f.prevs[j], slots[j], values[j]);
      }
      assert slots[k := fs][k + 1..] == slots[k..][1..] == before[k + 1..];
    }
  }

  /** The first `k` fields of a message, sent within the contract, stand at `p` and their bits in the map. */
  ghost predicate Standing(fields: seq<Field>, prevs: seq<FieldPrev>, values: seq<FieldSlot>, before: seq<FieldSlot>,
                           pmap: seq<byte>, first: Bit, k: nat, d: seq<byte>, p: nat) {
    && TypedPrevs(fields, prevs) && TypedAll(fields, values) && TypedAll(fields, before) && k <= |fields|
    && CoupledFields(fields, prevs, before) && AllowedFields(fields, prevs, values)
    && var f := EncodeFields(fields, prevs, values, k);
       f.Fields? && p <= |d| && StandsAt(d, p, f.bytes) && BitsAt(pmap, first, f.bits)
  }

  /** ... and have been decoded. */
  ghost predicate Reached(fields: seq<Field>, prevs: seq<FieldPrev>, values: seq<FieldSlot>, before: seq<FieldSlot>,
                          slots: seq<FieldSlot>, pmap: seq<byte>, first: Bit, k: nat, d: seq<byte>, p: nat) {
    && TypedPrevs(fields, prevs) && TypedAll(fields, values) && k <= |fields|
    && Partway(fields, prevs, values, before, slots, k)
    && var f := EncodeFields(fields, prevs, values, k);
       FieldsLead(fields, pmap, d, before, first, 0, p, slots, first + |f.bits|, k, p + |f.bytes|)
  }

  lemma StandingFewer(fields: seq<Field>, prevs: seq<FieldPrev>, values: seq<FieldSlot>, before: seq<FieldSlot>,
                      pmap: seq<byte>, first: Bit, k: nat, d: seq<byte>, p: nat)
    ensures Standing(fields, prevs, values, before, pmap, first, k + 1, d, p) ==>
      Standing(fields, prevs, values, before, pmap, first, k, d, p)
  {
    if Standing(fields, prevs, values, before, pmap, first, k + 1, d, p) {
      FewerFields(fields, prevs, values, k, d, p, pmap, first);
    }
  }

  lemma ReadOne(f: Field, prev: FieldPrev, slot: FieldSlot, value: FieldSlot, x: FieldSent, pmap: seq<byte>, bit: Bit,
                d: seq<byte>, p: nat) returns (fs: FieldSlot)
    ensures p <= |d| && CoupledField(f, prev, slot) && AllowedField(f, prev, value) && x == EncodeField(f, prev, value)
            && x.FieldSent? && StandsAt(d, p, x.bytes) && BitsAt(pmap, bit, x.bits) ==>
      DecodeField(f, slot, pmap, bit, d, p) == Ready(fs, bit + |x.bits|, p + |x.bytes|)
        && FieldIsBack(f, x.prev, fs, value)
  {
    fs := slot;
    if p <= |d| && CoupledField(f, prev, slot) && AllowedField(f, prev, value) && x == EncodeField(f, prev, value)
       && x.FieldSent? && StandsAt(d, p, x.bytes) && BitsAt(pmap, bit, x.bits) {
      FieldReadsBack(f, prev, slot, value, pmap, bit, d, p);
      fs := DecodeField(f, slot, pmap, bit, d, p).slot;
    }
  }

  /** The part of the bytes and of the bits that belongs to field `k`. */
  lemma PartOf(fields: seq<Field>, prevs: seq<FieldPrev>, values: seq<FieldSlot>, before: seq<FieldSlot>,
               pmap: seq<byte>, first: Bit, k: nat, d: seq<byte>, p: nat)
      returns (x: FieldSent)
    ensures Standing(fields, prevs, values, before, pmap, first, k + 1, d, p) ==>
      && CoupledField(fields[k], prevs[k], before[k]) && AllowedField(fields[k], prevs[k], values[k])
      && x == EncodeField(fields[k], prevs[k], values[k]) && x.FieldSent?
      && var f, g := EncodeFields(fields, prevs, values, k), EncodeFields(fields, prevs, values, k + 1);
         && f.Fields? && p + |f.bytes| <= |d| && StandsAt(d, p + |f.bytes|, x.bytes)
            && BitsAt(pmap, first + |f.bits|, x.bits)
         && |g.bits| == |f.bits| + |x.bits| && |g.bytes| == |f.bytes| + |x.bytes| && g.prevs == f.prevs + [x.prev]
  {
    hide EncodeField, CoupledField, AllowedField, DecodeField, FieldIsBack, TypedField, TypedPrev;
    x := FieldRefused;
    if Standing(fields, prevs, values, before, pmap, first, k + 1, d, p) {
      assert CoupledField(fields[k], prevs[k], before[k]) && AllowedField(fields[k], prevs[k], values[k]);
      FieldsGrow(fields, prevs, values, k);
      x := EncodeField(fields[k], prevs[k], values[k]);
      SplitField(d, p, pmap, first, EncodeFields(fields, prevs, values, k), x,
                 EncodeFields(fields, prevs, values, k + 1));
    }
  }

  /** Field `k` is decoded to `fs`, and decoding goes on behind it. */
  ghost predicate Taken(fields: seq<Field>, slots: seq<FieldSlot>, pmap: seq<byte>, k: nat, bit: Bit, d: seq<byte>,
                        q: nat, x: FieldSent, value: FieldSlot, fs: FieldSlot) {
    && k < |fields| == |slots| && x.FieldSent? && FieldIsBack(fields[k], x.prev, fs, value)
    && FieldsLead(fields, pmap, d, slots, bit, k, q, slots[k := fs], bit + |x.bits|, k + 1, q + |x.bytes|)
  }

  lemma TakenIs(fields: seq<Field>, slots: seq<FieldSlot>, pmap: seq<byte>, k: nat, bit: Bit, d: seq<byte>, q: nat,
                x: FieldSent, value: FieldSlot, fs: FieldSlot)
    ensures k < |fields| && TypedAll(fields, slots) && x.FieldSent? && FieldIsBack(fields[k], x.prev, fs, value)
            && q <= |d|
            && TypedField(fields[k], slots[k])
            && DecodeField(fields[k], slots[k], pmap, bit, d, q) == Ready(fs, bit + |x.bits|, q + |x.bytes|) ==>
      Taken(fields, slots, pmap, k, bit, d, q, x, value, fs)
  {
    if x.FieldSent? {
      LeadStep(fields, pmap, d, slots, bit, k, q, fs, bit + |x.bits|, q + |x.bytes|);
    }
  }

  /** One field: what the encoder sent for it is what the decoder takes. */
  lemma TakesOne(fields: seq<Field>, slots: seq<FieldSlot>, prev: FieldPrev, value: FieldSlot, x: FieldSent,
                 pmap: seq<byte>, k: nat, bit: Bit, d: seq<byte>, q: nat)
    ensures TypedAll(fields, slots) && k < |fields| && q <= |d| && CoupledField(fields[k], prev, slots[k])
            && AllowedField(fields[k], prev, value) && x == EncodeField(fields[k], prev, value) && x.FieldSent?
            && StandsAt(d, q, x.bytes) && BitsAt(pmap, bit, x.bits) ==>
      exists fs :: Taken(fields, slots, pmap, k, bit, d, q, x, value, fs)
  {
    if TypedAll(fields, slots) && k < |fields| && q <= |d| && CoupledField(fields[k], prev, slots[k])
       && AllowedField(fields[k], prev, value) && x == EncodeField(fields[k], prev, value) && x.FieldSent?
       && StandsAt(d, q, x.bytes) && BitsAt(pmap, bit, x.bits) {
      var fs := ReadOne(fields[k], prev, slots[k], value, x, pmap, bit, d, q);
      TakenIs(fields, slots, pmap, k, bit, d, q, x, value, fs);
    }
  }

  /** What the encoder sent for field `k`, as part of the message. */
  ghost predicate SentAs(fields: seq<Field>, prevs: seq<FieldPrev>, values: seq<FieldSlot>, k: nat, x: FieldSent)
    requires TypedPrevs(fields, prevs) && TypedAll(fields, values) && k < |fields|
  {
    var f, g := EncodeFields(fields, prevs, values, k), EncodeFields(fields, prevs, values, k + 1);
    && f.Fields? && g.Fields? && x.FieldSent?
    && |g.bits| == |f.bits| + |x.bits| && |g.bytes| == |f.bytes| + |x.bytes| && g.prevs == f.prevs + [x.prev]
  }

  /** Where a message stands and `k` fields are decoded, one more is taken. */
  lemma NextTaken(fields: seq<Field>, prevs: seq<FieldPrev>, values: seq<FieldSlot>, before: seq<FieldSlot>,
                  slots: seq<FieldSlot>, pmap: seq<byte>, first: Bit, k: nat, d: seq<byte>, p: nat, f: Fields)
      returns (x: FieldSent, bit: Bit, q: nat)
    requires Standing(fields, prevs, values, before, pmap, first, k + 1, d, p) && TypedAll(fields, slots)
    requires slots[k] == before[k]
    requires f == EncodeFields(fields, prevs, values, k)
    ensures SentAs(fields, prevs, values, k, x) && bit == first + |f.bits| && q == p + |f.bytes|
    ensures exists fs :: Taken(fields, slots, pmap, k, bit, d, q, x, values[k], fs)
  {
    hide EncodeField, CoupledField, AllowedField, DecodeField, FieldIsBack, TypedField, TypedPrev;
    x := PartOf(fields, prevs, values, before, pmap, first, k, d, p);
    bit, q := first + |f.bits|, p + |f.bytes|;
    TakesOne(fields, slots, prevs[k], values[k], x, pmap, k, bit, d, q);
  }

  lemma ReachedIs(fields: seq<Field>, prevs: seq<FieldPrev>, values: seq<FieldSlot>, before: seq<FieldSlot>,
                  slots: seq<FieldSlot>, pmap: seq<byte>, first: Bit, k: nat, d: seq<byte>, p: nat, f: Fields)
    ensures TypedPrevs(fields, prevs) && TypedAll(fields, values) && k <= |fields|
            && f == EncodeFields(fields, prevs, values, k)
            && Partway(fields, prevs, values, before, slots, k)
            && FieldsLead(fields, pmap, d, before, first, 0, p, slots, first + |f.bits|, k, p + |f.bytes|) ==>
      Reached(fields, prevs, values, before, slots, pmap, first, k, d, p)
  {
  }

  /** A field that is taken is one more that is back. */
  lemma ReachedMore(fields: seq<Field>, prevs: seq<FieldPrev>, values: seq<FieldSlot>, before: seq<FieldSlot>,
                    slots: seq<FieldSlot>,
                    pmap: seq<byte>, first: Bit, k: nat, n: nat, d: seq<byte>, p: nat, x: FieldSent, fs: FieldSlot,
                      f: Fields, g: Fields)
    ensures Reached(fields, prevs, values, before, slots, pmap, first, k, d, p) && k < |fields| && n == k + 1
            && f == EncodeFields(fields, prevs, values, k) && g == EncodeFields(fields, prevs, values, n)
               && SentAs(fields, prevs, values, k, x)
            && Taken(fields, slots, pmap, k, first + |f.bits|, d, p + |f.bytes|, x, values[k], fs) ==>
      exists now :: Reached(fields, prevs, values, before, now, pmap, first, n, d, p)
  {
    hide EncodeField, CoupledField, AllowedField, DecodeField, FieldIsBack, TypedField, TypedPrev;
    if Reached(fields, prevs, values, before, slots, pmap, first, k, d, p) && k < |fields| && n == k + 1
       && f == EncodeFields(fields, prevs, values, k) && g == EncodeFields(fields, prevs, values, n)
          && SentAs(fields, prevs, values, k, x)
       && Taken(fields, slots, pmap, k, first + |f.bits|, d, p + |f.bytes|, x, values[k], fs) {
      PartwayGrows(fields, prevs, values, before, slots, k, fs, x);
      LeadsOn(fields, pmap, d, before, first, 0, p, slots, first + |f.bits|, k, p + |f.bytes|, slots[k := fs],
              first + |g.bits|, n, p + |g.bytes|);
      ReachedIs(fields, prevs, values, before, slots[k := fs], pmap, first, n, d, p, g);
    }
  }

  /** The fields of a message come back one after the other. */
  lemma {:induction false} FieldsReadBack(fields: seq<Field>, prevs: seq<FieldPrev>, values: seq<FieldSlot>,
                                          before: seq<FieldSlot>, pmap: seq<byte>, first: Bit, k: nat, d: seq<byte>,
                                            p: nat)
    ensures Standing(fields, prevs, values, before, pmap, first, k, d, p) ==>
      exists slots :: Reached(fields, prevs, values, before, slots, pmap, first, k, d, p)
    decreases k
  {
    if Standing(fields, prevs, values, before, pmap, first, k, d, p) {
      if k == 0 {
        assert Reached(fields, prevs, values, before, before, pmap, first, 0, d, p);
      } else {
        StandingFewer(fields, prevs, values, before, pmap, first, k - 1, d, p);
        FieldsReadBack(fields, prevs, values, before, pmap, first, k - 1, d, p);
        var t :| Reached(fields, prevs, values, before, t, pmap, first, k - 1, d, p);
        ReachedNext(fields, prevs, values, before, t, pmap, first, k - 1, k, d, p);
      }
    }
  }

  lemma ReachedNext(fields: seq<Field>, prevs: seq<FieldPrev>, values: seq<FieldSlot>, before: seq<FieldSlot>,
                    slots: seq<FieldSlot>, pmap: seq<byte>, first: Bit, k: nat, n: nat, d: seq<byte>, p: nat)
    requires n == k + 1
    requires Standing(fields, prevs, values, before, pmap, first, n, d, p)
    requires Reached(fields, prevs, values, before, slots, pmap, first, k, d, p)
    ensures exists now :: Reached(fields, prevs, values, before, now, pmap, first, n, d, p)
  {
    assert slots[k] == slots[k..][0] == before[k];
    var f, g := EncodeFields(fields, prevs, values, k), EncodeFields(fields, prevs, values, n);
    var x, bit, q := NextTaken(fields, prevs, values, before, slots, pmap, first, k, d, p, f);
    var fs :| Taken(fields, slots, pmap, k, bit, d, q, x, values[k], fs);
    ReachedMore(fields, prevs, values, before, slots, pmap, first, k, n, d, p, x, fs, f, g);
  }

  /** All of them. */
  lemma AllFieldsReadBack(fields: seq<Field>, prevs: seq<FieldPrev>, values: seq<FieldSlot>, before: seq<FieldSlot>,
                          pmap: seq<byte>, first: Bit, d: seq<byte>, p: nat)
      returns (slots: seq<FieldSlot>)
    requires TypedPrevs(fields, prevs) && TypedAll(fields, values) && TypedAll(fields, before)
    requires CoupledFields(fields, prevs, before) && AllowedFields(fields, prevs, values)
    requires var f := EncodeFields(fields, prevs, values, |fields|);
      f.Fields? && p <= |d| && StandsAt(d, p, f.bytes) && BitsAt(pmap, first, f.bits)
    ensures var f := EncodeFields(fields, prevs, values, |fields|);
      && CoupledFields(fields, f.prevs, slots) && ShowsFields(fields, slots, values) && TypedAll(fields, slots)
      && DecodeFrom(fields, before, pmap, first, 0, d, p) == Complete(slots, first + |f.bits|, p + |f.bytes|)
  {
    var n := |fields|;
    var f := EncodeFields(fields, prevs, values, n);
    assert Standing(fields, prevs, values, before, pmap, first, n, d, p);
    FieldsReadBack(fields, prevs, values, before, pmap, first, n, d, p);
    slots :| Reached(fields, prevs, values, before, slots, pmap, first, n, d, p);
    forall k | 0 <= k < n
      ensures CoupledField(fields[k], f.prevs[k], slots[k]) && TypedField(fields[k], slots[k])
      ensures TypedField(fields[k], values[k])
      ensures ShowsField(fields[k], slots[k], values[k])
    {
      assert FieldIsBack(fields[k], f.prevs[k], slots[k], values[k]);
    }
    assert DecodeOn(fields, slots, pmap, first + |f.bits|, n, d, p + |f.bytes|) == Complete(slots, first + |f.bits|,
           p + |f.bytes|);
    assert DecodeFrom(fields, slots, pmap, first + |f.bits|, n, d, p + |f.bytes|) == Complete(slots, first + |f.bits|,
           p + |f.bytes|);
  }
}
