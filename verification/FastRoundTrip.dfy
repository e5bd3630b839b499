/** Whole messages and streams of them: what fast_message_encode sends, fast_message_decode returns. */
module FastRoundTrip {
  import opened Wrappers
  import opened Digits
  import opened StopBit
  import opened PresenceMap
  import opened FastField
  import opened FastFlat
  import opened FastMessage
  import opened FastDecoder
  import opened FastEncoder
  import opened FastStream
  import opened FastChunks

  // ----- the decoder's run over the fields ------------------------------------------------

  /** The session after a message. */
  function Closed(c: Config, s: Session, i: nat, slots: seq<FieldSlot>, bit: Bit): Session
    requires i < |c.ts| == |s.slots|
  {
    Session(false, None, bit, None, 0, s.slots[i := slots], c.ts[i].tid)
  }

  ghost predicate InFields(c: Config, s: Session) {
    Valid(c, s) && s.msg.Some?
  }

  lemma FieldMicroIs(c: Config, s: Session, d: seq<byte>, p: nat, fs: FieldSlot, bit: Bit, q: nat)
    requires p <= |d| && InFields(c, s) && s.decoded < |c.ts[s.msg.value].fields|
    ensures TypedField(c.ts[s.msg.value].fields[s.decoded], s.slots[s.msg.value][s.decoded])
    ensures DecodeField(c.ts[s.msg.value].fields[s.decoded], s.slots[s.msg.value][s.decoded], s.pmap.value, s.bit, d,
                        p) == Ready(fs, bit, q) ==>
      MicroStep(c, s, d, p) == Next(WithSlot(s, s.msg.value, s.decoded, fs).(bit := bit, decoded := s.decoded + 1), q)
  {
    assert TypedField(c.ts[s.msg.value].fields[s.decoded], s.slots[s.msg.value][s.decoded]);
  }

  /** Decoding the fields of a message is the run to its end. */
  ghost predicate FieldsEnd(c: Config, s: Session, d: seq<byte>, p: nat)
    requires InFields(c, s) && p <= |d|
  {
    var i := s.msg.value;
    var r := DecodeFrom(c.ts[i].fields, s.slots[i], s.pmap.value, s.bit, s.decoded, d, p);
    r.Complete? ==> Run(c, s, d, p) == Message(Closed(c, s, i, r.slots, r.bit), i, r.p)
  }

  lemma ClosedStep(c: Config, s: Session, i: nat, k: nat, fs: FieldSlot, bit: Bit, slots: seq<FieldSlot>, b: Bit)
    requires i < |c.ts| == |s.slots| && k < |s.slots[i]|
    ensures Closed(c, WithSlot(s, i, k, fs).(bit := bit, decoded := k + 1), i, slots, b) == Closed(c, s, i, slots, b)
    ensures WithSlot(s, i, k, fs).slots[i] == s.slots[i][k := fs]
  {
    assert WithSlot(s, i, k, fs).slots[i := slots] == s.slots[i := slots];
  }

  lemma {:induction false} RunsFields(c: Config, s: Session, d: seq<byte>, p: nat)
    requires InFields(c, s) && p <= |d|
    ensures FieldsEnd(c, s, d, p)
    decreases FieldsLeft(c, s)
  {
    hide DecodeField, TypedField;
    var i, k := s.msg.value, s.decoded;
    var fields := c.ts[i].fields;
    assert TypedAll(fields, s.slots[i]);
    assert Run(c, s, d, p) == RunOn(c, s, d, p);
    assert DecodeFrom(fields, s.slots[i], s.pmap.value, s.bit, k, d, p) == DecodeOn(fields, s.slots[i], s.pmap.value,
           s.bit, k, d, p);
    if k < |fields| {
      assert TypedField(fields[k], s.slots[i][k]);
      var r := DecodeField(fields[k], s.slots[i][k], s.pmap.value, s.bit, d, p);
      if r.Ready? {
        FieldMicroIs(c, s, d, p, r.slot, r.bit, r.next);
        MicroIsValid(c, s, d, p);
        var t := WithSlot(s, i, k, r.slot).(bit := r.bit, decoded := k + 1);
        RunsFields(c, t, d, r.next);
        ClosedStep(c, s, i, k, r.slot, r.bit, s.slots[i], r.bit);
        var e := DecodeFrom(fields, s.slots[i][k := r.slot], s.pmap.value, r.bit, k + 1, d, r.next);
        if e.Complete? {
          ClosedStep(c, s, i, k, r.slot, r.bit, e.slots, e.bit);
        }
      }
    } else {
      assert s.slots[i := s.slots[i]] == s.slots;
    }
  }

  // ----- map and template -----------------------------------------------------------------

  /** Between two messages. */
  ghost predicate Fresh(c: Config, s: Session) {
    Valid(c, s) && s.pmap.None? && s.msg.None? && c.preambleBytes == 0
  }

  /** The map arrives with the bits that were put in. */
  lemma MapArrives(bits: seq<bool>, d: seq<byte>, p: nat) returns (bytes: seq<byte>, n: nat)
    requires |bits| <= 55 && Trimmed(MapOf([true] + bits)) > 0 && StandsAt(d, p, MapText(MapOf([true] + bits)))
    ensures n == p + |MapText(MapOf([true] + bits))| <= |d| && MapAt(d, p) == Got(bytes, n)
    ensures IsSet(bytes, 0) && BitsAt(bytes, 0, bits)
  {
    var all := [true] + bits;
    var m := MapOf(all);
    MapSurvives(d, p, m, 0);
    var r := MapAt(d, p);
    bytes, n := r.value, r.next;
    MapHolds(all, 0);
    forall j | 0 <= j < |bits| ensures IsSet(bytes, 0 + 1 + j) == bits[j] {
      MapSurvives(d, p, m, 1 + j);
      MapHolds(all, 1 + j);
      assert all[1 + j] == bits[j];
    }
  }

  /** Map and template identifier: the fields of template `i` come next. */
  lemma HeadIsRead(c: Config, s: Session, i: nat, bits: seq<bool>, rest: seq<byte>, d: seq<byte>, p: nat)
      returns (t: Session, q: nat)
    requires Fresh(c, s) && |bits| <= 55 && Trimmed(MapOf([true] + bits)) > 0
    requires i < |c.ts| && c.ts[i].tid < 0x8000_0000 && FindTemplate(c.ts, c.ts[i].tid) == Some(i)
    requires StandsAt(d, p, MapText(MapOf([true] + bits)) + (UintText(c.ts[i].tid) + rest))
    ensures q == p + |MapText(MapOf([true] + bits))| + |UintText(c.ts[i].tid)| <= |d| && StandsAt(d, q, rest)
    ensures InFields(c, t) && t.msg == Some(i) && t.decoded == 0 && t.bit == 0 && t.slots == s.slots
    ensures t.pmap.Some? && BitsAt(t.pmap.value, 0, bits) && RunsTo(c, s, t, d, p, q)
  {
    hide UintAt, MapText, UintText;
    var m, tid := MapText(MapOf([true] + bits)), UintText(c.ts[i].tid);
    StandsParts(d, p, m, tid + rest);
    StandsParts(d, p + |m|, tid, rest);
    var bytes, n := MapArrives(bits, d, p);
    UintReadsBack(d, n, c.ts[i].tid);
    q := n + |tid|;
    var r := s.(pmap := Some(bytes), bit := 0);
    t := r.(msg := Some(i));
    RunsStep(c, s, r, d, p, n);
    RunsStep(c, r, t, d, n, q);
    RunsThrough(c, s, r, t, d, p, n, q);
  }

  // ----- a message ------------------------------------------------------------------------

  /** A message within the contract: an identifier of 31 bits that only this template has first, fields as the
      operators allow, no more than 55 bits. */
  ghost predicate Sendable(c: Config, i: nat, prevs: seq<FieldPrev>, slots: seq<FieldSlot>, values: seq<FieldSlot>) {
    && i < |c.ts| && c.ts[i].tid < 0x8000_0000 && FindTemplate(c.ts, c.ts[i].tid) == Some(i)
    && CoupledFields(c.ts[i].fields, prevs, slots) && AllowedFields(c.ts[i].fields, prevs, values)
    && TypedPrevs(c.ts[i].fields, prevs) && TypedAll(c.ts[i].fields, values)
    && var f := EncodeFields(c.ts[i].fields, prevs, values, |c.ts[i].fields|);
       f.Fields? && |f.bits| <= 55
  }

  /** fast_message_encode for template `i` */
  function Encoded(c: Config, i: nat, prevs: seq<FieldPrev>, values: seq<FieldSlot>): Fields
    requires i < |c.ts| && TypedPrevs(c.ts[i].fields, prevs) && TypedAll(c.ts[i].fields, values)
  {
    EncodeFields(c.ts[i].fields, prevs, values, |c.ts[i].fields|)
  }

  /** The message is returned as it was sent, and the dictionaries are coupled again. */
  lemma MessageIsRead(c: Config, s: Session, i: nat, prevs: seq<FieldPrev>, values: seq<FieldSlot>, d: seq<byte>,
                      p: nat)
      returns (slots: seq<FieldSlot>, t: Session)
    requires Fresh(c, s) && i < |c.ts| && Sendable(c, i, prevs, s.slots[i], values)
    requires StandsAt(d, p, MessageText(c.ts[i].tid, Encoded(c, i, prevs, values)))
    ensures p <= |d| && Run(c, s, d, p) == Message(t, i, p + |MessageText(c.ts[i].tid, Encoded(c, i, prevs, values))|)
    ensures Fresh(c, t) && t.slots == s.slots[i := slots]
    ensures CoupledFields(c.ts[i].fields, Encoded(c, i, prevs, values).prevs, slots)
    ensures ShowsFields(c.ts[i].fields, slots, values)
  {
    var f := Encoded(c, i, prevs, values);
    FirstBitIsSet(f.bits);
    var u, q := HeadIsRead(c, s, i, f.bits, f.bytes, d, p);
    assert TypedAll(c.ts[i].fields, s.slots[i]);
    slots := AllFieldsReadBack(c.ts[i].fields, prevs, values, s.slots[i], u.pmap.value, 0, d, q);
    RunsFields(c, u, d, q);
    t := Closed(c, u, i, slots, |f.bits|);
  }

  // ----- a stream -------------------------------------------------------------------------

  /** A message to send: its template and its fields as the caller fills them. */
  datatype Send = Send(index: nat, values: seq<FieldSlot>)

  /** What the caller owes for one message: an identifier of 31 bits that this template has first, fields as the
      operators allow, no more than 55 bits. */
  ghost predicate Filled(c: Config, prevs: seq<seq<FieldPrev>>, m: Send) {
    var i := m.index;
    && i < |c.ts| == |prevs| && c.ts[i].tid < 0x8000_0000 && FindTemplate(c.ts, c.ts[i].tid) == Some(i)
    && TypedPrevs(c.ts[i].fields, prevs[i]) && TypedAll(c.ts[i].fields, m.values)
    && AllowedFields(c.ts[i].fields, prevs[i], m.values)
    && (Encoded(c, i, prevs[i], m.values).Fields? ==> |Encoded(c, i, prevs[i], m.values).bits| <= 55)
  }

  /** What the encoder remembers after a message. */
  function After(c: Config, prevs: seq<seq<FieldPrev>>, m: Send): seq<seq<FieldPrev>>
    requires m.index < |c.ts| == |prevs| && TypedPrevs(c.ts[m.index].fields, prevs[m.index])
    requires TypedAll(c.ts[m.index].fields, m.values)
  {
    var f := Encoded(c, m.index, prevs[m.index], m.values);
    if f.Fields? then prevs[m.index := f.prevs] else prevs
  }

  /** Every message is filled as what has been sent before demands. */
  ghost predicate AllFilled(c: Config, prevs: seq<seq<FieldPrev>>, ms: seq<Send>)
    decreases |ms|, 1
  {
    ms == [] || FirstFilled(c, prevs, ms)
  }

  ghost predicate FirstFilled(c: Config, prevs: seq<seq<FieldPrev>>, ms: seq<Send>)
    requires ms != []
    decreases |ms|, 0
  {
    Filled(c, prevs, ms[0]) && AllFilled(c, After(c, prevs, ms[0]), ms[1..])
  }

  /** The bytes of all messages; nothing is sent for one that the encoder refuses. */
  function StreamText(c: Config, prevs: seq<seq<FieldPrev>>, ms: seq<Send>): seq<byte>
    requires AllFilled(c, prevs, ms)
    decreases |ms|, 1
  {
    if ms == [] then [] else
      assert FirstFilled(c, prevs, ms);
      FirstText(c, prevs, ms)
  }

  function FirstText(c: Config, prevs: seq<seq<FieldPrev>>, ms: seq<Send>): seq<byte>
    requires ms != [] && FirstFilled(c, prevs, ms)
    decreases |ms|, 0
  {
    var f := Encoded(c, ms[0].index, prevs[ms[0].index], ms[0].values);
    (if f.Fields? then MessageText(c.ts[ms[0].index].tid, f) else []) + StreamText(c, After(c, prevs, ms[0]), ms[1..])
  }

  /** Both sides agree on all dictionaries. */
  ghost predicate CoupledAll(c: Config, prevs: seq<seq<FieldPrev>>, s: Session) {
    && |prevs| == |c.ts| == |s.slots|
    && forall i {:trigger CoupledFields(c.ts[i].fields, prevs[i], s.slots[i])} | 0 <= i < |c.ts| ::
         CoupledFields(c.ts[i].fields, prevs[i], s.slots[i])
  }

  ghost predicate ShowsSend(c: Config, got: (nat, seq<FieldSlot>), m: Send) {
    got.0 == m.index < |c.ts| && ShowsFields(c.ts[m.index].fields, got.1, m.values)
  }

  ghost predicate ShowsAll(c: Config, got: seq<(nat, seq<FieldSlot>)>, ms: seq<Send>) {
    |got| == |ms| && forall k | 0 <= k < |ms| :: ShowsSend(c, got[k], ms[k])
  }

  /** The stream came through: the messages in order, all bytes used, nothing pending. */
  ghost predicate Delivered(c: Config, r: All, ms: seq<Send>, end: nat) {
    ShowsAll(c, r.msgs, ms) && r.end.NeedMore? && r.end.p == end && Fresh(c, r.end.s)
  }

  lemma NothingMore(c: Config, s: Session, d: seq<byte>)
    requires Fresh(c, s)
    ensures Delivered(c, DecodeAll(c, s, d, |d|), [], |d|)
  {
    assert MapFrom(d, |d|, []) == MapRound(d, |d|, []);
    assert Run(c, s, d, |d|) == RunOn(c, s, d, |d|);
    ThenNothing(c, s, d, |d|, NeedMore(s, |d|));
  }

  lemma DeliveredMore(c: Config, s: Session, t: Session, ms: seq<Send>, d: seq<byte>, p: nat, q: nat)
    requires ms != [] && p <= |d| && Valid(c, s) && Valid(c, t) && q <= |d| && ms[0].index < |t.slots|
    requires Run(c, s, d, p) == Message(t, ms[0].index, q) && ShowsSend(c, (ms[0].index, t.slots[ms[0].index]), ms[0])
    requires Delivered(c, DecodeAll(c, t, d, q), ms[1..], |d|)
    ensures Delivered(c, DecodeAll(c, s, d, p), ms, |d|)
  {
    ThenMessage(c, s, d, p, t, ms[0].index, q);
    var r, w := DecodeAll(c, s, d, p), DecodeAll(c, t, d, q);
    forall k | 0 <= k < |ms| ensures ShowsSend(c, r.msgs[k], ms[k]) {
      if k > 0 {
        assert ms[k] == ms[1..][k - 1] && r.msgs[k] == w.msgs[k - 1];
      }
    }
  }

  lemma CoupledNext(c: Config, prevs: seq<seq<FieldPrev>>, s: Session, t: Session, i: nat, ps: seq<FieldPrev>,
                    slots: seq<FieldSlot>)
    requires CoupledAll(c, prevs, s) && i < |c.ts| && t.slots == s.slots[i := slots]
    requires CoupledFields(c.ts[i].fields, ps, slots)
    ensures CoupledAll(c, prevs[i := ps], t)
  {
    forall j | 0 <= j < |c.ts| ensures CoupledFields(c.ts[j].fields, prevs[i := ps][j], t.slots[j]) {
      assert j == i || CoupledFields(c.ts[j].fields, prevs[j], s.slots[j]);
    }
  }

  /** Within the contract nothing is refused. */
  lemma IsSendable(c: Config, s: Session, prevs: seq<seq<FieldPrev>>, m: Send)
    requires CoupledAll(c, prevs, s) && Filled(c, prevs, m)
    ensures Sendable(c, m.index, prevs[m.index], s.slots[m.index], m.values)
  {
    var i := m.index;
    assert CoupledFields(c.ts[i].fields, prevs[i], s.slots[i]);
    FieldsAreSent(c.ts[i].fields, prevs[i], s.slots[i], m.values, |c.ts[i].fields|);
  }

  /** What the encoder sends, the decoder returns: every message, every field, in order, to the last byte. */
  lemma {:induction false} StreamIsDelivered(c: Config, s: Session, prevs: seq<seq<FieldPrev>>, ms: seq<Send>,
                                             d: seq<byte>, p: nat)
    requires Fresh(c, s) && CoupledAll(c, prevs, s) && AllFilled(c, prevs, ms)
    requires StandsAt(d, p, StreamText(c, prevs, ms)) && p + |StreamText(c, prevs, ms)| == |d|
    ensures Delivered(c, DecodeAll(c, s, d, p), ms, |d|)
    decreases |ms|
  {
    hide StandsAt, MessageText, EncodeFields, CoupledFields, AllowedFields;
    if ms == [] {
      NothingMore(c, s, d);
    } else {
      assert FirstFilled(c, prevs, ms);
      var i := ms[0].index;
      IsSendable(c, s, prevs, ms[0]);
      var f := Encoded(c, i, prevs[i], ms[0].values);
      var text := MessageText(c.ts[i].tid, f);
      StandsParts(d, p, text, StreamText(c, After(c, prevs, ms[0]), ms[1..]));
      var slots, t := MessageIsRead(c, s, i, prevs[i], ms[0].values, d, p);
      CoupledNext(c, prevs, s, t, i, f.prevs, slots);
      StreamIsDelivered(c, t, After(c, prevs, ms[0]), ms[1..], d, p + |text|);
      DeliveredMore(c, s, t, ms, d, p, p + |text|);
    }
  }

  /** ... and so it does when the stream arrives in pieces, however it is cut. */
  lemma PiecesAreDelivered(c: Config, s: Session, prevs: seq<seq<FieldPrev>>, ms: seq<Send>, chunks: seq<seq<byte>>)
    requires Fresh(c, s) && CoupledAll(c, prevs, s) && AllFilled(c, prevs, ms) && AllRepeatable(c)
    requires Joined(chunks) == StreamText(c, prevs, ms)
    ensures Delivered(c, Feed(c, s, [], 0, chunks), ms, |Joined(chunks)|)
  {
    var d := Joined(chunks);
    assert [] + d == d;
    StandsWhole(d);
    StreamIsDelivered(c, s, prevs, ms, d, 0);
    ChunksDoNotMatter(c, s, [], 0, chunks);
  }
}
