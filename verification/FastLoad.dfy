/** Templates as lib/proto/fast_template.c loads them: where a stream of FAST messages starts, encoder and decoder
    agree. */
module FastLoad {
  import opened Wrappers
  import opened Digits
  import opened StopBit
  import opened PresenceMap
  import opened FastField
  import opened FieldEncoder
  import opened FastFlat
  import opened FastMessage
  import opened FastDecoder
  import opened FastChunks
  import opened FastEncoder
  import opened FastStream
  import opened FastRoundTrip

  predicate LoadableElement(f: Field) {
    match f
    case Single(leaf) => Loadable(leaf)
    case Pair(_, e, m) => e.kind == Int && m.kind == Int && Loadable(e) && Loadable(m)
    case Sequence(_, _, _, _) => true
  }

  predicate LoadableField(f: Field) {
    if f.Sequence? then
      f.length.kind == Uint && Loadable(f.length) && forall k | 0 <= k < |f.elements| :: LoadableElement(f.elements[k])
    else LoadableElement(f)
  }

  /** fast_field_init for a field that is no sequence, or within one */
  function LoadedElement(f: Field): (s: FieldSlot)
    requires LoadableElement(f)
    ensures TypedFlat(f, s)
  {
    match f
    case Single(leaf) => One(Loaded(leaf))
    case Pair(_, e, m) => Two(Undefined, 0, 0, Loaded(e), Loaded(m))
    case Sequence(_, _, _, _) => Many(Slot(Undefined, Num(0)), None, -1, 0, 0, [], [])
  }

  function LoadedWork(elements: seq<Field>): (work: seq<FieldSlot>)
    requires forall k | 0 <= k < |elements| :: LoadableElement(elements[k])
    ensures TypedWork(elements, work)
  {
    seq(|elements|, k requires 0 <= k < |elements| => LoadedElement(elements[k]))
  }

  /** fast_field_init */
  function LoadedField(f: Field): (s: FieldSlot)
    requires LoadableField(f)
    ensures TypedField(f, s)
  {
    if f.Sequence? then
      Many(Loaded(f.length), None, -1, 0, 0, LoadedWork(f.elements),
           seq(ELEMENTS, _ => seq(|f.elements|, _ => Shown(Undefined, Num(0)))))
    else LoadedElement(f)
  }

  function LoadedPrev(f: Field): (s: FieldPrev)
    requires LoadableField(f)
    ensures TypedPrev(f, s)
  {
    match f
    case Single(leaf) => OnePrev(Loaded(leaf))
    case Pair(_, e, m) => TwoPrev(Loaded(e), Loaded(m))
    case Sequence(_, _, _, _) => NoPrev
  }

  lemma LoadedFieldIsCoupled(f: Field)
    requires LoadableField(f)
    ensures CoupledField(f, LoadedPrev(f), LoadedField(f))
  {
    match f
    case Single(leaf) => LoadedIsCoupled(leaf);
    case Pair(_, e, m) =>
      LoadedIsCoupled(e);
      LoadedIsCoupled(m);
    case Sequence(_, _, _, _) =>
  }

  // ----- all templates --------------------------------------------------------------------

  predicate LoadableAll(fields: seq<Field>) {
    forall k | 0 <= k < |fields| :: LoadableField(fields[k])
  }

  predicate LoadableConfig(c: Config) {
    forall i | 0 <= i < |c.ts| :: LoadableAll(c.ts[i].fields)
  }

  function LoadedFields(fields: seq<Field>): (slots: seq<FieldSlot>)
    requires LoadableAll(fields)
    ensures |slots| == |fields| && forall k | 0 <= k < |fields| :: slots[k] == LoadedField(fields[k])
  {
    seq(|fields|, k requires 0 <= k < |fields| => LoadedField(fields[k]))
  }

  function LoadedPrevs(fields: seq<Field>): (prevs: seq<FieldPrev>)
    requires LoadableAll(fields)
    ensures |prevs| == |fields| && forall k | 0 <= k < |fields| :: prevs[k] == LoadedPrev(fields[k])
  {
    seq(|fields|, k requires 0 <= k < |fields| => LoadedPrev(fields[k]))
  }

  function LoadedSlots(c: Config): (slots: seq<seq<FieldSlot>>)
    requires LoadableConfig(c)
    ensures |slots| == |c.ts| && forall i | 0 <= i < |c.ts| :: slots[i] == LoadedFields(c.ts[i].fields)
  {
    seq(|c.ts|, i requires 0 <= i < |c.ts| => LoadedFields(c.ts[i].fields))
  }

  /** What the senders of all templates remember. */
  function LoadedMemory(c: Config): (prevs: seq<seq<FieldPrev>>)
    requires LoadableConfig(c)
    ensures |prevs| == |c.ts| && forall i | 0 <= i < |c.ts| :: prevs[i] == LoadedPrevs(c.ts[i].fields)
  {
    seq(|c.ts|, i requires 0 <= i < |c.ts| => LoadedPrevs(c.ts[i].fields))
  }

  /** fast_session_new and fast_parse_template */
  function LoadedSession(c: Config): Session
    requires LoadableConfig(c)
  {
    Session(false, None, 0, None, 0, LoadedSlots(c), 0)
  }

  lemma LoadedAgrees(c: Config)
    requires LoadableConfig(c)
    ensures Valid(c, LoadedSession(c)) && CoupledAll(c, LoadedMemory(c), LoadedSession(c))
    ensures c.preambleBytes == 0 ==> Fresh(c, LoadedSession(c))
  {
    forall i | 0 <= i < |c.ts| ensures CoupledFields(c.ts[i].fields, LoadedMemory(c)[i], LoadedSlots(c)[i]) {
      var fields := c.ts[i].fields;
      forall k | 0 <= k < |fields| ensures CoupledField(fields[k], LoadedPrevs(fields)[k], LoadedFields(fields)[k]) {
        LoadedFieldIsCoupled(fields[k]);
      }
    }
    forall i | 0 <= i < |c.ts| ensures TypedAll(c.ts[i].fields, LoadedSlots(c)[i]) {
    }
  }

  /** From the first message on: what is sent with templates as loaded is delivered to a session that loaded them. */
  lemma LoadedStreamIsDelivered(c: Config, ms: seq<Send>)
    requires LoadableConfig(c) && c.preambleBytes == 0 && AllFilled(c, LoadedMemory(c), ms)
    ensures Valid(c, LoadedSession(c))
    ensures Delivered(c, DecodeAll(c, LoadedSession(c), StreamText(c, LoadedMemory(c), ms), 0), ms,
                      |StreamText(c, LoadedMemory(c), ms)|)
  {
    LoadedAgrees(c);
    StandsWhole(StreamText(c, LoadedMemory(c), ms));
    StreamIsDelivered(c, LoadedSession(c), LoadedMemory(c), ms, StreamText(c, LoadedMemory(c), ms), 0);
  }
}
