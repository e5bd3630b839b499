/** A session and its senders, built from templates: what lib/proto/fast_template.c and fast_session_new of
    lib/proto/fast_session.c leave, with the templates already parsed. */
module FastOpen {
  import opened Wrappers
  import opened Digits
  import opened ByteBuffer
  import opened FastField
  import opened FieldEncoder
  import opened FastFlat
  import opened FastMessage
  import opened FastDecoder
  import opened FastCell
  import opened FastElement
  import opened FastGroup
  import opened FastLoad
  import opened FastChunks
  import opened FastEncoder
  import opened FastRoundTrip
  import opened FastOutCell
  import FastReceiver
  import FastFeed
  import FastSender

  method LoadFlat(f: Field) returns (r: FlatRef)
    requires LoadableElement(f)
    ensures ValidFlat(r) && FlatSpec(r) == f && FlatSlot(r) == LoadedElement(f) && fresh(FlatObjects(r))
  {
    match f
    case Single(leaf) =>
      var c := new Cell(leaf);
      r := FlatRef.Whole(c);
    case Pair(mandatory, e, m) =>
      var p := new FastElement.Pair(mandatory, e, m);
      r := Individual(p);
    case Sequence(_, _, _, _) => r := Nested(f, LoadedElement(f));
  }

  /** A loaded field that is part number `k`. */
  ghost predicate ElementLoaded(r: FlatRef, f: Field, k: nat, owner: map<object, nat>)
    reads FlatObjects(r)
  {
    && LoadableElement(f) && (forall o | o in FlatObjects(r) :: o in owner && owner[o] == k)
    && ValidFlat(r) && FlatSpec(r) == f && FlatSlot(r) == LoadedElement(f)
  }

  method LoadFlats(fields: seq<Field>) returns (refs: seq<FlatRef>, ghost owner: map<object, nat>)
    requires forall k | 0 <= k < |fields| :: LoadableElement(fields[k])
    ensures |refs| == |fields| && fresh(owner.Keys)
    ensures forall k {:trigger refs[k]} | 0 <= k < |refs| :: ElementLoaded(refs[k], fields[k], k, owner)
  {
    refs, owner := [], map[];
    for k := 0 to |fields|
      invariant |refs| == k && fresh(owner.Keys)
      invariant forall j {:trigger refs[j]} | 0 <= j < k :: ElementLoaded(refs[j], fields[j], j, owner)
    {
      var r := LoadFlat(fields[k]);
      owner := owner + map o | o in FlatObjects(r) :: k;
      refs := refs + [r];
    }
  }

  method LoadField(f: Field) returns (r: FieldRef)
    requires LoadableField(f)
    ensures ValidField(r) && SpecOf(r) == f && SlotOf(r) == LoadedField(f) && fresh(Objects(r))
  {
    if f.Sequence? {
      var refs, owner := LoadFlats(f.elements);
      ghost var work := LoadedWork(f.elements);
      forall k {:trigger refs[k]} | 0 <= k < |refs|
        ensures ElementLoaded(refs[k], f.elements[k], k, owner) && FlatSlot(refs[k]) == work[k]
      {
      }
      var g := new Group(f.mandatory, f.mapped, f.length, refs, f.elements, work, owner);
      r := Repeated(g);
    } else {
      var x := LoadFlat(f);
      r := Flat(x);
    }
  }

  // ----- templates and session ------------------------------------------------------------

  /** A loaded field that is part number `k` of template `i`. */
  ghost predicate FieldLoaded(r: FieldRef, f: Field, i: nat, k: nat, owner: map<object, (nat, nat)>)
    reads Objects(r)
  {
    && LoadableField(f) && (forall o | o in Objects(r) :: o in owner && owner[o] == (i, k))
    && ValidField(r) && SpecOf(r) == f && SlotOf(r) == LoadedField(f)
  }

  /** The fields of template `i`. */
  method LoadFields(fields: seq<Field>, ghost i: nat)
      returns (refs: seq<FieldRef>, ghost owner: map<object, (nat, nat)>)
    requires LoadableAll(fields)
    ensures |refs| == |fields| && fresh(owner.Keys)
    ensures forall k {:trigger refs[k]} | 0 <= k < |refs| :: FieldLoaded(refs[k], fields[k], i, k, owner)
  {
    refs, owner := [], map[];
    for k := 0 to |fields|
      invariant |refs| == k && fresh(owner.Keys)
      invariant forall j {:trigger refs[j]} | 0 <= j < k :: FieldLoaded(refs[j], fields[j], i, j, owner)
    {
      var r := LoadField(fields[k]);
      owner := owner + map o | o in Objects(r) :: (i, k);
      refs := refs + [r];
    }
  }

  /** A loaded template. */
  ghost predicate TemplateLoaded(m: FastReceiver.Message, t: Template, i: nat, owner: map<object, (nat, nat)>)
    reads m, owner.Keys
  {
    && m.tid == t.tid && |m.fields| == |t.fields| && m.decoded == 0 && m !in owner
    && forall k | 0 <= k < |m.fields| :: FieldLoadedIn(m, t, i, k, owner)
  }

  ghost predicate FieldLoadedIn(m: FastReceiver.Message, t: Template, i: nat, k: nat, owner: map<object, (nat, nat)>)
    requires k < |m.fields| == |t.fields|
    reads owner.Keys
  {
    var r, f := m.fields[k], t.fields[k];
    && LoadableField(f) && (forall o | o in Objects(r) :: o in owner && owner[o] == (i, k))
    && ValidField(r) && SpecOf(r) == f && SlotOf(r) == LoadedField(f)
  }

  method LoadTemplate(t: Template, ghost i: nat) returns (m: FastReceiver.Message, ghost owner: map<object, (nat, nat)>)
    requires LoadableAll(t.fields)
    ensures fresh(m) && fresh(owner.Keys) && TemplateLoaded(m, t, i, owner)
  {
    var refs;
    refs, owner := LoadFields(t.fields, i);
    m := new FastReceiver.Message(t.tid, refs);
    forall k | 0 <= k < |m.fields| ensures FieldLoadedIn(m, t, i, k, owner) {
      assert FieldLoaded(refs[k], t.fields[k], i, k, owner);
    }
  }

  /** More templates do not change those that are there. */
  lemma StillLoaded(m: FastReceiver.Message, t: Template, i: nat, owner: map<object, (nat, nat)>, more: map<object,
                    (nat, nat)>)
    requires TemplateLoaded(m, t, i, owner) && owner.Keys !! more.Keys && m !in more
    ensures TemplateLoaded(m, t, i, owner + more)
  {
    forall k | 0 <= k < |m.fields| ensures FieldLoadedIn(m, t, i, k, owner + more) {
      assert FieldLoadedIn(m, t, i, k, owner);
    }
  }

  /** fast_parse_template */
  method LoadTemplates(ts: seq<Template>)
      returns (messages: seq<FastReceiver.Message>, ghost owner: map<object, (nat, nat)>)
    requires forall i | 0 <= i < |ts| :: LoadableAll(ts[i].fields)
    ensures |messages| == |ts|
    ensures forall i | 0 <= i < |ts| :: TemplateLoaded(messages[i], ts[i], i, owner)
    ensures forall i, j | 0 <= i < j < |ts| :: messages[i] != messages[j]
  {
    messages, owner := [], map[];
    for n := 0 to |ts|
      invariant |messages| == n && fresh(owner.Keys) && forall i | 0 <= i < n :: fresh(messages[i])
      invariant forall i | 0 <= i < n :: TemplateLoaded(messages[i], ts[i], i, owner)
      invariant forall i, j | 0 <= i < j < n :: messages[i] != messages[j]
    {
      var m, more := LoadTemplate(ts[n], n);
      forall i | 0 <= i < n ensures TemplateLoaded(messages[i], ts[i], i, owner + more) {
        StillLoaded(messages[i], ts[i], i, owner, more);
      }
      assert TemplateLoaded(m, ts[n], n, owner + more) by {
        forall k | 0 <= k < |m.fields| ensures FieldLoadedIn(m, ts[n], n, k, owner + more) {
          assert FieldLoadedIn(m, ts[n], n, k, more);
        }
      }
      owner := owner + more;
      messages := messages + [m];
    }
  }

  /** A session that has received nothing. */
  method Open(c: Config, capacity: nat) returns (link: FastFeed.Link)
    requires LoadableConfig(c) && AllRepeatable(c) && c.preambleBytes <= FastReceiver.MAX_PREAMBLE
    ensures fresh(link) && link.Valid() && link.session.config == c && link.start == LoadedSession(c)
    ensures link.received == [] && link.returned == [] && !link.broken
  {
    var messages, owner := LoadTemplates(c.ts);
    ghost var slots := LoadedSlots(c);
    forall i, k | 0 <= i < |messages| && 0 <= k < |messages[i].fields|
      ensures var f := messages[i].fields[k];
        && (forall o | o in Objects(f) :: o in owner && owner[o] == (i, k))
        && ValidField(f) && SlotOf(f) == slots[i][k] && SpecOf(f) == c.ts[i].fields[k]
    {
      assert FieldLoadedIn(messages[i], c.ts[i], i, k, owner);
    }
    var session := new FastReceiver.Receiver(messages, c.preambleBytes, capacity, c, slots, owner);
    link := new FastFeed.Link(session);
  }

  /** From end to end, from the first message on: what new senders send is what a new session returns, however it is
      cut on its way. */
  lemma SentIsReturnedFromStart(c: Config, ms: seq<Send>, link: FastFeed.Link)
    requires LoadableConfig(c) && c.preambleBytes == 0 && AllFilled(c, LoadedMemory(c), ms)
    requires link.Valid() && link.session.config == c && link.start == LoadedSession(c) && !link.broken
    requires link.received <= StreamText(c, LoadedMemory(c), ms)
    ensures |link.returned| <= |ms| && forall k | 0 <= k < |link.returned| :: ShowsSend(c, link.returned[k], ms[k])
    ensures link.received == StreamText(c, LoadedMemory(c), ms)
            && DecodeAll(c, link.start, link.received, 0).msgs == link.returned ==>
      ShowsAll(c, link.returned, ms)
  {
    LoadedAgrees(c);
    FastFeed.SentIsReturned(c, link.start, LoadedMemory(c), ms, link.received, link.returned, link.session.Now(),
                            link.session.buf.Unread());
  }

  // ----- senders --------------------------------------------------------------------------

  /** A loaded field of a message to be sent, part number `k`. */
  ghost predicate OutLoaded(r: FastSender.OutRef, f: Field, k: nat, owner: map<object, nat>)
    reads FastSender.Objects(r)
  {
    && LoadableField(f) && (forall o | o in FastSender.Objects(r) :: o in owner && owner[o] == k)
    && FastSender.ValidField(r) && FastSender.SpecOf(r) == f
    && FastSender.PrevOf(r) == LoadedPrev(f) && FastSender.ValueOf(r) == LoadedField(f)
  }

  method LoadOut(f: Field) returns (r: FastSender.OutRef)
    requires LoadableField(f)
    ensures FastSender.ValidField(r) && FastSender.SpecOf(r) == f && fresh(FastSender.Objects(r))
    ensures FastSender.PrevOf(r) == LoadedPrev(f) && FastSender.ValueOf(r) == LoadedField(f)
  {
    match f
    case Single(leaf) =>
      var c := new OutCell(leaf);
      r := FastSender.Whole(c);
    case Pair(mandatory, e, m) =>
      var p := new FastSender.OutPair(mandatory, e, m);
      r := FastSender.Individual(p);
    case Sequence(_, _, _, _) => r := FastSender.Unsupported(f, LoadedField(f));
  }

  method LoadOuts(fields: seq<Field>) returns (refs: seq<FastSender.OutRef>, ghost owner: map<object, nat>)
    requires LoadableAll(fields)
    ensures |refs| == |fields| && fresh(owner.Keys)
    ensures forall k {:trigger refs[k]} | 0 <= k < |refs| :: OutLoaded(refs[k], fields[k], k, owner)
  {
    refs, owner := [], map[];
    for k := 0 to |fields|
      invariant |refs| == k && fresh(owner.Keys)
      invariant forall j {:trigger refs[j]} | 0 <= j < k :: OutLoaded(refs[j], fields[j], j, owner)
    {
      var r := LoadOut(fields[k]);
      owner := owner + map o | o in FastSender.Objects(r) :: k;
      refs := refs + [r];
    }
  }

  lemma OutHolds(sender: FastSender.Sender, k: nat, f: Field, r: FastSender.OutRef, owner: map<object, nat>)
    requires k < |sender.fields| && k < |sender.specs| && sender.fields[k] == r && sender.specs[k] == f
    requires sender.owner == owner
    requires OutLoaded(r, f, k, owner)
    ensures sender.FieldHolds(k, LoadedPrev(f), LoadedField(f))
  {
  }

  /** A message that has not been sent yet, with its two buffers. */
  method OpenSender(t: Template, capacity: nat) returns (sender: FastSender.Sender)
    requires LoadableAll(t.fields)
    ensures sender.Valid() && sender.tid == t.tid && sender.specs == t.fields
    ensures sender.FieldsHold(LoadedPrevs(t.fields), LoadedFields(t.fields))
  {
    var refs, owner := LoadOuts(t.fields);
    var pmapBuf := new Buffer(capacity);
    var msgBuf := new Buffer(capacity);
    sender := new FastSender.Sender(t.tid, refs, pmapBuf, msgBuf, t.fields, owner);
    forall k {:trigger sender.fields[k]} | 0 <= k < |refs|
      ensures sender.FieldHolds(k, LoadedPrev(t.fields[k]), LoadedField(t.fields[k]))
    {
      OutHolds(sender, k, t.fields[k], refs[k], owner);
    }
  }
}
