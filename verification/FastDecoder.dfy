/** The whole decoder of lib/proto/fast_message.c: preamble, presence map, template and fields, each resumed where the
    bytes ran out. */
module FastDecoder {
  import opened Wrappers
  import opened Digits
  import opened StopBit
  import opened PresenceMap
  import opened FastField
  import opened FastFlat
  import opened FastMessage

  datatype Template = Template(tid: nat, fields: seq<Field>)

  /** The session: whether the preamble is read, the map and the bit reached in it, the template that is being decoded
      and how many of its fields are done, the dictionaries, and the last template. */
  datatype Session = Session(
    preamble: bool, pmap: Option<seq<byte>>, bit: Bit, msg: Option<nat>, decoded: nat, slots: seq<seq<FieldSlot>>,
    lastTid: nat)

  /** The templates, and the number of preamble bytes. */
  datatype Config = Config(ts: seq<Template>, preambleBytes: nat)

  predicate TypedAll(fields: seq<Field>, slots: seq<FieldSlot>) {
    |slots| == |fields| && forall k {:trigger TypedField(fields[k], slots[k])} | 0 <= k < |fields| ::
      TypedField(fields[k], slots[k])
  }

  ghost predicate Valid(c: Config, s: Session) {
    && |s.slots| == |c.ts|
    && (forall i | 0 <= i < |c.ts| :: TypedAll(c.ts[i].fields, s.slots[i]))
    && (s.msg.Some? ==> s.pmap.Some? && s.msg.value < |c.ts| && s.decoded <= |c.ts[s.msg.value].fields|)
    && (s.msg.None? ==> s.decoded == 0)
    && (s.pmap.Some? ==> s.preamble || c.preambleBytes == 0)
  }

  /** Identifiers pass through a 32-bit int. */
  function AsInt(tid: nat): nat {
    var t := tid % 0x1_0000_0000;
    if t < 0x8000_0000 then t else t + 0xFFFF_FFFF_0000_0000
  }

  /** fast_get_msg: the first template with the identifier. */
  function FindTemplate(ts: seq<Template>, tid: nat): (r: Option<nat>)
    ensures r.Some? ==> r.value < |ts| && ts[r.value].tid == tid && forall i | 0 <= i < r.value :: ts[i].tid != tid
    ensures r.None? ==> forall i | 0 <= i < |ts| :: ts[i].tid != tid
  {
    if ts == [] then None
    else
      var n := |ts| - 1;
      var r := FindTemplate(ts[..n], tid);
      if r.Some? then r else if ts[n].tid == tid then Some(n) else None
  }

  /** A message finds its template exactly if the identifier has 31 bits; the wire carries 63. */
  lemma IdentifiersExactly(tid: nat)
    requires tid < 0x8000_0000_0000_0000
    ensures (forall ts, i | FindTemplate(ts, tid) == Some(i) :: FindTemplate(ts, AsInt(tid)) == Some(i))
            <==> tid < 0x8000_0000
  {
    if tid >= 0x8000_0000 {
      var t := Template(tid, []);
      assert FindTemplate([t], tid) == Some(0) && FindTemplate([t], AsInt(tid)) == None;
    }
  }

  // ----- one step -------------------------------------------------------------------------

  /** The decoder goes on, or has a message, or waits, or gives up. */
  datatype Micro =
    Next(s: Session, p: nat) | Finished(s: Session, index: nat, p: nat) | Waiting(s: Session, p: nat) | Failed

  function PreambleStep(c: Config, s: Session, d: seq<byte>, p: nat): (r: Micro)
    requires p <= |d|
  {
    if |d| - p < c.preambleBytes then Waiting(s, p) else Next(s.(preamble := true), p + c.preambleBytes)
  }

  function MapStep(s: Session, d: seq<byte>, p: nat): (r: Micro)
    requires p <= |d|
  {
    match MapAt(d, p)
    case Got(bytes, n) => Next(s.(pmap := Some(bytes), bit := 0), n)
    case Short => Waiting(s, p)
    case Bad => Failed
  }

  function Choose(c: Config, s: Session, tid: nat, p: nat): Micro {
    match FindTemplate(c.ts, AsInt(tid))
    case Some(i) => Next(s.(msg := Some(i)), p)
    case None => Failed
  }

  function TemplateStep(c: Config, s: Session, d: seq<byte>, p: nat): (r: Micro)
    requires p <= |d| && s.pmap.Some?
  {
    if IsSet(s.pmap.value, 0) then
      match UintAt(d, p)
      case Got(tid, n) => Choose(c, s, tid, n)
      case Short => Waiting(s, p)
      case Bad => Failed
    else Choose(c, s, s.lastTid, p)
  }

  function WithSlot(s: Session, i: nat, k: nat, fs: FieldSlot): Session
    requires i < |s.slots| && k < |s.slots[i]|
  {
    s.(slots := s.slots[i := s.slots[i][k := fs]])
  }

  function FieldMicro(c: Config, s: Session, d: seq<byte>, p: nat): (r: Micro)
    requires p <= |d| && Valid(c, s) && s.msg.Some? && s.decoded < |c.ts[s.msg.value].fields|
  {
    var i, k := s.msg.value, s.decoded;
    assert TypedField(c.ts[i].fields[k], s.slots[i][k]);
    match DecodeField(c.ts[i].fields[k], s.slots[i][k], s.pmap.value, s.bit, d, p)
    case Ready(fs, bit, n) => Next(WithSlot(s, i, k, fs).(bit := bit, decoded := k + 1), n)
    case Later(fs, n) => Waiting(WithSlot(s, i, k, fs), n)
    case Broken => Failed
  }

  /** The message is complete: the next one starts from the beginning. */
  function Close(c: Config, s: Session, p: nat): Micro
    requires s.msg.Some? && s.msg.value < |c.ts|
  {
    Finished(s.(lastTid := c.ts[s.msg.value].tid, msg := None, preamble := false, pmap := None, decoded := 0),
             s.msg.value, p)
  }

  function MicroStep(c: Config, s: Session, d: seq<byte>, p: nat): (r: Micro)
    requires p <= |d| && Valid(c, s)
  {
    if c.preambleBytes > 0 && !s.preamble then PreambleStep(c, s, d, p)
    else if s.pmap.None? then MapStep(s, d, p)
    else if s.msg.None? then TemplateStep(c, s, d, p)
    else if s.decoded < |c.ts[s.msg.value].fields| then FieldMicro(c, s, d, p)
    else Close(c, s, p)
  }

  lemma WithSlotTyped(c: Config, s: Session, i: nat, k: nat, fs: FieldSlot)
    requires Valid(c, s) && i < |c.ts| && k < |c.ts[i].fields| && TypedField(c.ts[i].fields[k], fs)
    ensures Valid(c, WithSlot(s, i, k, fs))
  {
    var t := WithSlot(s, i, k, fs);
    forall j | 0 <= j < |c.ts| ensures TypedAll(c.ts[j].fields, t.slots[j]) {
      assert TypedAll(c.ts[j].fields, s.slots[j]);
      forall n | 0 <= n < |c.ts[j].fields| ensures TypedField(c.ts[j].fields[n], t.slots[j][n]) {
        assert (j == i && n == k) || TypedField(c.ts[j].fields[n], s.slots[j][n]);
      }
    }
  }

  /** How much is left to do: steps before the fields, and fields. */
  function Steps(s: Session): nat {
    (if s.preamble then 0 else 1) + (if s.pmap.None? then 1 else 0) + (if s.msg.None? then 1 else 0)
  }

  function FieldsLeft(c: Config, s: Session): int
    requires s.msg.Some? ==> s.msg.value < |c.ts|
  {
    if s.msg.None? then 0 else |c.ts[s.msg.value].fields| - s.decoded
  }

  lemma MicroIsValid(c: Config, s: Session, d: seq<byte>, p: nat)
    requires p <= |d| && Valid(c, s)
    ensures var m := MicroStep(c, s, d, p);
      match m
      case Next(t, q) =>
        && Valid(c, t) && p <= q <= |d|
        && (Steps(t) < Steps(s) || (Steps(t) == Steps(s) && FieldsLeft(c, t) < FieldsLeft(c, s)))
        && (s.pmap.None? && t.pmap.Some? ==> p < q) && (s.pmap.Some? ==> t.pmap.Some?)
      case Finished(t, i, q) => Valid(c, t) && q == p && i < |c.ts| && t.pmap.None? && s.pmap.Some?
      case Waiting(t, q) => Valid(c, t) && p <= q <= |d|
      case Failed => true
  {
    hide DecodeField, UintAt, MapFrom, IsSet;
    if !(c.preambleBytes > 0 && !s.preamble) && s.pmap.Some? && s.msg.Some? && s.decoded < |c.ts[s.msg.value].fields| {
      var i, k := s.msg.value, s.decoded;
      assert TypedField(c.ts[i].fields[k], s.slots[i][k]);
      var r := DecodeField(c.ts[i].fields[k], s.slots[i][k], s.pmap.value, s.bit, d, p);
      if !r.Broken? {
        WithSlotTyped(c, s, i, k, r.slot);
      }
    }
  }

  // ----- a run ----------------------------------------------------------------------------

  datatype Outcome = Message(s: Session, index: nat, p: nat) | NeedMore(s: Session, p: nat) | GaveUp

  /** fast_message_decode: what it returns, the session it leaves and the place of the cursor. */
  function Run(c: Config, s: Session, d: seq<byte>, p: nat): (r: Outcome)
    requires p <= |d| && Valid(c, s)
    ensures match r
      case Message(t, i, q) => Valid(c, t) && p <= q <= |d| && i < |c.ts| && t.pmap.None? && (s.pmap.None? ==> p < q)
      case NeedMore(t, q) => Valid(c, t) && p <= q <= |d|
      case GaveUp => true
    decreases Steps(s), FieldsLeft(c, s), 1
  {
    RunOn(c, s, d, p)
  }

  function RunOn(c: Config, s: Session, d: seq<byte>, p: nat): (r: Outcome)
    requires p <= |d| && Valid(c, s)
    ensures match r
      case Message(t, i, q) => Valid(c, t) && p <= q <= |d| && i < |c.ts| && t.pmap.None? && (s.pmap.None? ==> p < q)
      case NeedMore(t, q) => Valid(c, t) && p <= q <= |d|
      case GaveUp => true
    decreases Steps(s), FieldsLeft(c, s), 0
  {
    MicroIsValid(c, s, d, p);
    match MicroStep(c, s, d, p)
    case Next(t, q) => Run(c, t, d, q)
    case Finished(t, i, q) => Message(t, i, q)
    case Waiting(t, q) => NeedMore(t, q)
    case Failed => GaveUp
  }

  /** The same, for use where the run is not to be followed. */
  function Ahead(c: Config, s: Session, d: seq<byte>, p: nat): Outcome
    requires p <= |d| && Valid(c, s)
  {
    Run(c, s, d, p)
  }

  /** Two sessions, each with its place in the bytes, that run to the same end. */
  ghost predicate RunsTo(c: Config, s: Session, t: Session, d: seq<byte>, p: nat, q: nat) {
    && p <= |d| && q <= |d| && Valid(c, s) && Valid(c, t)
    && Ahead(c, s, d, p) == Ahead(c, t, d, q)
  }

  lemma RunsStep(c: Config, s: Session, t: Session, d: seq<byte>, p: nat, q: nat)
    ensures p <= |d| && q <= |d| && Valid(c, s) && Valid(c, t) && MicroStep(c, s, d, p) == Next(t, q) ==>
      RunsTo(c, s, t, d, p, q)
  {
    if p <= |d| && q <= |d| && Valid(c, s) && Valid(c, t) && MicroStep(c, s, d, p) == Next(t, q) {
      assert Run(c, s, d, p) == RunOn(c, s, d, p);
    }
  }

  lemma RunsThrough(c: Config, s: Session, t: Session, u: Session, d: seq<byte>, p: nat, q: nat, r: nat)
    ensures RunsTo(c, s, t, d, p, q) && RunsTo(c, t, u, d, q, r) ==> RunsTo(c, s, u, d, p, r)
  {
  }

  // ----- chunks ---------------------------------------------------------------------------

  /** Every field of every template can be cut anywhere. */
  ghost predicate AllRepeatable(c: Config) {
    forall i, k | 0 <= i < |c.ts| && 0 <= k < |c.ts[i].fields| :: Repeatable(c.ts[i].fields[k])
  }

  /** What a step decides, it decides with more bytes as well; and after waiting it is as if nothing had happened. */
  ghost predicate StepResumes(c: Config, s: Session, d: seq<byte>, e: seq<byte>, p: nat)
    requires p <= |d| && Valid(c, s)
  {
    var r, w := MicroStep(c, s, d, p), MicroStep(c, s, d + e, p);
    if r.Waiting? then Valid(c, r.s) && p <= r.p <= |d| && MicroStep(c, r.s, d + e, r.p) == w else w == r
  }

  lemma PreambleResumes(c: Config, s: Session, d: seq<byte>, e: seq<byte>, p: nat)
    requires p <= |d| && Valid(c, s) && c.preambleBytes > 0 && !s.preamble
    ensures StepResumes(c, s, d, e, p)
  {
  }

  lemma MapResumes(c: Config, s: Session, d: seq<byte>, e: seq<byte>, p: nat)
    requires p <= |d| && Valid(c, s) && !(c.preambleBytes > 0 && !s.preamble) && s.pmap.None?
    ensures StepResumes(c, s, d, e, p)
  {
    MapGrows(d, e, p, []);
  }

  lemma TemplateResumes(c: Config, s: Session, d: seq<byte>, e: seq<byte>, p: nat)
    requires p <= |d| && Valid(c, s) && !(c.preambleBytes > 0 && !s.preamble) && s.pmap.Some? && s.msg.None?
    ensures StepResumes(c, s, d, e, p)
  {
    MoreBytes(d, e, p);
  }

  lemma SlotTwice(s: Session, i: nat, k: nat, fs: FieldSlot, gs: FieldSlot)
    requires i < |s.slots| && k < |s.slots[i]|
    ensures WithSlot(WithSlot(s, i, k, fs), i, k, gs) == WithSlot(s, i, k, gs)
    ensures WithSlot(s, i, k, fs).slots[i][k] == fs
  {
    var t := s.slots[i][k := fs];
    assert t[k := gs] == s.slots[i][k := gs];
    assert s.slots[i := t][i := t[k := gs]] == s.slots[i := s.slots[i][k := gs]];
  }

  lemma FieldMicroResumes(c: Config, s: Session, d: seq<byte>, e: seq<byte>, p: nat)
    requires p <= |d| && Valid(c, s) && !(c.preambleBytes > 0 && !s.preamble) && s.pmap.Some? && s.msg.Some?
    requires s.decoded < |c.ts[s.msg.value].fields| && AllRepeatable(c)
    ensures StepResumes(c, s, d, e, p)
  {
    var i, k := s.msg.value, s.decoded;
    var f := c.ts[i].fields[k];
    assert TypedField(f, s.slots[i][k]);
    FieldResumes(f, s.slots[i][k], s.pmap.value, s.bit, d, e, p);
    var r := DecodeField(f, s.slots[i][k], s.pmap.value, s.bit, d, p);
    if r.Later? {
      WithSlotTyped(c, s, i, k, r.slot);
      var w := DecodeField(f, s.slots[i][k], s.pmap.value, s.bit, d + e, p);
      if !w.Broken? {
        SlotTwice(s, i, k, r.slot, w.slot);
      }
      SlotTwice(s, i, k, r.slot, r.slot);
    }
  }

  lemma MicroResumes(c: Config, s: Session, d: seq<byte>, e: seq<byte>, p: nat)
    requires p <= |d| && Valid(c, s) && AllRepeatable(c)
    ensures StepResumes(c, s, d, e, p)
  {
    if c.preambleBytes > 0 && !s.preamble {
      PreambleResumes(c, s, d, e, p);
    } else if s.pmap.None? {
      MapResumes(c, s, d, e, p);
    } else if s.msg.None? {
      TemplateResumes(c, s, d, e, p);
    } else if s.decoded < |c.ts[s.msg.value].fields| {
      FieldMicroResumes(c, s, d, e, p);
    }
  }

  /** A run over a first part of the bytes, resumed when the others are there, is a run over all of them. */
  ghost predicate RunResumesAt(c: Config, s: Session, d: seq<byte>, e: seq<byte>, p: nat)
    requires p <= |d| && Valid(c, s)
  {
    var r, w := Run(c, s, d, p), Run(c, s, d + e, p);
    if r.NeedMore? then Run(c, r.s, d + e, r.p) == w else w == r
  }

  lemma {:induction false} RunResumes(c: Config, s: Session, d: seq<byte>, e: seq<byte>, p: nat)
    requires p <= |d| && Valid(c, s) && AllRepeatable(c)
    ensures RunResumesAt(c, s, d, e, p)
    decreases Steps(s), FieldsLeft(c, s)
  {
    MicroIsValid(c, s, d, p);
    MicroResumes(c, s, d, e, p);
    assert Run(c, s, d, p) == RunOn(c, s, d, p);
    assert Run(c, s, d + e, p) == RunOn(c, s, d + e, p);
    var m := MicroStep(c, s, d, p);
    if m.Next? {
      RunResumes(c, m.s, d, e, m.p);
    } else if m.Waiting? {
      assert Run(c, m.s, d + e, m.p) == RunOn(c, m.s, d + e, m.p);
    }
  }
}
