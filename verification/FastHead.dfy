/** What may stand before the fields of a FAST message: a preamble, and a presence map that leaves the template out
    (FAST 1.1, section 6.1.2 and lib/proto/fast_message.c). */
module FastHead {
  import opened Wrappers
  import opened Digits
  import opened StopBit
  import opened PresenceMap
  import opened FastField
  import opened FastFlat
  import opened FastMessage
  import opened FastDecoder
  import opened FastEncoder
  import opened FastStream
  import opened FastRoundTrip
  import opened FastSequence

  // ----- the template is left out ---------------------------------------------------------

  /** A message that does not name its template. */
  function UnnamedText(f: Fields): seq<byte>
    requires f.Fields?
  {
    OwnMapText([false] + f.bits) + f.bytes
  }

  lemma UnnamedMapArrives(bits: seq<bool>, d: seq<byte>, p: nat) returns (bytes: seq<byte>)
    requires |bits| <= 55 && StandsAt(d, p, OwnMapText([false] + bits))
    ensures p <= |d| && MapAt(d, p) == Got(bytes, p + |OwnMapText([false] + bits)|)
    ensures p + |OwnMapText([false] + bits)| <= |d|
    ensures !IsSet(bytes, 0) && BitsAt(bytes, 0, bits)
  {
    var all := [false] + bits;
    bytes := OwnMapArrives(all, d, p);
    assert IsSet(bytes, -1 + 1 + 0) == all[0];
    forall j | 0 <= j < |bits| ensures IsSet(bytes, 0 + 1 + j) == bits[j] {
      assert IsSet(bytes, -1 + 1 + (j + 1)) == all[j + 1];
    }
  }

  lemma UnnamedHeadIsRead(c: Config, s: Session, i: nat, bits: seq<bool>, rest: seq<byte>, d: seq<byte>, p: nat)
      returns (t: Session, q: nat)
    requires Fresh(c, s) && |bits| <= 55 && i < |c.ts|
    requires s.lastTid == c.ts[i].tid < 0x8000_0000 && FindTemplate(c.ts, c.ts[i].tid) == Some(i)
    requires StandsAt(d, p, OwnMapText([false] + bits) + rest)
    ensures q == p + |OwnMapText([false] + bits)| <= |d| && StandsAt(d, q, rest)
    ensures InFields(c, t) && t.msg == Some(i) && t.decoded == 0 && t.bit == 0 && t.slots == s.slots
    ensures t.pmap.Some? && BitsAt(t.pmap.value, 0, bits) && RunsTo(c, s, t, d, p, q)
  {
    StandsParts(d, p, OwnMapText([false] + bits), rest);
    var bytes := UnnamedMapArrives(bits, d, p);
    q := p + |OwnMapText([false] + bits)|;
    var r := s.(pmap := Some(bytes), bit := 0);
    t := r.(msg := Some(i));
    RunsStep(c, s, r, d, p, q);
    RunsStep(c, r, t, d, q, q);
    RunsThrough(c, s, r, t, d, p, q, q);
  }

  /** A message that does not name its template is one of the template before it. */
  lemma UnnamedIsRead(c: Config, s: Session, i: nat, prevs: seq<FieldPrev>, values: seq<FieldSlot>, d: seq<byte>,
                      p: nat)
      returns (slots: seq<FieldSlot>, t: Session)
    requires Fresh(c, s) && i < |c.ts| && s.lastTid == c.ts[i].tid && Sendable(c, i, prevs, s.slots[i], values)
    requires StandsAt(d, p, UnnamedText(Encoded(c, i, prevs, values)))
    ensures p <= |d| && Run(c, s, d, p) == Message(t, i, p + |UnnamedText(Encoded(c, i, prevs, values))|)
    ensures Fresh(c, t) && t.slots == s.slots[i := slots] && t.lastTid == c.ts[i].tid
    ensures CoupledFields(c.ts[i].fields, Encoded(c, i, prevs, values).prevs, slots)
    ensures ShowsFields(c.ts[i].fields, slots, values)
  {
    var f := Encoded(c, i, prevs, values);
    var u, q := UnnamedHeadIsRead(c, s, i, f.bits, f.bytes, d, p);
    assert TypedAll(c.ts[i].fields, s.slots[i]);
    slots := AllFieldsReadBack(c.ts[i].fields, prevs, values, s.slots[i], u.pmap.value, 0, d, q);
    RunsFields(c, u, d, q);
    t := Closed(c, u, i, slots, |f.bits|);
  }

  // ----- the preamble ---------------------------------------------------------------------

  /** The same session where messages have no preamble. */
  function Bare(c: Config): Config {
    c.(preambleBytes := 0)
  }

  function Skipped(m: Micro): Micro {
    match m
    case Next(s, p) => Next(s.(preamble := true), p)
    case Waiting(s, p) => Waiting(s.(preamble := true), p)
    case other => other
  }

  lemma BareIsValid(c: Config, s: Session)
    ensures Valid(Bare(c), s) ==> Valid(c, s.(preamble := true))
  {
  }

  lemma StepBehindPreamble(c: Config, s: Session, d: seq<byte>, p: nat)
    requires p <= |d| && Valid(Bare(c), s)
    ensures Valid(c, s.(preamble := true))
    ensures MicroStep(c, s.(preamble := true), d, p) == Skipped(MicroStep(Bare(c), s, d, p))
  {
    BareIsValid(c, s);
    if s.pmap.Some? && s.msg.Some? && s.decoded < |c.ts[s.msg.value].fields| {
      assert TypedField(c.ts[s.msg.value].fields[s.decoded], s.slots[s.msg.value][s.decoded]);
    }
  }

  function Behind(r: Outcome): Outcome {
    match r
    case NeedMore(t, q) => NeedMore(t.(preamble := true), q)
    case other => other
  }

  /** Behind the preamble a message is decoded as one without. */
  ghost predicate RunsBehind(c: Config, s: Session, d: seq<byte>, p: nat)
    requires p <= |d| && Valid(Bare(c), s)
  {
    && Valid(c, s.(preamble := true))
    && Ahead(c, s.(preamble := true), d, p) == Behind(Ahead(Bare(c), s, d, p))
  }

  lemma {:induction false} BehindPreamble(c: Config, s: Session, d: seq<byte>, p: nat)
    requires p <= |d| && Valid(Bare(c), s)
    ensures RunsBehind(c, s, d, p)
    decreases Steps(s), FieldsLeft(Bare(c), s)
  {
    StepBehindPreamble(c, s, d, p);
    MicroIsValid(Bare(c), s, d, p);
    assert Run(Bare(c), s, d, p) == RunOn(Bare(c), s, d, p);
    assert Run(c, s.(preamble := true), d, p) == RunOn(c, s.(preamble := true), d, p);
    match MicroStep(Bare(c), s, d, p)
    case Next(t, q) => BehindPreamble(c, t, d, q);
    case _ =>
  }

  /** Between two messages the preamble is skipped as a whole, whatever its bytes, and waited for until it is there. */
  lemma PreambleIsSkipped(c: Config, s: Session, d: seq<byte>, p: nat)
    requires p <= |d| && c.preambleBytes > 0 && Valid(c, s) && Valid(Bare(c), s) && !s.preamble && s.pmap.None?
    ensures |d| - p < c.preambleBytes ==> Run(c, s, d, p) == NeedMore(s, p)
    ensures |d| - p >= c.preambleBytes ==> Run(c, s, d, p) == Behind(Run(Bare(c), s, d, p + c.preambleBytes))
  {
    assert Run(c, s, d, p) == RunOn(c, s, d, p);
    if |d| - p >= c.preambleBytes {
      BehindPreamble(c, s, d, p + c.preambleBytes);
    }
  }
}
