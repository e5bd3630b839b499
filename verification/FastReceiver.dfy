/** struct fast_session as fast_message_decode of lib/proto/fast_message.c works on it, in place. */
module FastReceiver {
  import opened Wrappers
  import opened Digits
  import opened ByteBuffer
  import opened StopBit
  import opened PresenceMap
  import opened FastField
  import opened FastFlat
  import opened FastMessage
  import opened FastReader
  import opened FastCell
  import opened FastDecoder
  import opened FastElement
  import opened FastGroup

  const MAX_PREAMBLE: nat := 8

  /** struct fast_message */
  class Message {
    const tid: nat
    const fields: seq<FieldRef>
    var decoded: nat

    constructor (tid: nat, fields: seq<FieldRef>)
      ensures this.tid == tid && this.fields == fields && decoded == 0
    {
      this.tid, this.fields, decoded := tid, fields, 0;
    }
  }

  /** What is still to come after a part of fast_message_decode that ended with `status`. */
  ghost function Remaining(c: Config, status: Status, s: Session, d: seq<byte>, p: nat): Outcome
    requires p <= |d| && Valid(c, s)
  {
    match status
    case Success => Ahead(c, s, d, p)
    case Partial => NeedMore(s, p)
    case Invalid => GaveUp
  }

  /** How far a part of fast_message_decode got: past its part, or to the place where it waits, or nowhere. */
  ghost predicate Gets(c: Config, s: Session, d: seq<byte>, p: nat, status: Status, t: Session, q: nat) {
    && p <= |d| && Valid(c, s) && q <= |d| && Valid(c, t)
    && Ahead(c, s, d, p) == Remaining(c, status, t, d, q)
  }

  /** One step of the decoder gets as far as it says. */
  lemma GetsStep(c: Config, s: Session, d: seq<byte>, p: nat, t: Session, q: nat)
    requires p <= |d| && Valid(c, s)
    ensures MicroStep(c, s, d, p) == Next(t, q) ==> Gets(c, s, d, p, Success, t, q)
    ensures MicroStep(c, s, d, p) == Waiting(t, q) ==> Gets(c, s, d, p, Partial, t, q)
    ensures MicroStep(c, s, d, p) == Failed && q <= |d| && Valid(c, t) ==> Gets(c, s, d, p, Invalid, t, q)
  {
    MicroIsValid(c, s, d, p);
    assert Run(c, s, d, p) == RunOn(c, s, d, p);
  }

  lemma GetsOn(c: Config, s: Session, d: seq<byte>, p: nat, t: Session, q: nat, status: Status, u: Session, r: nat)
    ensures Gets(c, s, d, p, Success, t, q) && Gets(c, t, d, q, status, u, r) ==> Gets(c, s, d, p, status, u, r)
  {
  }

  lemma GetsNowhere(c: Config, s: Session, d: seq<byte>, p: nat)
    requires p <= |d| && Valid(c, s)
    ensures Gets(c, s, d, p, Success, s, p)
  {
  }

  lemma Closes(c: Config, s: Session, d: seq<byte>, p: nat)
    requires p <= |d| && Valid(c, s) && s.msg.Some? && s.decoded == |c.ts[s.msg.value].fields|
    ensures Ahead(c, s, d, p)
         == FastDecoder.Message(s.(lastTid := c.ts[s.msg.value].tid, msg := None, preamble := false, pmap := None,
                                   decoded := 0), s.msg.value, p)
  {
    assert Run(c, s, d, p) == RunOn(c, s, d, p);
  }

  /** What decoding a field says of the step. */
  lemma GetsField(c: Config, s: Session, d: seq<byte>, p: nat, status: Status, fs: FieldSlot, bit: Bit, q: nat)
    requires p <= |d| && Valid(c, s) && s.msg.Some? && s.decoded < |c.ts[s.msg.value].fields|
    requires TypedField(c.ts[s.msg.value].fields[s.decoded], s.slots[s.msg.value][s.decoded])
    ensures FollowsField(DecodeField(c.ts[s.msg.value].fields[s.decoded], s.slots[s.msg.value][s.decoded], s.pmap.value,
                                     s.bit, d, p),
                         status, fs, bit, q) ==>
      var t := WithSlot(s, s.msg.value, s.decoded, fs);
      match status
      case Success => Gets(c, s, d, p, status, t.(bit := bit, decoded := s.decoded + 1), q)
      case Partial => Gets(c, s, d, p, status, t, q)
      case Invalid => forall u, r :: Valid(c, u) && 0 <= r <= |d| ==> Gets(c, s, d, p, status, u, r)
  {
    MicroIsValid(c, s, d, p);
    assert Run(c, s, d, p) == RunOn(c, s, d, p);
  }

  class Receiver {
    const preambleBytes: nat
    var preambleValid: bool
    const preamble: array<byte>
    const pmap: Pmap
    const buf: Buffer
    const messages: seq<Message>
    var current: Option<nat>
    var lastTid: nat

    /** The templates, the dictionaries, and which field an object is part of. */
    ghost const config: Config
    ghost var slots: seq<seq<FieldSlot>>
    ghost const owner: map<object, (nat, nat)>

    ghost predicate FieldHolds(i: nat, k: nat)
      requires i < |messages| && i < |slots| && i < |config.ts| && k < |messages[i].fields|
      reads `slots, owner.Keys
    {
      var f := messages[i].fields[k];
      && k < |slots[i]| && k < |config.ts[i].fields|
      && (forall o | o in Objects(f) :: o in owner && owner[o] == (i, k))
      && ValidField(f) && SlotOf(f) == slots[i][k] && SpecOf(f) == config.ts[i].fields[k]
    }

    /** The fields are those of the templates, and hold what the dictionaries say. */
    ghost predicate FieldsHold()
      reads `slots, owner.Keys
    {
      && |config.ts| == |slots| == |messages|
      && (forall i | 0 <= i < |messages| ::
            |config.ts[i].fields| == |slots[i]| == |messages[i].fields| && config.ts[i].tid == messages[i].tid)
      && (forall i, k | 0 <= i < |messages| && 0 <= k < |messages[i].fields| :: FieldHolds(i, k))
    }

    /** No object has two roles. */
    ghost predicate Apart()
    {
      && {this, buf, buf.data, pmap, pmap.bytes, preamble} !! owner.Keys
      && (forall m | m in messages :: m !in owner)
      && preamble != buf.data && preamble != pmap.bytes && pmap.bytes != buf.data
      && (forall i, j | 0 <= i < j < |messages| :: messages[i] != messages[j])
    }

    /** Only the message that is being decoded has fields decoded. */
    ghost predicate Counts()
      reads `current, messages
    {
      && (forall i | 0 <= i < |messages| && current != Some(i) :: messages[i].decoded == 0)
      && (current.Some? ==>
            current.value < |messages| && messages[current.value].decoded <= |messages[current.value].fields|)
    }

    ghost predicate Valid()
      reads this, buf, pmap, messages, owner.Keys
    {
      && FieldsHold() && Apart() && Counts()
      && buf.Valid() && pmap.Valid() && preamble.Length == MAX_PREAMBLE
      && config.preambleBytes == preambleBytes <= MAX_PREAMBLE
      && (current.Some? ==> pmap.valid) && (pmap.valid ==> preambleValid || preambleBytes == 0)
    }

    /** The session as the specification sees it. */
    ghost function Now(): (s: Session)
      requires Valid()
      reads this, buf, pmap, pmap.bytes, messages, owner.Keys
      ensures FastDecoder.Valid(config, s)
    {
      TypedNow();
      Session(preambleValid, if pmap.valid then Some(pmap.Map()) else None, pmap.bit, current,
              if current.Some? then messages[current.value].decoded else 0, slots, lastTid)
    }

    lemma TypedNow()
      requires Valid()
      ensures forall i | 0 <= i < |config.ts| :: TypedAll(config.ts[i].fields, slots[i])
    {
      forall i | 0 <= i < |config.ts| ensures TypedAll(config.ts[i].fields, slots[i]) {
        forall k | 0 <= k < |config.ts[i].fields| ensures TypedField(config.ts[i].fields[k], slots[i][k]) {
          assert FieldHolds(i, k);
        }
      }
    }

    /** fast_session_new, with the templates as the loader leaves them: nothing decoded, every object part of one
        field. */
    constructor (messages: seq<Message>, preambleBytes: nat, capacity: nat, ghost config: Config,
                 ghost slots: seq<seq<FieldSlot>>, ghost owner: map<object, (nat, nat)>)
      requires preambleBytes <= MAX_PREAMBLE && config.preambleBytes == preambleBytes
      requires |config.ts| == |slots| == |messages|
      requires forall i | 0 <= i < |messages| ::
        |config.ts[i].fields| == |slots[i]| == |messages[i].fields| && config.ts[i].tid == messages[i].tid
          && messages[i].decoded == 0
      requires forall i, k | 0 <= i < |messages| && 0 <= k < |messages[i].fields| ::
        var f := messages[i].fields[k];
        && (forall o | o in Objects(f) :: o in owner && owner[o] == (i, k))
        && ValidField(f) && SlotOf(f) == slots[i][k] && SpecOf(f) == config.ts[i].fields[k]
      requires forall m | m in messages :: m !in owner
      requires forall i, j | 0 <= i < j < |messages| :: messages[i] != messages[j]
      ensures Valid() && this.config == config && this.messages == messages && fresh(buf) && fresh(buf.data)
      ensures buf.data.Length == capacity
      ensures Now() == Session(false, None, 0, None, 0, slots, 0) && buf.start == buf.end == 0
    {
      hide ValidField, SlotOf, SpecOf, Objects;
      this.messages, this.preambleBytes, this.config, this.slots, this.owner := messages, preambleBytes, config, slots,
        owner;
      preambleValid, current, lastTid := false, None, 0;
      preamble := new byte[MAX_PREAMBLE](_ => 0);
      pmap := new Pmap();
      buf := new Buffer(capacity);
      new;
      forall i, k | 0 <= i < |messages| && 0 <= k < |messages[i].fields| ensures FieldHolds(i, k) {
        assert ValidField(messages[i].fields[k]);
      }
    }

    /** The preamble is skipped. */
    method TakePreamble() returns (status: Status)
      requires Valid()
      modifies buf`start, `preambleValid, preamble
      ensures Valid() && slots == old(slots)
      ensures status == Success ==> preambleValid || preambleBytes == 0
      ensures Gets(config, old(Now()), Arrived(buf), old(buf.start), status, Now(), buf.start)
    {
      ghost var s, d, p := Now(), Arrived(buf), buf.start;
      if preambleBytes > 0 && !preambleValid {
        if buf.end - buf.start < preambleBytes {
          GetsStep(config, s, d, p, s, p);
          return Partial;
        }
        for i := 0 to preambleBytes
          invariant Valid() && buf.start == p + i && buf.end == |d|
          invariant Now() == s && Arrived(buf) == d
        {
          preamble[i] := buf.Get8();
        }
        preambleValid := true;
        GetsStep(config, s, d, p, Now(), buf.start);
      } else {
        GetsNowhere(config, s, d, p);
      }
      return Success;
    }

    /** The presence map is read, from its start again if it is incomplete. */
    method TakeMap() returns (status: Status)
      requires Valid() && (preambleValid || preambleBytes == 0)
      modifies buf`start, pmap, pmap.bytes
      ensures Valid() && (status == Success ==> pmap.valid)
      ensures Gets(config, old(Now()), Arrived(buf), old(buf.start), status, Now(), buf.start)
    {
      ghost var s, d := Now(), Arrived(buf);
      var start := buf.start;
      if !pmap.valid {
        status := pmap.Parse(buf);
        if status == Success {
          pmap.valid, pmap.bit := true, 0;
        } else if status == Partial {
          buf.start := start;
        }
        GetsStep(config, s, d, start, Now(), buf.start);
      } else {
        GetsNowhere(config, s, d, start);
        return Success;
      }
    }

    /** fast_get_msg, which takes a 32-bit identifier. */
    method GetMessage(tid: nat) returns (got: Option<nat>)
      requires Valid()
      ensures got == FindTemplate(config.ts, AsInt(tid))
    {
      for i := 0 to |messages|
        invariant forall j | 0 <= j < i :: config.ts[j].tid != AsInt(tid)
      {
        if messages[i].tid == AsInt(tid) {
          return Some(i);
        }
      }
      return None;
    }

    /** The template is chosen: the one that the message names, or the last one. */
    method TakeTemplate() returns (status: Status)
      requires Valid() && pmap.valid
      modifies buf`start, `current
      ensures Valid() && (status == Success ==> current.Some?)
      ensures Gets(config, old(Now()), Arrived(buf), old(buf.start), status, Now(), buf.start)
    {
      hide FieldHolds;
      ghost var s, d := Now(), Arrived(buf);
      var start := buf.start;
      if current.Some? {
        GetsNowhere(config, s, d, start);
        return Success;
      }
      var tid: nat;
      status, tid := TemplateId();
      if status != Success {
        if status == Partial {
          buf.start := start;
        }
      } else {
        current := GetMessage(tid);
        status := if current.Some? then Success else Invalid;
      }
      GetsStep(config, s, d, start, Now(), buf.start);
    }

    /** The identifier of the template, if it is named. */
    method TemplateId() returns (status: Status, tid: nat)
      requires pmap.Valid() && buf.Valid()
      modifies buf`start
      ensures pmap.Valid() && buf.Valid()
      ensures Says(if IsSet(pmap.Map(), 0) then UintAt(Arrived(buf), old(buf.start))
                   else Got(lastTid, buf.start), status, tid, buf.start)
      ensures IsSet(pmap.Map(), 0) || buf.start == old(buf.start)
    {
      var named := pmap.Has(0);
      if named {
        status, tid := ParseUint(buf);
      } else {
        status, tid := Success, lastTid;
      }
    }

    /** The field with number `k` of template `i`; the others are left as they are. */
    method DecodeNext(i: nat, k: nat) returns (status: Status, ghost fs: FieldSlot)
      requires FieldsHold() && Apart() && buf.Valid() && pmap.Valid() && i < |messages| && k < |messages[i].fields|
      modifies buf`start, pmap`bit, `slots, owner.Keys
      ensures FieldsHold() && buf.Valid() && pmap.Valid() && slots == old(slots)[i := old(slots)[i][k := fs]]
      ensures Arrived(buf) == old(Arrived(buf)) && pmap.Map() == old(pmap.Map())
      ensures TypedField(config.ts[i].fields[k], old(slots)[i][k])
      ensures FollowsField(DecodeField(config.ts[i].fields[k], old(slots)[i][k], pmap.Map(), old(pmap.bit),
                                       Arrived(buf), old(buf.start)),
                           status, fs, pmap.bit, buf.start)
    {
      hide DecodeField, FollowsField, TypedField, SlotOf, SpecOf;
      assert FieldHolds(i, k);
      var f := messages[i].fields[k];
      status := DecodeOne(f, buf, pmap);
      fs := SlotOf(f);
      slots := slots[i := slots[i][k := fs]];
      forall j, l | 0 <= j < |messages| && 0 <= l < |messages[j].fields| ensures FieldHolds(j, l) {
        assert old(FieldHolds(j, l));
        assert (j == i && l == k) || Objects(messages[j].fields[l]) !! Objects(f);
      }
    }

    /** The next field of the message. */
    method DecodeCurrent() returns (status: Status, ghost fs: FieldSlot)
      requires Valid() && current.Some? && messages[current.value].decoded < |messages[current.value].fields|
      modifies buf`start, pmap`bit, `slots, owner.Keys
      ensures Valid() && Arrived(buf) == old(Arrived(buf))
      ensures var s, i, k := old(Now()), current.value, messages[current.value].decoded;
        && Now() == WithSlot(s, i, k, fs).(bit := pmap.bit) && TypedField(config.ts[i].fields[k], s.slots[i][k])
        && FollowsField(DecodeField(config.ts[i].fields[k], s.slots[i][k], s.pmap.value, s.bit, Arrived(buf),
                                    old(buf.start)),
                        status, fs, pmap.bit, buf.start)
    {
      status, fs := DecodeNext(current.value, messages[current.value].decoded);
    }

    /** A decoded field is counted; if it is incomplete, the map goes back to where it was. */
    method Settle(status: Status, bit: Bit)
      requires Valid() && current.Some? && messages[current.value].decoded < |messages[current.value].fields|
      modifies pmap`bit, messages
      ensures Valid() && Arrived(buf) == old(Arrived(buf))
      ensures var s := old(Now());
        Now() == match status
          case Success => s.(decoded := s.decoded + 1)
          case Partial => s.(bit := bit)
          case Invalid => s
      ensures status == Success ==> messages[current.value].decoded == old(messages[current.value].decoded) + 1
    {
      if status == Success {
        messages[current.value].decoded := messages[current.value].decoded + 1;
      } else if status == Partial {
        pmap.bit := bit;
      }
    }

    /** One field of the message. */
    method TakeField() returns (status: Status)
      requires Valid() && current.Some? && messages[current.value].decoded < |messages[current.value].fields|
      modifies buf`start, pmap`bit, messages, `slots, owner.Keys
      ensures Valid() && Arrived(buf) == old(Arrived(buf))
      ensures Gets(config, old(Now()), Arrived(buf), old(buf.start), status, Now(), buf.start)
      ensures status == Success ==> messages[current.value].decoded == old(messages[current.value].decoded) + 1
    {
      hide FieldHolds, DecodeField, TypedField, FollowsField;
      ghost var s := Now();
      var start, bit := buf.start, pmap.bit;
      ghost var fs;
      status, fs := DecodeCurrent();
      GetsField(config, s, Arrived(buf), start, status, fs, pmap.bit, buf.start);
      Settle(status, bit);
    }

    /** The message is complete. */
    method Finish() returns (index: nat)
      requires Valid() && current.Some? && messages[current.value].decoded == |messages[current.value].fields|
      modifies `lastTid, `current, `preambleValid, pmap`valid, messages
      ensures Valid()
      ensures Ahead(config, old(Now()), Arrived(buf), buf.start) == FastDecoder.Message(Now(), index, buf.start)
    {
      ghost var s := Now();
      index := current.value;
      lastTid := messages[index].tid;
      current := None;
      preambleValid := false;
      pmap.valid := false;
      messages[index].decoded := 0;
      Closes(config, s, Arrived(buf), buf.start);
    }

    /** Everything up to the fields. */
    method TakeHead() returns (status: Status)
      requires Valid()
      modifies buf`start, `preambleValid, preamble, pmap, pmap.bytes, `current
      ensures Valid() && (status == Success ==> current.Some?)
      ensures Gets(config, old(Now()), Arrived(buf), old(buf.start), status, Now(), buf.start)
    {
      hide FieldsHold;
      ghost var s, d, p := Now(), Arrived(buf), buf.start;
      status := TakePreamble();
      if status != Success {
        return;
      }
      ghost var t, q := Now(), buf.start;
      status := TakeMap();
      GetsOn(config, s, d, p, t, q, status, Now(), buf.start);
      if status != Success {
        return;
      }
      t, q := Now(), buf.start;
      status := TakeTemplate();
      GetsOn(config, s, d, p, t, q, status, Now(), buf.start);
    }

    /** fast_message_decode: the message, or nothing if bytes are missing or wrong. */
    method Decode() returns (got: Option<nat>)
      requires Valid()
      modifies buf`start, this, preamble, pmap, pmap.bytes, messages, owner.Keys
      ensures Valid() && Arrived(buf) == old(Arrived(buf))
      ensures match Ahead(config, old(Now()), Arrived(buf), old(buf.start))
        case Message(t, i, q) => got == Some(i) && Now() == t && buf.start == q
        case NeedMore(t, q) => got == None && Now() == t && buf.start == q
        case GaveUp => got == None
    {
      hide FieldHolds;
      ghost var s, d, p := Now(), Arrived(buf), buf.start;
      var status := TakeHead();
      if status != Success {
        return None;
      }
      while messages[current.value].decoded < |messages[current.value].fields|
        invariant Valid() && current.Some? && Arrived(buf) == d
        invariant Gets(config, s, d, p, Success, Now(), buf.start)
        decreases |messages[current.value].fields| - messages[current.value].decoded
      {
        ghost var t, q := Now(), buf.start;
        status := TakeField();
        GetsOn(config, s, d, p, t, q, status, Now(), buf.start);
        if status != Success {
          return None;
        }
      }
      var index := Finish();
      return Some(index);
    }
  }
}
