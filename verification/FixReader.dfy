/** fix_message_parse as it works: a message that points into the receive buffer, whose cursor moves. */
module FixReader {
  import opened Digits
  import opened ByteBuffer
  import opened FixWire
  import opened FixParse
  import opened FixRoundTrip

  /** fix_uatoi, which runs to the first byte that is not a digit; here there is one before `stop`. */
  method Uatoi(a: array<byte>, p: nat, ghost end: nat, ghost stop: nat) returns (n: nat, q: nat)
    requires p <= stop < end <= a.Length && !IsDigit(a[stop])
    ensures (n, q) == ReadNat(a[..end], p, 0) && q <= stop
  {
    n, q := 0, p;
    while IsDigit(a[q])
      invariant p <= q <= stop
      invariant ReadNat(a[..end], q, n) == ReadNat(a[..end], p, 0)
      decreases stop - q
    {
      n, q := 10 * n + (a[q] - ZERO), q + 1;
    }
  }

  /** fix_atoi64 */
  method Atoi64(a: array<byte>, p: nat, ghost end: nat, ghost stop: nat) returns (n: int)
    requires p <= stop < end <= a.Length && !IsDigit(a[stop]) && (a[p] == MINUS ==> p < stop)
    ensures n == ReadInt(a[..end], p).0
  {
    var q: nat;
    if a[p] == MINUS {
      n, q := Uatoi(a, p + 1, end, stop);
      n := 0 - n;
    } else {
      n, q := Uatoi(a, p, end, stop);
    }
  }

  /** parse_tag */
  method ParseTag(buf: Buffer) returns (r: Outcome<nat>)
    requires buf.Valid()
    modifies buf`start
    ensures buf.Valid() && r == TagAt(Arrived(buf), old(buf.start)) && buf.start == r.next
  {
    var start := buf.start;
    var found := buf.Find(EQUALS);
    FindStops(Arrived(buf), start, EQUALS);
    if !found {
      return Partial(buf.start);
    }
    var tag, end := Uatoi(buf.data, start, buf.end, buf.start);
    if end != buf.start {
      return Garbled(buf.start);
    }
    buf.start := buf.start + 1;
    return Done(tag, buf.start);
  }

  /** parse_value */
  method ParseValue(buf: Buffer) returns (r: Outcome<nat>)
    requires buf.Valid()
    modifies buf`start
    ensures buf.Valid() && r == ValueAt(Arrived(buf), old(buf.start)) && buf.start == r.next
  {
    var start := buf.start;
    var found := buf.Find(SOH);
    if !found {
      return Partial(buf.start);
    }
    buf.start := buf.start + 1;
    return Done(start, buf.start);
  }

  /** next_tag */
  method NextTag(buf: Buffer)
    requires buf.Valid()
    modifies buf`start
    ensures buf.Valid() && buf.start == AfterDelimiter(Arrived(buf), old(buf.start))
  {
    var found := buf.Find(SOH);
    if found {
      buf.start := buf.start + 1;
    }
  }

  /** match_field */
  method MatchField(buf: Buffer, tag: nat) returns (r: Outcome<nat>)
    requires buf.Valid() && tag > 0
    modifies buf`start
    ensures buf.Valid() && r == FieldAt(Arrived(buf), old(buf.start), tag) && buf.start == r.next
  {
    var ptag := ParseTag(buf);
    if ptag.Done? && ptag.value == tag {
      r := ParseValue(buf);
    } else {
      NextTag(buf);
      r := if ptag.Partial? then Partial(buf.start) else Garbled(buf.start);
    }
  }

  /** parse_field */
  method ParseField(buf: Buffer) returns (r: Outcome<(nat, nat)>)
    requires buf.Valid()
    modifies buf`start
    ensures buf.Valid() && r == AnyFieldAt(Arrived(buf), old(buf.start)) && buf.start == r.next
  {
    var ptag := ParseTag(buf);
    if ptag.Done? {
      var value := ParseValue(buf);
      r := if value.Done? then Done((ptag.value, value.value), buf.start) else Partial(buf.start);
    } else {
      NextTag(buf);
      r := if ptag.Partial? then Partial(buf.start) else Garbled(buf.start);
    }
  }

  /** A value ends with the first delimiter after its start. */
  lemma ValueEnds(d: seq<byte>, p: nat)
    requires p <= |d| && ValueAt(d, p).Done?
    ensures var n := ValueAt(d, p).next; p < n && d[n - 1] == SOH && SOH !in d[p..n - 1]
  {
    FindStops(d, p, SOH);
    var n := ValueAt(d, p).next;
    forall i | p <= i < n - 1 ensures d[i] != SOH {
    }
  }

  lemma FieldEnds(d: seq<byte>, p: nat, tag: nat)
    requires p <= |d| && tag > 0 && FieldAt(d, p, tag).Done?
    ensures var v, n := FieldAt(d, p, tag).value, FieldAt(d, p, tag).next;
      v < n && d[n - 1] == SOH && SOH !in d[v..n - 1]
  {
    ValueEnds(d, TagAt(d, p).next);
  }

  lemma AnyFieldEnds(d: seq<byte>, p: nat)
    requires p <= |d| && AnyFieldAt(d, p).Done?
    ensures var v, n := AnyFieldAt(d, p).value.1, AnyFieldAt(d, p).next; v < n && d[n - 1] == SOH && SOH !in d[v..n - 1]
  {
    ValueEnds(d, TagAt(d, p).next);
  }

  /** What lies behind the bytes that have arrived does not matter where it is looked at; the model reads zeros
      behind the block. */
  method Peek(a: array<byte>, p: nat) returns (b: byte)
    ensures p < a.Length ==> b == a[p]
  {
    b := if p < a.Length then a[p] else 0;
  }

  /** fix_msg_type_parse at the type's pointer */
  method ParseType(a: array<byte>, p: nat, ghost end: nat, ghost n: nat) returns (t: MsgType)
    requires p < n <= end <= a.Length && a[n - 1] == SOH && SOH !in a[p..n - 1]
    ensures t == TypeOf(a[..end][p..n - 1])
  {
    var x := Peek(a, p);
    var y := Peek(a, p + 1);
    var z := Peek(a, p + 2);
    t := TypeParse(x, y, z);
    ghost var s := a[p..n - 1];
    assert a[..end][p..n - 1] == s;
    assert s + [SOH] == a[p..n];
    ThreeBytesSuffice(s, x, y, z);
  }

  class Message {
    var msgType: MsgType
    var beginString: nat
    var bodyLength: nat
    var msgTypePtr: nat
    var checkSum: nat
    var msgSeqNum: nat
    const fields: array<Field>
    var nrFields: nat

    ghost predicate Valid()
      reads this
    {
      nrFields <= fields.Length == MAX_FIELDS
    }

    /** fix_message_new */
    constructor ()
      ensures Valid() && msgSeqNum == 0 && nrFields == 0 && fresh(fields)
    {
      msgType, beginString, bodyLength, msgTypePtr, checkSum, msgSeqNum, nrFields := Unknown, 0, 0, 0, 0, 0, 0;
      fields := new Field[MAX_FIELDS](_ => Field(0, Number(0)));
    }

    /** parse_body_length */
    method ParseBodyLength(buf: Buffer) returns (r: Outcome<nat>)
      requires buf.Valid()
      modifies buf`start, `bodyLength
      ensures buf.Valid() && r == LengthAt(Arrived(buf), old(buf.start)) && buf.start == r.next
      ensures r.Done? ==> bodyLength == r.value
    {
      ghost var start := buf.start;
      var f := MatchField(buf, BODY_LENGTH);
      if !f.Done? {
        return if f.Partial? then Partial(f.next) else Garbled(f.next);
      }
      FieldEnds(Arrived(buf), start, BODY_LENGTH);
      var len, _ := Uatoi(buf.data, f.value, buf.end, f.next - 1);
      bodyLength := len;
      if len <= 0 || len > MAX_MESSAGE_SIZE {
        return Garbled(f.next);
      }
      return Done(len, f.next);
    }

    /** parse_msg_type */
    method ParseMsgType(buf: Buffer, noType: bool) returns (r: Outcome<nat>)
      requires buf.Valid()
      modifies buf`start, `msgType, `msgTypePtr
      ensures buf.Valid() && buf.start == r.next
      ensures var f := FieldAt(Arrived(buf), old(buf.start), MSG_TYPE);
        if !f.Done? then r == f
        else
          var t := TypeOf(Arrived(buf)[f.value..f.next - 1]);
          && msgTypePtr == f.value
          && (if noType then msgType == Unknown && r == f
              else msgType == t && r == if t.Unknown? then Garbled(f.next) else f)
    {
      ghost var start := buf.start;
      var f := MatchField(buf, MSG_TYPE);
      if !f.Done? {
        return f;
      }
      msgTypePtr := f.value;
      if noType {
        msgType := Unknown;
        return f;
      }
      FieldEnds(Arrived(buf), start, MSG_TYPE);
      assert Arrived(buf)[f.value..f.next - 1] == buf.data[f.value..f.next - 1];
      msgType := ParseType(buf.data, f.value, buf.end, f.next);
      return if msgType.Unknown? then Garbled(f.next) else f;
    }

    /** The pointers that the first three fields leave. */
    ghost predicate Holds(h: Head)
      reads `beginString, `bodyLength, `msgTypePtr
    {
      beginString == h.beginString && bodyLength == h.bodyLength && msgTypePtr == h.msgType
    }

    /** first_three_fields */
    method FirstThreeFields(buf: Buffer, noType: bool) returns (r: Outcome<Head>)
      requires buf.Valid()
      modifies buf`start, `beginString, `bodyLength, `msgType, `msgTypePtr
      ensures buf.Valid() && buf.start == r.next && r == HeadAt(Arrived(buf), old(buf.start), noType)
      ensures r.Done? ==> Holds(r.value)
      ensures r.Done? ==>
        msgType == if noType then Unknown else TypeOf(Arrived(buf)[r.value.msgType..r.next - 1])
    {
      var first := MatchField(buf, BEGIN_STRING);
      if !first.Done? {
        return if first.Partial? then Partial(first.next) else Garbled(first.next);
      }
      beginString := first.value;
      var second := ParseBodyLength(buf);
      if !second.Done? {
        return if second.Partial? then Partial(second.next) else Garbled(second.next);
      }
      var third := ParseMsgType(buf, noType);
      if !third.Done? {
        return if third.Partial? then Partial(third.next) else Garbled(third.next);
      }
      return Done(Head(beginString, bodyLength, msgTypePtr), third.next);
    }

    /** checksum: jump to where BodyLength says, and back. */
    method Checksum(buf: Buffer, noCsum: bool, ghost h: Head) returns (r: Outcome<()>)
      requires buf.Valid() && Holds(h) && 2 <= h.beginString && h.beginString + 3 <= h.msgType < buf.start
      modifies buf`start, `checkSum
      ensures buf.Valid() && buf.start == r.next && r == SumAt(Arrived(buf), h, old(buf.start), noCsum)
    {
      var start := buf.start;
      var offset := start - (msgTypePtr - 3);
      if buf.end - start + offset < bodyLength + 7 {
        return Partial(start);
      }
      if noCsum {
        return Done((), start);
      }
      buf.start := start + bodyLength - offset;
      r := ChecksumField(buf, h);
      if r.Done? {
        buf.start := start;
        r := Done((), start);
      }
    }

    method ChecksumField(buf: Buffer, ghost h: Head) returns (r: Outcome<()>)
      requires buf.Valid() && Holds(h) && 2 <= h.beginString <= buf.start
      modifies buf`start, `checkSum
      ensures buf.Valid() && buf.start == r.next && r == TrailerAt(Arrived(buf), h, old(buf.start))
    {
      ghost var at := buf.start;
      var f := MatchField(buf, CHECK_SUM);
      if !f.Done? {
        return if f.Partial? then Partial(f.next) else Garbled(f.next);
      }
      checkSum := f.value;
      FieldEnds(Arrived(buf), at, CHECK_SUM);
      TwoDigitTags();
      var good := VerifyChecksum(buf, f.next);
      return if good then Done((), f.next) else Garbled(f.next);
    }

    /** verify_checksum */
    method VerifyChecksum(buf: Buffer, ghost n: nat) returns (good: bool)
      requires buf.Valid() && 2 <= beginString && 3 <= checkSum && beginString - 2 <= checkSum - 3
      requires checkSum < n <= buf.end
      requires buf.data[n - 1] == SOH
      ensures good <==> Sum8(Arrived(buf)[beginString - 2..checkSum - 3]) == ReadNat(Arrived(buf), checkSum, 0).0
    {
      var cksum, _ := Uatoi(buf.data, checkSum, buf.end, n - 1);
      var actual := SumRange(buf.data, beginString - 2, checkSum - 3);
      assert Arrived(buf)[beginString - 2..checkSum - 3] == buf.data[beginString - 2..checkSum - 3];
      good := actual == cksum;
    }

    /** The field that the type of its tag makes of a value. */
    method FieldOf(buf: Buffer, tag: nat, v: nat, n: nat) returns (f: Field)
      requires buf.Valid() && v < n <= buf.end && buf.data[n - 1] == SOH && SOH !in Arrived(buf)[v..n - 1]
      ensures f == Field(tag, TypedValue(Arrived(buf), v, n - 1, FixTagType(tag)))
    {
      ghost var d := Arrived(buf);
      match FixTagType(tag)
      case IntType =>
        assert !IsDigit(d[n - 1]) && (d[v] == MINUS ==> v < n - 1);
        var i := Atoi64(buf.data, v, buf.end, n - 1);
        f := Field(tag, Number(i));
      case MsgSeqNumType =>
        var i, _ := Uatoi(buf.data, v, buf.end, n - 1);
        f := Field(tag, Number(i));
      case CharType => f := Field(tag, Char(buf.data[v]));
      case _ =>
        assert d[v..n - 1] == buf.data[v..n - 1];
        f := Field(tag, Text(buf.data[v..n - 1]));
    }

    /** The next field, with the value that the type of its tag makes of it. */
    method ReadField(buf: Buffer) returns (r: Outcome<Field>)
      requires buf.Valid()
      modifies buf`start
      ensures buf.Valid() && r == ReadFieldAt(Arrived(buf), old(buf.start)) && buf.start == r.next
    {
      ghost var at := buf.start;
      var x := ParseField(buf);
      if !x.Done? {
        return if x.Partial? then Partial(x.next) else Garbled(x.next);
      }
      AnyFieldEnds(Arrived(buf), at);
      var f := FieldOf(buf, x.value.0, x.value.1, x.next);
      return Done(f, x.next);
    }

    /** The field is written behind `nr` others, unless it is the sequence number. */
    method Keep(f: Field, nr: nat) returns (n: nat)
      requires Valid() && nr + (if IsSeqNum(f) then 0 else 1) <= MAX_FIELDS
               && (FixTagType(f.tag).MsgSeqNumType? ==> IsSeqNum(f))
      modifies `msgSeqNum, fields
      ensures n == nr + (if IsSeqNum(f) then 0 else 1)
      ensures fields[..n] == KeptAfter(f, old(fields[..nr])) && msgSeqNum == NumberAfter(f, old(msgSeqNum))
    {
      if FixTagType(f.tag).MsgSeqNumType? {
        msgSeqNum := f.value.n;
        return nr;
      }
      ghost var read := fields[..nr];
      fields[nr] := f;
      assert fields[..nr + 1] == read + [f];
      return nr + 1;
    }

    /** rest_of_message */
    method RestOfMessage(buf: Buffer)
      requires buf.Valid() && Valid() && WritesAt(Arrived(buf), buf.start) <= MAX_FIELDS
      modifies buf`start, `nrFields, `msgSeqNum, fields
      ensures buf.Valid() && Valid()
      ensures RestAt(Arrived(buf), old(buf.start), [], old(msgSeqNum)) == Rest(fields[..nrFields], msgSeqNum, buf.start)
    {
      nrFields := 0;
      var nr := 0;
      ghost var d, start, was := Arrived(buf), buf.start, msgSeqNum;
      while true
        invariant buf.Valid() && Arrived(buf) == d && nrFields == 0
        invariant nr + WritesAt(d, buf.start) <= MAX_FIELDS
        invariant LeadsTo(d, start, [], was, buf.start, fields[..nr], msgSeqNum)
        decreases buf.end - buf.start
      {
        Unroll(d, buf.start, fields[..nr], msgSeqNum);
        NumberIsSeqNum(d, buf.start);
        var r := ReadField(buf);
        if !r.Done? {
          return;
        }
        if FixTagType(r.value.tag).ChecksumType? {
          nrFields := nr;
          return;
        }
        nr := Keep(r.value, nr);
      }
    }

    /** What the message holds once it is read. */
    ghost predicate IsRead(m: Parsed)
      requires Valid()
      reads this, fields
    {
      msgType == m.msgType && Holds(m.head) && msgSeqNum == m.seqNum && fields[..nrFields] == m.fields
    }

    /** What the outcome of a step means for the cursor and the message. */
    twostate predicate Left(buf: Buffer, new m: Outcome<Parsed>, new r: Outcome<()>)
      requires Valid()
      reads this, buf, fields
    {
      match m
      case Done(v, n) => r.Done? && buf.start == n && IsRead(v)
      case Partial(_) => r.Partial? && msgSeqNum == old(msgSeqNum)
      case Garbled(n) => r.Garbled? && buf.start == n && msgSeqNum == old(msgSeqNum)
    }

    /** The checksum and what follows the first three fields. */
    method ParseBody(buf: Buffer, flags: Flags, ghost h: Head) returns (r: Outcome<()>)
      requires Valid() && buf.Valid() && Holds(h) && 2 <= h.beginString && h.beginString + 3 <= h.msgType < buf.start
      requires BodyInside(Arrived(buf), h, buf.start, flags)
      requires msgType == if flags.noType then Unknown else TypeOf(Arrived(buf)[h.msgType..buf.start - 1])
      modifies buf`start, `checkSum, `nrFields, `msgSeqNum, fields
      ensures Valid() && buf.Valid() && Left(buf, BodyAt(Arrived(buf), h, old(buf.start), flags, old(msgSeqNum)), r)
    {
      r := Checksum(buf, flags.noCsum, h);
      if r.Done? {
        RestOfMessage(buf);
      }
    }

    /** One round of fix_message_parse. */
    method ParseCandidate(buf: Buffer, flags: Flags) returns (r: Outcome<()>)
      requires Valid() && buf.Valid() && CandidateInside(Arrived(buf), buf.start, flags)
      modifies buf`start, this, fields
      ensures Valid() && buf.Valid() && Left(buf, MessageAt(Arrived(buf), old(buf.start), flags, old(msgSeqNum)), r)
    {
      hide HeadAt, BodyAt, TypeOf;
      if buf.start == buf.end {
        return Partial(buf.start);
      }
      var h := FirstThreeFields(buf, flags.noType);
      if !h.Done? {
        return if h.Partial? then Partial(h.next) else Garbled(h.next);
      }
      HeadIsThree(Arrived(buf), old(buf.start), flags.noType);
      r := ParseBody(buf, flags, h.value);
    }

    /** fix_message_parse: every garbled candidate leaves fewer bytes, and an incomplete one loses none. The source
        relies on its caller that no message has more fields than there is room for. */
    method Parse(buf: Buffer, flags: Flags) returns (ok: bool)
      requires Valid() && buf.Valid() && Inside(Arrived(buf), buf.start, flags, msgSeqNum)
      modifies buf`start, this, fields
      ensures Valid() && buf.Valid()
      ensures var r := ParseFrom(Arrived(buf), old(buf.start), flags, old(msgSeqNum));
        buf.start == r.next && (if ok then r.Done? && IsRead(r.value) else r.Partial? && msgSeqNum == old(msgSeqNum))
    {
      ghost var d, first, was := Arrived(buf), buf.start, msgSeqNum;
      while true
        invariant Valid() && buf.Valid() && Arrived(buf) == d && msgSeqNum == was && Inside(d, buf.start, flags, was)
        invariant GoesOn(d, first, buf.start, flags, was)
        decreases buf.end - buf.start
      {
        var start := buf.start;
        UnrollParse(d, start, flags, was);
        var r := ParseCandidate(buf, flags);
        if r.Done? {
          return true;
        }
        if r.Partial? {
          buf.start := start;
          return false;
        }
      }
    }
  }

  ghost predicate GoesOn(d: seq<byte>, p: nat, q: nat, flags: Flags, seqNum: nat) {
    p <= |d| && q <= |d| && ParseFrom(d, p, flags, seqNum) == ParseFrom(d, q, flags, seqNum)
  }

  lemma UnrollParse(d: seq<byte>, p: nat, flags: Flags, seqNum: nat)
    requires p <= |d|
    ensures ParseFrom(d, p, flags, seqNum) == ParseRound(d, p, flags, seqNum)
    ensures Inside(d, p, flags, seqNum) == InsideRound(d, p, flags, seqNum)
  {
  }

  lemma HeadIsThree(d: seq<byte>, p: nat, noType: bool)
    requires p <= |d| && HeadAt(d, p, noType).Done?
    ensures var h := HeadAt(d, p, noType).value;
      2 <= h.beginString && h.beginString + 3 <= h.msgType < HeadAt(d, p, noType).next
  {
  }

  lemma NumberIsSeqNum(d: seq<byte>, p: nat)
    requires p <= |d|
    ensures var r := ReadFieldAt(d, p); r.Done? && FixTagType(r.value.tag).MsgSeqNumType? ==> IsSeqNum(r.value)
  {
  }

  /** One round of the loop, as the specification takes it. */
  lemma Unroll(d: seq<byte>, p: nat, fields: seq<Field>, seqNum: nat)
    requires p <= |d|
    ensures RestAt(d, p, fields, seqNum) == RestRound(d, p, fields, seqNum) && WritesAt(d, p) == WritesRound(d, p)
  {
  }
}
