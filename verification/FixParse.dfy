/** Reading FIX messages: fix_message_parse of lib/proto/fix_message.c and its helpers, as functions of the
    bytes in the buffer and of a position in them. */
module FixParse {
  import opened Wrappers
  import opened Digits
  import opened ByteBuffer
  import opened FixWire

  const MAX_MESSAGE_SIZE: nat := 1280

  // ----- one field ------------------------------------------------------------------------

  /** What a step reads and where it leaves the cursor. */
  datatype Outcome<T> = Done(value: T, next: nat) | Partial(next: nat) | Garbled(next: nat)

  /** parse_tag */
  function TagAt(d: seq<byte>, p: nat): (r: Outcome<nat>)
    requires p <= |d|
    ensures p <= r.next <= |d|
    ensures r.Done? || r.Garbled? ==> p < r.next
  {
    var q := FindFrom(d, p, EQUALS);
    if q == |d| then Partial(q)
    else
      var (n, end) := ReadNat(d, p, 0);
      if end != q then Garbled(q) else Done(n, q + 1)
  }

  /** parse_value: the position of the value, which ends before the next delimiter. */
  function ValueAt(d: seq<byte>, p: nat): (r: Outcome<nat>)
    requires p <= |d|
    ensures p <= r.next <= |d| && !r.Garbled?
    ensures r.Done? ==> r.value == p < r.next
  {
    var q := FindFrom(d, p, SOH);
    if q == |d| then Partial(q) else Done(p, q + 1)
  }

  /** next_tag */
  function AfterDelimiter(d: seq<byte>, p: nat): (r: nat)
    requires p <= |d|
    ensures p <= r <= |d|
  {
    var q := FindFrom(d, p, SOH);
    if q == |d| then q else q + 1
  }

  /** match_field */
  function FieldAt(d: seq<byte>, p: nat, tag: nat): (r: Outcome<nat>)
    requires p <= |d| && tag > 0
    ensures p <= r.next <= |d|
    ensures r.Done? || r.Garbled? ==> p < r.next
    ensures r.Done? ==> p + |Numeral(tag)| + 1 <= r.value < r.next
  {
    match TagAt(d, p)
    case Done(t, n) => if t == tag then (TagIsLong(d, p, tag); ValueAt(d, n)) else Garbled(AfterDelimiter(d, n))
    case Partial(n) => Partial(AfterDelimiter(d, n))
    case Garbled(n) => Garbled(AfterDelimiter(d, n))
  }

  lemma {:induction false} ReadNatFits(d: seq<byte>, p: nat, acc: nat)
    requires p <= |d|
    ensures ReadNat(d, p, acc).0 < (acc + 1) * Pow10(ReadNat(d, p, acc).1 - p)
    decreases |d| - p
  {
    if p < |d| && IsDigit(d[p]) {
      var next := 10 * acc + (d[p] - ZERO);
      ReadNatFits(d, p + 1, next);
      var k := ReadNat(d, p, acc).1 - p - 1;
      assert (next + 1) * Pow10(k) <= (10 * acc + 10) * Pow10(k);
      assert (10 * acc + 10) * Pow10(k) == (acc + 1) * (10 * Pow10(k));
    }
  }

  /** No fewer digits denote the tag than its numeral has. */
  lemma TagIsLong(d: seq<byte>, p: nat, tag: nat)
    requires p <= |d| && tag > 0 && TagAt(d, p).Done? && TagAt(d, p).value == tag
    ensures p + |Numeral(tag)| + 1 <= TagAt(d, p).next
  {
    ReadNatFits(d, p, 0);
    NumeralFits(tag, ReadNat(d, p, 0).1 - p);
  }

  // ----- types ----------------------------------------------------------------------------

  datatype MsgType =
    | Heartbeat | TestRequest | ResendRequest | Reject | SequenceReset | Logout | ExecutionReport | OrderCancelReject
    | Logon | NewOrderSingle | OrderCancelRequest | OrderCancelReplace | SnapshotRefresh | IncrementRefresh
    | SessionStatus | SecurityStatus | OrderMassCancelRequest | OrderMassCancelReport | QuoteRequest
    | SecurityDefinitionRequest | NewOrderCross | MassQuote | QuoteCancel | SecurityDefinition
    | QuoteAcknowledgement | OrderMassStatusRequest | OrderMassActionRequest | OrderMassActionReport
    | Unknown

  /** The table fix_msg_types, in ASCII; there is no text for an unknown type. */
  function TypeText(t: MsgType): seq<byte> {
    match t
    case Heartbeat => [48]
    case TestRequest => [49]
    case ResendRequest => [50]
    case Reject => [51]
    case SequenceReset => [52]
    case Logout => [53]
    case ExecutionReport => [56]
    case OrderCancelReject => [57]
    case Logon => [65]
    case NewOrderSingle => [68]
    case OrderCancelRequest => [70]
    case OrderCancelReplace => [71]
    case SnapshotRefresh => [87]
    case IncrementRefresh => [88]
    case SessionStatus => [104]
    case SecurityStatus => [102]
    case OrderMassCancelRequest => [113]
    case OrderMassCancelReport => [114]
    case QuoteRequest => [82]
    case SecurityDefinitionRequest => [99]
    case NewOrderCross => [115]
    case MassQuote => [105]
    case QuoteCancel => [90]
    case SecurityDefinition => [100]
    case QuoteAcknowledgement => [98]
    case OrderMassStatusRequest => [65, 70]
    case OrderMassActionRequest => [67, 65]
    case OrderMassActionReport => [66, 90]
    case Unknown => []
  }

  /** fix_msg_type_parse on the three bytes it looks at. */
  function TypeParse(a: byte, b: byte, c: byte): MsgType {
    if b != SOH then
      if c != SOH then Unknown
      else if a == 65 && b == 70 then OrderMassStatusRequest
      else if a == 67 && b == 65 then OrderMassActionRequest
      else if a == 66 && b == 90 then OrderMassActionReport
      else Unknown
    else
      match a
      case 48 => Heartbeat
      case 49 => TestRequest
      case 50 => ResendRequest
      case 51 => Reject
      case 52 => SequenceReset
      case 53 => Logout
      case 56 => ExecutionReport
      case 57 => OrderCancelReject
      case 65 => Logon
      case 68 => NewOrderSingle
      case 70 => OrderCancelRequest
      case 71 => OrderCancelReplace
      case 87 => SnapshotRefresh
      case 88 => IncrementRefresh
      case 104 => SessionStatus
      case 102 => SecurityStatus
      case 113 => OrderMassCancelRequest
      case 114 => OrderMassCancelReport
      case 82 => QuoteRequest
      case 99 => SecurityDefinitionRequest
      case 115 => NewOrderCross
      case 105 => MassQuote
      case 90 => QuoteCancel
      case 100 => SecurityDefinition
      case 98 => QuoteAcknowledgement
      case _ => Unknown
  }

  /** The type of a value: the one whose text it is. */
  function TypeOf(s: seq<byte>): MsgType {
    if |s| == 1 then TypeParse(s[0], SOH, SOH) else if |s| == 2 then TypeParse(s[0], s[1], SOH) else Unknown
  }

  /** The switch inverts the table. */
  lemma TypeOfText(s: seq<byte>, t: MsgType)
    requires SOH !in s && !t.Unknown?
    ensures TypeOf(s) == t <==> s == TypeText(t)
  {
    if |s| == 1 {
      assert s == [s[0]];
    } else if |s| == 2 {
      assert s == [s[0], s[1]] && s[1] in s;
    }
  }

  /** Three bytes are enough, whatever lies behind a short value. */
  lemma ThreeBytesSuffice(s: seq<byte>, a: byte, b: byte, c: byte)
    requires SOH !in s
    requires var t := s + [SOH];
      && a == t[0] && (|t| > 1 ==> b == t[1]) && (|t| > 2 ==> c == t[2])
    ensures TypeParse(a, b, c) == TypeOf(s)
  {
    assert |s| > 2 ==> s[1] in s && s[2] in s;
    assert |s| == 2 ==> s[1] in s;
  }

  datatype FixType = IntType | FloatType | CharType | StringType | ChecksumType | MsgSeqNumType

  const INT_TAGS: seq<nat> := [369, 1023, 7, 45, 16, 36, 83, 103]
  const FLOAT_TAGS: seq<nat> := [271, 32, 151, 270, 38, 14, 31, 6, 44]

  /** fix_tag_type, which every dialect of the library uses */
  function FixTagType(tag: nat): FixType {
    if tag == CHECK_SUM then ChecksumType
    else if tag == MSG_SEQ_NUM then MsgSeqNumType
    else if tag == 442 then CharType
    else if tag in INT_TAGS then IntType
    else if tag in FLOAT_TAGS then FloatType
    else StringType
  }

  // ----- the message ----------------------------------------------------------------------

  /** Pointers to the values of the first three fields. */
  datatype Head = Head(beginString: nat, bodyLength: nat, msgType: nat)

  /** parse_body_length */
  function LengthAt(d: seq<byte>, p: nat): (r: Outcome<nat>)
    requires p <= |d|
    ensures p <= r.next <= |d|
    ensures r.Done? || r.Garbled? ==> p < r.next
    ensures r.Done? ==> 0 < r.value <= MAX_MESSAGE_SIZE
  {
    match FieldAt(d, p, BODY_LENGTH)
    case Done(v, n) =>
      var len := ReadNat(d, v, 0).0;
      if len <= 0 || len > MAX_MESSAGE_SIZE then Garbled(n) else Done(len, n)
    case Partial(n) => Partial(n)
    case Garbled(n) => Garbled(n)
  }

  lemma TwoDigitTags()
    ensures |Numeral(BEGIN_STRING)| == 1 && |Numeral(MSG_TYPE)| == 2 && |Numeral(CHECK_SUM)| == 2
  {
    assert |Numeral(3)| == 1 && |Numeral(1)| == 1;
  }

  /** first_three_fields, but for the look at the type */
  function ThreeAt(d: seq<byte>, p: nat): (r: Outcome<Head>)
    requires p <= |d|
    ensures p <= r.next <= |d|
    ensures r.Done? || r.Garbled? ==> p < r.next
    ensures r.Done? ==>
      var h := r.value;
      p + 2 <= h.beginString && h.beginString + 3 <= h.msgType < r.next && 0 < h.bodyLength <= MAX_MESSAGE_SIZE
  {
    match FieldAt(d, p, BEGIN_STRING)
    case Partial(n) => Partial(n)
    case Garbled(n) => Garbled(n)
    case Done(begin, n) =>
      TwoDigitTags();
      match LengthAt(d, n)
      case Partial(n') => Partial(n')
      case Garbled(n') => Garbled(n')
      case Done(len, n') =>
        match FieldAt(d, n', MSG_TYPE)
        case Partial(n'') => Partial(n'')
        case Garbled(n'') => Garbled(n'')
        case Done(type', n'') => Done(Head(begin, len, type'), n'')
  }

  /** A message of a type that the table lacks is garbled, unless types are not to be looked at. */
  function HeadAt(d: seq<byte>, p: nat, noType: bool): (r: Outcome<Head>)
    requires p <= |d|
    ensures p <= r.next <= |d|
    ensures r.Done? || r.Garbled? ==> p < r.next
    ensures r.Done? ==> r == ThreeAt(d, p)
  {
    match ThreeAt(d, p)
    case Done(h, n) => if !noType && TypeOf(d[h.msgType..n - 1]).Unknown? then Garbled(n) else Done(h, n)
    case e => e
  }

  /** The CheckSum field at `q`, which must state the sum of everything before it. */
  function TrailerAt(d: seq<byte>, h: Head, q: nat): (r: Outcome<()>)
    requires 2 <= h.beginString <= q <= |d|
    ensures q <= r.next <= |d| && (r.Done? || r.Garbled? ==> q < r.next)
  {
    match FieldAt(d, q, CHECK_SUM)
    case Partial(n) => Partial(n)
    case Garbled(n) => Garbled(n)
    case Done(v, n) =>
      TwoDigitTags();
      if Sum8(d[h.beginString - 2..v - 3]) == ReadNat(d, v, 0).0 then Done((), n) else Garbled(n)
  }

  /** checksum: where the fields start again, once the trailer where BodyLength points is right. */
  function SumAt(d: seq<byte>, h: Head, p: nat, noCsum: bool): (r: Outcome<()>)
    requires 2 <= h.beginString && h.beginString + 3 <= h.msgType < p <= |d|
    ensures r.next <= |d| && (r.Done? ==> r.next == p) && (r.Garbled? ==> h.beginString < r.next)
  {
    var offset := p - (h.msgType - 3);
    if |d| - p + offset < h.bodyLength + 7 then Partial(p)
    else if noCsum then Done((), p)
    else
      match TrailerAt(d, h, p + h.bodyLength - offset)
      case Done(_, _) => Done((), p)
      case e => e
  }

  /** parse_field: the tag and the position of the value. */
  function AnyFieldAt(d: seq<byte>, p: nat): (r: Outcome<(nat, nat)>)
    requires p <= |d|
    ensures p <= r.next <= |d|
    ensures r.Done? ==> p < r.value.1 < r.next
  {
    match TagAt(d, p)
    case Done(tag, n) =>
      (match ValueAt(d, n)
       case Done(v, n') => Done((tag, v), n')
       case _ => Partial(ValueAt(d, n).next))
    case Partial(n) => Partial(AfterDelimiter(d, n))
    case Garbled(n) => Garbled(AfterDelimiter(d, n))
  }

  /** The value that the type of a tag makes of the bytes at `v`; strtod is not modelled, so a floating point
      number stays text. */
  function TypedValue(d: seq<byte>, v: nat, end: nat, t: FixType): Value
    requires v <= end < |d|
  {
    match t
    case IntType => Number(ReadInt(d, v).0)
    case MsgSeqNumType => Number(ReadNat(d, v, 0).0)
    case CharType => Char(d[v])
    case _ => Text(d[v..end])
  }

  function ReadFieldAt(d: seq<byte>, p: nat): (r: Outcome<Field>)
    requires p <= |d|
    ensures p <= r.next <= |d|
    ensures r.Done? ==> p < r.next
  {
    match AnyFieldAt(d, p)
    case Done((tag, v), n) => Done(Field(tag, TypedValue(d, v, n - 1, FixTagType(tag))), n)
    case Partial(n) => Partial(n)
    case Garbled(n) => Garbled(n)
  }

  predicate IsSeqNum(f: Field) {
    FixTagType(f.tag).MsgSeqNumType? && f.value.Number? && f.value.n >= 0
  }

  /** The fields of the message after one more: the sequence number is not among them. */
  function KeptAfter(f: Field, fields: seq<Field>): seq<Field> {
    if IsSeqNum(f) then fields else fields + [f]
  }

  /** The sequence number of the message after one more field. */
  function NumberAfter(f: Field, seqNum: nat): nat {
    if IsSeqNum(f) then f.value.n else seqNum
  }

  /** The fields, the sequence number and where the reading stopped. */
  datatype Rest = Rest(fields: seq<Field>, seqNum: nat, next: nat)

  /** rest_of_message */
  function RestAt(d: seq<byte>, p: nat, fields: seq<Field>, seqNum: nat): (r: Rest)
    requires p <= |d|
    ensures p <= r.next <= |d|
    decreases |d| - p, 1
  {
    RestRound(d, p, fields, seqNum)
  }

  /** One round: a field that cannot be read loses all of them. */
  function RestRound(d: seq<byte>, p: nat, fields: seq<Field>, seqNum: nat): (r: Rest)
    requires p <= |d|
    ensures p <= r.next <= |d|
    decreases |d| - p, 0
  {
    match ReadFieldAt(d, p)
    case Done(f, n) =>
      if FixTagType(f.tag).ChecksumType? then Rest(fields, seqNum, n)
      else RestAt(d, n, KeptAfter(f, fields), NumberAfter(f, seqNum))
    case e => Rest([], seqNum, e.next)
  }

  /** fix_message_new makes room for so many fields, and rest_of_message does not look whether they suffice. */
  const MAX_FIELDS: nat := 48

  /** How many fields rest_of_message writes from `p` on. */
  function WritesAt(d: seq<byte>, p: nat): nat
    requires p <= |d|
    decreases |d| - p, 1
  {
    WritesRound(d, p)
  }

  function WritesRound(d: seq<byte>, p: nat): nat
    requires p <= |d|
    decreases |d| - p, 0
  {
    match ReadFieldAt(d, p)
    case Done(f, n) =>
      if FixTagType(f.tag).ChecksumType? then 0 else (if IsSeqNum(f) then 0 else 1) + WritesAt(d, n)
    case _ => 0
  }

  datatype Flags = Flags(noCsum: bool, noType: bool)

  datatype Parsed = Parsed(msgType: MsgType, head: Head, seqNum: nat, fields: seq<Field>)

  /** What follows the first three fields. */
  function BodyAt(d: seq<byte>, h: Head, p: nat, flags: Flags, seqNum: nat): (r: Outcome<Parsed>)
    requires 2 <= h.beginString && h.beginString + 3 <= h.msgType < p <= |d|
    ensures r.next <= |d| && (r.Done? ==> p <= r.next) && (r.Garbled? ==> h.beginString < r.next)
  {
    match SumAt(d, h, p, flags.noCsum)
    case Partial(n) => Partial(n)
    case Garbled(n) => Garbled(n)
    case Done(_, _) =>
      var rest := RestAt(d, p, [], seqNum);
      var t := if flags.noType then Unknown else TypeOf(d[h.msgType..p - 1]);
      Done(Parsed(t, h, rest.seqNum, rest.fields), rest.next)
  }

  /** One round of fix_message_parse. */
  function MessageAt(d: seq<byte>, p: nat, flags: Flags, seqNum: nat): (r: Outcome<Parsed>)
    requires p <= |d|
    ensures r.next <= |d|
    ensures r.Done? || r.Garbled? ==> p < r.next
  {
    if p == |d| then Partial(p)
    else
      match HeadAt(d, p, flags.noType)
      case Partial(n) => Partial(n)
      case Garbled(n) => Garbled(n)
      case Done(h, n) => BodyAt(d, h, n, flags, seqNum)
  }

  /** fix_message_parse: a garbled candidate is skipped, an incomplete one is left where it starts. */
  function ParseFrom(d: seq<byte>, p: nat, flags: Flags, seqNum: nat): (r: Outcome<Parsed>)
    requires p <= |d|
    ensures p <= r.next <= |d| && !r.Garbled? && (r.Done? ==> p < r.next)
    decreases |d| - p, 1
  {
    ParseRound(d, p, flags, seqNum)
  }

  function ParseRound(d: seq<byte>, p: nat, flags: Flags, seqNum: nat): (r: Outcome<Parsed>)
    requires p <= |d|
    ensures p <= r.next <= |d| && !r.Garbled? && (r.Done? ==> p < r.next)
    decreases |d| - p, 0
  {
    match MessageAt(d, p, flags, seqNum)
    case Partial(_) => Partial(p)
    case Garbled(n) => ParseFrom(d, n, flags, seqNum)
    case m => m
  }

  /** What is returned is the reading of one candidate, and an incomplete candidate keeps every byte. */
  lemma {:induction false} ParseIsOfCandidate(d: seq<byte>, p: nat, flags: Flags, seqNum: nat) returns (q: nat)
    requires p <= |d|
    ensures var r := ParseFrom(d, p, flags, seqNum);
      && p <= q <= |d| && (r.Partial? ==> q == r.next && MessageAt(d, q, flags, seqNum).Partial?)
      && (r.Done? ==> q < r.next && MessageAt(d, q, flags, seqNum) == r)
    decreases |d| - p
  {
    assert ParseFrom(d, p, flags, seqNum) == ParseRound(d, p, flags, seqNum);
    match MessageAt(d, p, flags, seqNum)
    case Garbled(n) => q := ParseIsOfCandidate(d, n, flags, seqNum);
    case _ => q := p;
  }

  // ----- the room for the fields ----------------------------------------------------------

  /** The fields behind the first three, once the checksum is right, do not exceed their room. */
  predicate BodyInside(d: seq<byte>, h: Head, p: nat, flags: Flags)
    requires 2 <= h.beginString && h.beginString + 3 <= h.msgType < p <= |d|
  {
    SumAt(d, h, p, flags.noCsum).Done? ==> WritesAt(d, p) <= MAX_FIELDS
  }

  predicate CandidateInside(d: seq<byte>, p: nat, flags: Flags)
    requires p <= |d|
  {
    var h := HeadAt(d, p, flags.noType);
    p < |d| && h.Done? ==> BodyInside(d, h.value, h.next, flags)
  }

  /** Parsing from `p` on stays within the room for the fields. */
  predicate Inside(d: seq<byte>, p: nat, flags: Flags, seqNum: nat)
    requires p <= |d|
    decreases |d| - p, 1
  {
    InsideRound(d, p, flags, seqNum)
  }

  predicate InsideRound(d: seq<byte>, p: nat, flags: Flags, seqNum: nat)
    requires p <= |d|
    decreases |d| - p, 0
  {
    var m := MessageAt(d, p, flags, seqNum);
    CandidateInside(d, p, flags) && (m.Garbled? ==> Inside(d, m.next, flags, seqNum))
  }
}
