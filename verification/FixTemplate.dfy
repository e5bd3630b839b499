/** The message template of lib/proto/fix_template.c: a message rendered once, whose changing parts are
    patched in place before every send. */
module FixTemplate {
  import opened Wrappers
  import opened Digits
  import opened ByteBuffer
  import opened FixWire
  import Itoa

  const BODY_LEN_ZPAD: nat := 4
  const SEQ_NUM_ZPAD: nat := 6
  const TIME_LEN: nat := 21
  const MAX_BUFFER: nat := 1024

  // ----- a message as a row of pieces -----------------------------------------------------

  type Pieces = seq<seq<byte>>

  function Offset(ss: Pieces, i: nat): nat
    requires i <= |ss|
  {
    |Flat(ss[..i])|
  }

  lemma OffsetStep(ss: Pieces, i: nat)
    requires i < |ss|
    ensures Flat(ss[..i + 1]) == Flat(ss[..i]) + ss[i]
    ensures Offset(ss, i + 1) == Offset(ss, i) + |ss[i]| <= |Flat(ss)|
  {
    FlatGrows(ss, i);
  }

  /** Cutting the row anywhere cuts the bytes at the offset. */
  lemma CutAt(ss: Pieces, i: nat)
    requires i <= |ss|
    ensures Flat(ss) == Flat(ss[..i]) + Flat(ss[i..])
  {
    assert ss == ss[..i] + ss[i..];
    FlatConcat(ss[..i], ss[i..]);
  }

  lemma SpliceMiddle(a: seq<byte>, b: seq<byte>, c: seq<byte>, t: seq<byte>)
    requires |t| == |b|
    ensures Itoa.Splice(a + b + c, |a|, t) == a + t + c
  {
  }

  lemma AroundPiece(ss: Pieces, i: nat)
    requires i < |ss|
    ensures Flat(ss) == Flat(ss[..i]) + ss[i] + Flat(ss[i + 1..])
  {
    CutAt(ss, i + 1);
    OffsetStep(ss, i);
  }

  /** Writing a piece of the same length over an old one is the same as replacing it in the row. */
  lemma PatchPiece(ss: Pieces, i: nat, t: seq<byte>)
    requires i < |ss| && |t| == |ss[i]|
    ensures Offset(ss, i) + |t| <= |Flat(ss)|
    ensures Itoa.Splice(Flat(ss), Offset(ss, i), t) == Flat(ss[i := t])
  {
    var r := ss[i := t];
    AroundPiece(ss, i);
    AroundPiece(r, i);
    assert r[..i] == ss[..i] && r[i + 1..] == ss[i + 1..];
    SpliceMiddle(Flat(ss[..i]), ss[i], Flat(ss[i + 1..]), t);
  }

  lemma {:induction false} SameLengths(x: Pieces, y: Pieces, j: nat)
    requires |x| == |y| && j <= |x| && forall k | 0 <= k < |x| :: |x[k]| == |y[k]|
    ensures Offset(x, j) == Offset(y, j)
  {
    if j > 0 {
      SameLengths(x, y, j - 1);
      OffsetStep(x, j - 1);
      OffsetStep(y, j - 1);
    }
  }

  /** The bytes of pieces i .. j-1 lie between the offsets of i and j. */
  lemma RangeOf(ss: Pieces, i: nat, j: nat)
    requires i <= j <= |ss|
    ensures Offset(ss, i) <= Offset(ss, j) <= |Flat(ss)|
    ensures Flat(ss)[Offset(ss, i)..Offset(ss, j)] == Flat(ss[i..j])
  {
    CutAt(ss, j);
    CutAt(ss[..j], i);
    assert ss[..j][..i] == ss[..i] && ss[..j][i..] == ss[i..j];
  }

  // ----- from scratch ---------------------------------------------------------------------

  datatype Config = Config(
    begin: seq<byte>, msgType: seq<byte>, sender: seq<byte>, target: seq<byte>, transact: bool, consts: seq<Field>)

  /** What changes from one message to the next. */
  datatype Current = Current(seqNum: nat, sender: seq<byte>, time: seq<byte>, fields: seq<Field>)

  /** Type, padded number, ids and times, the constant fields and then the variable ones. */
  function BodyRow(cfg: Config, c: Current): Pieces {
    [FieldBytes(Field(MSG_TYPE, Text(cfg.msgType)), 0),
     FieldBytes(Field(MSG_SEQ_NUM, Number(c.seqNum)), SEQ_NUM_ZPAD),
     FieldBytes(Field(SENDER_COMP_ID, Text(c.sender)), 0),
     FieldBytes(Field(SENDING_TIME, Text(c.time)), 0),
     FieldBytes(Field(TARGET_COMP_ID, Text(cfg.target)), 0),
     if cfg.transact then FieldBytes(Field(TRANSACT_TIME, Text(c.time)), 0) else [],
     FieldsBytes(cfg.consts),
     FieldsBytes(c.fields)]
  }

  function Body(cfg: Config, c: Current): seq<byte> {
    Flat(BodyRow(cfg, c))
  }

  /** The message serialized from its fields, with the exact length of its body and the sum of all its bytes. */
  function Render(cfg: Config, c: Current): seq<byte> {
    var body := Body(cfg, c);
    Wire(cfg.begin, Padded(|body|, BODY_LEN_ZPAD), body)
  }

  // ----- the row of the template ----------------------------------------------------------

  function Open(tag: nat): seq<byte> {
    Numeral(tag) + [EQUALS]
  }

  /** The bytes in the pieces that get patched. */
  datatype Values = Values(length: seq<byte>, seqNum: seq<byte>, sender: seq<byte>, time: seq<byte>)

  const LENGTH_AT := 2
  const SEQ_NUM_AT := 6
  const SENDER_AT := 9
  const TIME_AT := 12
  const TRANSACT_AT := 16
  const CONST_AT := 18

  /** The prepared message as a row: the changing parts are pieces 2, 6, 9, 12 and 16. */
  ghost predicate IsRow(cfg: Config, v: Values, row: Pieces) {
    && |row| == CONST_AT + 1
    && row[0] == FieldBytes(Field(BEGIN_STRING, Text(cfg.begin)), 0)
    && row[1] == Open(BODY_LENGTH) && row[2] == v.length && row[3] == [SOH]
    && row[4] == FieldBytes(Field(MSG_TYPE, Text(cfg.msgType)), 0)
    && row[5] == Open(MSG_SEQ_NUM) && row[6] == v.seqNum && row[7] == [SOH]
    && row[8] == Open(SENDER_COMP_ID) && row[9] == v.sender && row[10] == [SOH]
    && row[11] == Open(SENDING_TIME) && row[12] == v.time && row[13] == [SOH]
    && row[14] == FieldBytes(Field(TARGET_COMP_ID, Text(cfg.target)), 0)
    && (if cfg.transact then row[15] == Open(TRANSACT_TIME) && row[16] == v.time && row[17] == [SOH]
        else row[15] == [] && row[16] == [] && row[17] == [])
    && row[CONST_AT] == FieldsBytes(cfg.consts)
  }

  lemma Nine(a: seq<byte>, b: seq<byte>, c: seq<byte>, d: seq<byte>, e: seq<byte>, f: seq<byte>, g: seq<byte>,
             h: seq<byte>, i: seq<byte>) returns (r: Pieces)
    ensures |r| == 9 && r[0] == a && r[1] == b && r[2] == c && r[3] == d && r[4] == e && r[5] == f && r[6] == g
    ensures r[7] == h && r[8] == i
  {
    r := [a, b, c, d, e, f, g, h, i];
  }

  lemma BuildRow(cfg: Config, v: Values) returns (row: Pieces)
    ensures IsRow(cfg, v, row)
  {
    var front := Nine(FieldBytes(Field(BEGIN_STRING, Text(cfg.begin)), 0), Open(BODY_LENGTH), v.length, [SOH],
                      FieldBytes(Field(MSG_TYPE, Text(cfg.msgType)), 0), Open(MSG_SEQ_NUM), v.seqNum, [SOH],
                      Open(SENDER_COMP_ID));
    var back := Nine(v.sender, [SOH], Open(SENDING_TIME), v.time, [SOH],
                     FieldBytes(Field(TARGET_COMP_ID, Text(cfg.target)), 0), 
                     if cfg.transact then Open(TRANSACT_TIME) else [], if cfg.transact then v.time else [],
                     if cfg.transact then [SOH] else []);
    row := front + back + [FieldsBytes(cfg.consts)];
  }

  lemma FlatThree(ss: Pieces, i: nat)
    requires i + 3 <= |ss|
    ensures Flat(ss[..i + 3]) == Flat(ss[..i]) + (ss[i] + ss[i + 1] + ss[i + 2])
  {
    OffsetStep(ss, i);
    OffsetStep(ss, i + 1);
    OffsetStep(ss, i + 2);
    var a, x, y, z := Flat(ss[..i]), ss[i], ss[i + 1], ss[i + 2];
    assert a + x + y + z == a + (x + y + z);
  }

  lemma OpenField(f: Field, zpad: nat)
    ensures FieldBytes(f, zpad) == Open(f.tag) + ValueBytes(f.value, zpad) + [SOH]
  {
  }

  /** The row, with the three pieces of every field read as one. */
  lemma RowFields(cfg: Config, v: Values, c: Current, row: Pieces, r: Pieces)
    requires IsRow(cfg, v, row) && v.seqNum == Padded(c.seqNum, SEQ_NUM_ZPAD) && v.sender == c.sender
    requires v.time == c.time
    requires |r| == 10 && r[2..] == BodyRow(cfg, c)
    requires r[0] == FieldBytes(Field(BEGIN_STRING, Text(cfg.begin)), 0)
    requires r[1] == FieldBytes(Field(BODY_LENGTH, Text(v.length)), 0)
    ensures Flat(row + [FieldsBytes(c.fields)]) == Flat(r)
  {
    var all := row + [FieldsBytes(c.fields)];
    assert forall k | 2 <= k < 10 :: r[k] == BodyRow(cfg, c)[k - 2];
    assert r[1] == all[1] + all[2] + all[3] by {
      OpenField(Field(BODY_LENGTH, Text(v.length)), 0);
    }
    assert r[3] == all[5] + all[6] + all[7] by {
      OpenField(Field(MSG_SEQ_NUM, Number(c.seqNum)), SEQ_NUM_ZPAD);
    }
    assert r[4] == all[8] + all[9] + all[10] by {
      OpenField(Field(SENDER_COMP_ID, Text(c.sender)), 0);
    }
    assert r[5] == all[11] + all[12] + all[13] by {
      OpenField(Field(SENDING_TIME, Text(c.time)), 0);
    }
    assert r[7] == all[15] + all[16] + all[17] by {
      OpenField(Field(TRANSACT_TIME, Text(c.time)), 0);
    }
    GroupAll(all, r);
  }

  /** Two rows that agree so far still agree after a common piece. */
  lemma StepOne(x: Pieces, i: nat, y: Pieces, j: nat)
    requires i < |x| && j < |y| && Flat(x[..i]) == Flat(y[..j]) && x[i] == y[j]
    ensures Flat(x[..i + 1]) == Flat(y[..j + 1])
  {
    OffsetStep(x, i);
    OffsetStep(y, j);
  }

  /** ... or after three pieces that the other row has as one. */
  lemma StepThree(x: Pieces, i: nat, y: Pieces, j: nat)
    requires i + 3 <= |x| && j < |y| && Flat(x[..i]) == Flat(y[..j]) && x[i] + x[i + 1] + x[i + 2] == y[j]
    ensures Flat(x[..i + 3]) == Flat(y[..j + 1])
  {
    FlatThree(x, i);
    OffsetStep(y, j);
  }

  lemma GroupAll(row: Pieces, r: Pieces)
    requires |row| == 20 && |r| == 10
    requires r[0] == row[0] && r[1] == row[1] + row[2] + row[3] && r[2] == row[4] && r[3] == row[5] + row[6] + row[7]
    requires r[4] == row[8] + row[9] + row[10] && r[5] == row[11] + row[12] + row[13] && r[6] == row[14]
    requires r[7] == row[15] + row[16] + row[17] && r[8] == row[18] && r[9] == row[19]
    ensures Flat(row) == Flat(r)
  {
    assert row[..0] == r[..0];
    StepOne(row, 0, r, 0);
    StepThree(row, 1, r, 1);
    StepOne(row, 4, r, 2);
    StepThree(row, 5, r, 3);
    StepThree(row, 8, r, 4);
    StepThree(row, 11, r, 5);
    StepOne(row, 14, r, 6);
    StepThree(row, 15, r, 7);
    StepOne(row, 18, r, 8);
    StepOne(row, 19, r, 9);
    assert row[..20] == row && r[..10] == r;
  }

  lemma FlatTwo(a: seq<byte>, b: seq<byte>)
    ensures Flat([a, b]) == a + b
  {
    OffsetStep([a, b], 0);
    OffsetStep([a, b], 1);
    assert [a, b][..2] == [a, b];
    assert Flat([a, b][..0]) + a == a;
  }

  /** Sending the row and its sum is sending the message serialized from scratch. */
  lemma RowIsRender(cfg: Config, v: Values, c: Current, row: Pieces)
    requires IsRow(cfg, v, row)
    requires v == Values(Padded(|Body(cfg, c)|, BODY_LEN_ZPAD), Padded(c.seqNum, SEQ_NUM_ZPAD), c.sender, c.time)
    ensures var flat := Flat(row + [FieldsBytes(c.fields)]);
      && flat == HeadBytes(cfg.begin, v.length) + Body(cfg, c)
      && flat + Trailer(Sum8(flat)) == Render(cfg, c)
  {
    var head := [FieldBytes(Field(BEGIN_STRING, Text(cfg.begin)), 0),
                 FieldBytes(Field(BODY_LENGTH, Text(v.length)), 0)];
    RowFields(cfg, v, c, row, head + BodyRow(cfg, c));
    FlatConcat(head, BodyRow(cfg, c));
    FlatTwo(head[0], head[1]);
  }

  // ----- implementation -------------------------------------------------------------------

  method MemCpy(a: array<byte>, off: nat, t: seq<byte>)
    requires off + |t| <= a.Length
    modifies a
    ensures a[..] == Itoa.Splice(old(a[..]), off, t)
  {
    for i := 0 to |t|
      invariant forall k | 0 <= k < a.Length :: a[k] == if off <= k < off + i then t[k - off] else old(a[k])
    {
      a[off + i] := t[i];
    }
    Itoa.SpliceIs(old(a[..]), off, t, a[..]);
  }

  /** A splice inside the first `n` bytes is a splice of those bytes. */
  lemma SpliceWithin(s: seq<byte>, n: nat, off: nat, t: seq<byte>)
    requires off + |t| <= n <= |s|
    ensures Itoa.Splice(s, off, t)[..n] == Itoa.Splice(s[..n], off, t)
  {
  }

  class Template {
    const buf: Buffer
    var markerBodyLength: nat
    var markerMsgSeqNum: nat
    var markerSenderCompId: nat
    var markerSendingTime: nat
    var markerTransactTime: Option<nat>
    var markerConstStart: nat
    var markerConstEnd: nat
    var senderCompIdLen: nat
    var constCsum: nat
    var fields: seq<Field>
    ghost var cfg: Config
    ghost var values: Values
    ghost var row: Pieces

    /** The markers point at the pieces of a row. */
    ghost predicate Marked(row: Pieces)
      reads `markerBodyLength, `markerMsgSeqNum, `markerSenderCompId, `markerSendingTime, `markerTransactTime,
        `markerConstStart
    {
      && |row| > CONST_AT
      && markerBodyLength == Offset(row, LENGTH_AT)
      && markerMsgSeqNum == Offset(row, SEQ_NUM_AT)
      && markerSenderCompId == Offset(row, SENDER_AT)
      && markerSendingTime == Offset(row, TIME_AT)
      && (markerTransactTime.Some? ==> markerTransactTime.value == Offset(row, TRANSACT_AT))
      && markerConstStart == Offset(row, CONST_AT)
    }

    /** The buffer starts with the row. */
    ghost predicate Laid(row: Pieces)
      reads `markerBodyLength, `markerMsgSeqNum, `markerSenderCompId, `markerSendingTime, `markerTransactTime
      reads `markerConstStart, `markerConstEnd, buf, buf.data
    {
      && |row| == CONST_AT + 1 && Marked(row)
      && buf.data.Length == MAX_BUFFER && buf.Valid()
      && markerConstEnd == |Flat(row)| <= MAX_BUFFER
      && buf.data[..markerConstEnd] == Flat(row)
    }

    ghost predicate GoodValues()
      reads `values, `cfg, `senderCompIdLen, `markerTransactTime
    {
      && |values.length| == BODY_LEN_ZPAD && |values.seqNum| == SEQ_NUM_ZPAD
      && |values.sender| == senderCompIdLen && |values.time| == TIME_LEN
      && markerTransactTime.Some? == cfg.transact
    }

    /** What const_csum holds: the sum of the pieces that no patch touches. */
    ghost predicate GoodSum(row: Pieces)
      reads `constCsum
      requires |row| > CONST_AT
    {
      constCsum == (Sum8(row[CONST_AT]) + Sum8(Flat(row[..LENGTH_AT]))) % 256
    }

    ghost predicate Valid()
      reads this, buf, buf.data
    {
      Laid(row) && IsRow(cfg, values, row) && GoodValues() && GoodSum(row)
    }

    /** fix_template_new */
    constructor ()
      ensures buf.Valid() && buf.start == buf.end == 0 && buf.data.Length == MAX_BUFFER && fresh(buf) && fresh(buf.data)
      ensures markerTransactTime == None && fields == []
    {
      buf := new Buffer(MAX_BUFFER);
      markerBodyLength, markerMsgSeqNum, markerSenderCompId, markerSendingTime := 0, 0, 0, 0;
      markerTransactTime, markerConstStart, markerConstEnd := None, 0, 0;
      senderCompIdLen, constCsum, fields := 0, 0, [];
    }

    /** Append piece `k` of the row `full`, a whole field. */
    method AddPlain(f: Field, ghost full: Pieces, ghost k: nat)
      requires buf.Valid() && Printable(f) && k < |full| && full[k] == FieldBytes(f, 0)
      requires buf.data[..buf.end] == Flat(full[..k]) && |Flat(full)| <= buf.data.Length
      modifies buf`end, buf.data
      ensures buf.Valid() && buf.data[..buf.end] == Flat(full[..k + 1])
    {
      OffsetStep(full, k);
      var _ := FieldUnparse(f, 0, buf);
    }

    /** Append pieces `k` .. `k`+2 of the row `full`, a field whose value is marked. */
    method AddMarked(f: Field, zpad: nat, ghost full: Pieces, ghost k: nat) returns (marker: nat)
      requires buf.Valid() && Printable(f) && k + 3 <= |full|
      requires full[k] == Open(f.tag) && full[k + 1] == ValueBytes(f.value, zpad) && full[k + 2] == [SOH]
      requires buf.data[..buf.end] == Flat(full[..k]) && |Flat(full)| <= buf.data.Length
      modifies buf`end, buf.data
      ensures buf.Valid() && buf.data[..buf.end] == Flat(full[..k + 3])
      ensures marker == Offset(full, k + 1)
    {
      OpenField(f, zpad);
      FlatThree(full, k);
      OffsetStep(full, k);
      OffsetStep(full, k + 2);
      ghost var text := full[k] + full[k + 1] + full[k + 2];
      marker := MarkedUnparse(f, zpad, text);
    }

    method MarkedUnparse(f: Field, zpad: nat, ghost text: seq<byte>) returns (marker: nat)
      requires buf.Valid() && Printable(f) && text == FieldBytes(f, zpad) && buf.end + |text| <= buf.data.Length
      modifies buf`end, buf.data
      ensures buf.Valid() && buf.data[..buf.end] == old(buf.data[..buf.end]) + text
      ensures marker == old(buf.end) + |Open(f.tag)|
    {
      marker := FieldUnparse(f, zpad, buf);
    }

    /** Append piece `k` of the row `full`, several fields. */
    method AddFields(fs: seq<Field>, ghost full: Pieces, ghost k: nat)
      requires buf.Valid() && AllPrintable(fs) && k < |full| && full[k] == FieldsBytes(fs)
      requires buf.data[..buf.end] == Flat(full[..k]) && |Flat(full)| <= buf.data.Length
      modifies buf`end, buf.data
      ensures buf.Valid() && buf.data[..buf.end] == Flat(full[..k + 1])
    {
      OffsetStep(full, k);
      FieldsUnparse(fs, buf);
    }

    /** Append the text field whose pieces start at `k`. */
    method AddText(tag: nat, text: seq<byte>, ghost full: Pieces, ghost k: nat) returns (marker: nat)
      requires buf.Valid() && tag < 0x1_0000_0000 && k + 3 <= |full|
      requires full[k] == Open(tag) && full[k + 1] == text && full[k + 2] == [SOH]
      requires buf.data[..buf.end] == Flat(full[..k]) && |Flat(full)| <= buf.data.Length
      modifies buf`end, buf.data
      ensures buf.Valid() && buf.data[..buf.end] == Flat(full[..k + 3]) && marker == Offset(full, k + 1)
    {
      marker := AddMarked(Field(tag, Text(text)), 0, full, k);
    }

    /** Append the zero-padded number whose pieces start at `k`. */
    method AddZero(tag: nat, zpad: nat, ghost full: Pieces, ghost k: nat) returns (marker: nat)
      requires buf.Valid() && tag < 0x1_0000_0000 && k + 3 <= |full|
      requires full[k] == Open(tag) && full[k + 1] == Padded(0, zpad) && full[k + 2] == [SOH]
      requires buf.data[..buf.end] == Flat(full[..k]) && |Flat(full)| <= buf.data.Length
      modifies buf`end, buf.data
      ensures buf.Valid() && buf.data[..buf.end] == Flat(full[..k + 3]) && marker == Offset(full, k + 1)
    {
      marker := AddMarked(Field(tag, Number(0)), zpad, full, k);
    }

    /** BeginString to MsgSeqNum. */
    method PrepareFront(begin: seq<byte>, msgType: seq<byte>, ghost full: Pieces)
      requires |full| == CONST_AT + 1 && |Flat(full)| <= buf.data.Length && buf.Valid() && buf.end == 0
      requires full[0] == FieldBytes(Field(BEGIN_STRING, Text(begin)), 0)
      requires full[1] == Open(BODY_LENGTH) && full[2] == Padded(0, BODY_LEN_ZPAD) && full[3] == [SOH]
      requires full[4] == FieldBytes(Field(MSG_TYPE, Text(msgType)), 0)
      requires full[5] == Open(MSG_SEQ_NUM) && full[6] == Padded(0, SEQ_NUM_ZPAD) && full[7] == [SOH]
      modifies buf`end, buf.data, this`markerBodyLength, this`markerMsgSeqNum
      ensures buf.Valid() && buf.data[..buf.end] == Flat(full[..8])
      ensures markerBodyLength == Offset(full, LENGTH_AT) && markerMsgSeqNum == Offset(full, SEQ_NUM_AT)
    {
      AddPlain(Field(BEGIN_STRING, Text(begin)), full, 0);
      markerBodyLength := AddZero(BODY_LENGTH, BODY_LEN_ZPAD, full, 1);
      AddPlain(Field(MSG_TYPE, Text(msgType)), full, 4);
      markerMsgSeqNum := AddZero(MSG_SEQ_NUM, SEQ_NUM_ZPAD, full, 5);
    }

    /** SenderCompID to TargetCompID. */
    method PrepareIds(sender: seq<byte>, time: seq<byte>, target: seq<byte>, ghost full: Pieces)
      requires |full| == CONST_AT + 1 && |Flat(full)| <= buf.data.Length && buf.Valid()
      requires buf.data[..buf.end] == Flat(full[..8])
      requires full[8] == Open(SENDER_COMP_ID) && full[9] == sender && full[10] == [SOH]
      requires full[11] == Open(SENDING_TIME) && full[12] == time && full[13] == [SOH]
      requires full[14] == FieldBytes(Field(TARGET_COMP_ID, Text(target)), 0)
      modifies buf`end, buf.data, this`markerSenderCompId, this`markerSendingTime, this`senderCompIdLen
      ensures buf.Valid() && buf.data[..buf.end] == Flat(full[..15])
      ensures markerSenderCompId == Offset(full, SENDER_AT) && markerSendingTime == Offset(full, TIME_AT)
      ensures senderCompIdLen == |sender|
    {
      markerSenderCompId := AddText(SENDER_COMP_ID, sender, full, 8);
      senderCompIdLen := |sender|;
      markerSendingTime := AddText(SENDING_TIME, time, full, 11);
      AddPlain(Field(TARGET_COMP_ID, Text(target)), full, 14);
    }

    /** TransactTime, if it is managed, and the constant fields. */
    method PrepareRest(transact: bool, time: seq<byte>, consts: seq<Field>, ghost full: Pieces)
      requires |full| == CONST_AT + 1 && |Flat(full)| <= buf.data.Length && buf.Valid()
      requires buf.data[..buf.end] == Flat(full[..15])
      requires if transact then full[15] == Open(TRANSACT_TIME) && full[16] == time && full[17] == [SOH]
               else full[15] == [] && full[16] == [] && full[17] == []
      requires full[CONST_AT] == FieldsBytes(consts) && AllPrintable(consts) && markerTransactTime == None
      modifies buf`end, buf.data, this`markerTransactTime, this`markerConstStart, this`markerConstEnd
      ensures buf.Valid() && markerConstEnd == |Flat(full)| && buf.data[..markerConstEnd] == Flat(full)
      ensures markerTransactTime.Some? == transact
      ensures markerTransactTime.Some? ==> markerTransactTime.value == Offset(full, TRANSACT_AT)
      ensures markerConstStart == Offset(full, CONST_AT)
    {
      if transact {
        var marker := AddText(TRANSACT_TIME, time, full, 15);
        markerTransactTime := Some(marker);
      } else {
        NothingAt15(full);
      }
      markerConstStart := buf.end;
      AddFields(consts, full, CONST_AT);
      markerConstEnd := buf.end;
      assert full[..CONST_AT + 1] == full;
    }

    /** fix_template_prepare: the caller must know that the message fits. */
    method Prepare(cfg: Config)
      requires buf.Valid() && buf.start == buf.end == 0 && buf.data.Length == MAX_BUFFER && markerTransactTime == None
      requires AllPrintable(cfg.consts) && forall r: Pieces | IsRow(cfg, Blank(cfg), r) :: |Flat(r)| <= MAX_BUFFER
      modifies this, buf`end, buf.data
      ensures Valid() && this.cfg == cfg && values == Blank(cfg) && fields == old(fields)
    {
      BlankLengths(cfg);
      ghost var full := BuildRow(cfg, Blank(cfg));
      PrepareRow(cfg, BLANK_TIME, Blank(cfg), full);
    }

    method PrepareRow(cfg: Config, time: seq<byte>, ghost v: Values, ghost full: Pieces)
      requires buf.Valid() && buf.start == buf.end == 0 && buf.data.Length == MAX_BUFFER && markerTransactTime == None
      requires AllPrintable(cfg.consts) && IsRow(cfg, v, full) && |Flat(full)| <= MAX_BUFFER
      requires |v.length| == BODY_LEN_ZPAD && |v.seqNum| == SEQ_NUM_ZPAD && |v.time| == TIME_LEN
      requires v == Values(Padded(0, BODY_LEN_ZPAD), Padded(0, SEQ_NUM_ZPAD), cfg.sender, time)
      modifies this, buf`end, buf.data
      ensures Valid() && this.cfg == cfg && values == v && fields == old(fields)
    {
      this.cfg, values, row := cfg, v, full;
      PrepareBytes(cfg, time, v, full);
      PrepareSum(full);
    }

    /** The bytes and the markers. */
    method PrepareBytes(cfg: Config, time: seq<byte>, ghost v: Values, ghost full: Pieces)
      requires buf.Valid() && buf.start == buf.end == 0 && buf.data.Length == MAX_BUFFER && markerTransactTime == None
      requires AllPrintable(cfg.consts) && IsRow(cfg, v, full) && |Flat(full)| <= MAX_BUFFER
      requires v == Values(Padded(0, BODY_LEN_ZPAD), Padded(0, SEQ_NUM_ZPAD), cfg.sender, time)
      modifies buf`end, buf.data, this`markerBodyLength, this`markerMsgSeqNum, this`markerSenderCompId
      modifies this`markerSendingTime, this`senderCompIdLen, this`markerTransactTime, this`markerConstStart,
        this`markerConstEnd
      ensures Laid(full) && senderCompIdLen == |cfg.sender| && markerTransactTime.Some? == cfg.transact
    {
      PrepareFront(cfg.begin, cfg.msgType, full);
      PrepareIds(cfg.sender, time, cfg.target, full);
      PrepareRest(cfg.transact, time, cfg.consts, full);
    }

    /** const_csum: the parts of the sum that no patch touches. */
    method PrepareSum(ghost full: Pieces)
      requires Laid(full)
      modifies this`constCsum
      ensures Laid(full) && GoodSum(full)
    {
      assert full[..CONST_AT + 1] == full;
      var constSum := SumPieces(markerConstStart, markerConstEnd, full, CONST_AT, CONST_AT + 1);
      OnePiece(full, CONST_AT);
      var headSum := SumPieces(0, markerBodyLength, full, 0, LENGTH_AT);
      assert full[0..LENGTH_AT] == full[..LENGTH_AT];
      constCsum := (constSum + headSum) % 256;
    }

    /** The sum of the bytes of pieces `i` .. `j`-1. */
    method SumPieces(start: nat, end: nat, ghost row: Pieces, ghost i: nat, ghost j: nat) returns (sum: nat)
      requires i <= j <= |row| && start == Offset(row, i) && end == Offset(row, j) && |Flat(row)| <= buf.data.Length
      ensures buf.data[..|Flat(row)|] == Flat(row) ==> sum == Sum8(Flat(row[i..j]))
    {
      RangeOf(row, i, j);
      sum := SumRange(buf.data, start, end);
      Slice(buf.data[..], |Flat(row)|, start, end);
    }

    /** Overwrite piece `i` of the row with bytes of the same length. */
    method Patch(marker: nat, t: seq<byte>, ghost row: Pieces, ghost i: nat)
      requires i < |row| && marker == Offset(row, i) && |t| == |row[i]|
      requires |Flat(row)| <= buf.data.Length && buf.data[..|Flat(row)|] == Flat(row)
      modifies buf.data
      ensures |Flat(row[i := t])| == |Flat(row)| && buf.data[..|Flat(row)|] == Flat(row[i := t])
    {
      PatchPiece(row, i, t);
      ghost var before := buf.data[..];
      MemCpy(buf.data, marker, t);
      SpliceWithin(before, |Flat(row)|, marker, t);
    }

    /** The same with a padded number; one that is too wide runs over what follows it. */
    method PatchNumber(marker: nat, n: nat, zpad: nat, ghost row: Pieces, ghost i: nat, ghost text: seq<byte>)
      requires i < |row| && marker == Offset(row, i) && text == Padded(n, zpad)
      requires |Flat(row)| <= buf.data.Length && marker + |text| <= buf.data.Length
      modifies buf.data
      ensures |text| == |row[i]| && old(buf.data[..|Flat(row)|]) == Flat(row) ==>
        |Flat(row[i := text])| == |Flat(row)| && buf.data[..|Flat(row)|] == Flat(row[i := text])
    {
      ghost var before := buf.data[..];
      var _ := Itoa.LitoaZpad(n, zpad, buf.data, marker);
      if |text| == |row[i]| && old(buf.data[..|Flat(row)|]) == Flat(row) {
        PatchPiece(row, i, text);
        SpliceWithin(before, |Flat(row)|, marker, text);
      }
    }

    /** fix_template_update_time */
    method UpdateTime(now: seq<byte>)
      requires Valid() && |now| == TIME_LEN
      modifies this`values, this`row, buf.data
      ensures Valid() && values == old(values).(time := now)
    {
      ghost var before := row;
      Patch(markerSendingTime, now, row, TIME_AT);
      row := row[TIME_AT := now];
      LengthsKeepOffsets(before, row);
      if markerTransactTime.Some? {
        Patch(markerTransactTime.value, now, row, TRANSACT_AT);
        row := row[TRANSACT_AT := now];
        LengthsKeepOffsets(before, row);
      }
      values := values.(time := now);
      assert row[..LENGTH_AT] == before[..LENGTH_AT];
    }

    /** The variable fields behind the constant ones. */
    method AppendFields(ghost full: Pieces)
      requires Laid(row) && full == row + [FieldsBytes(fields)] && AllPrintable(fields)
      requires |Flat(row)| + |FieldsBytes(fields)| <= MAX_BUFFER
      modifies buf`start, buf`end, buf.data
      ensures buf.Valid() && buf.start == 0 && buf.end == |Flat(full)| && buf.data[..buf.end] == Flat(full)
    {
      buf.start := 0;
      buf.end := markerConstEnd;
      FieldsUnparse(fields, buf);
      Extended(row, FieldsBytes(fields));
    }

    /** Sender, number and length. */
    method PatchAll(sender: seq<byte>, seqNum: nat, ghost full: Pieces, ghost number: seq<byte>,
                    ghost length: seq<byte>)
      requires buf.Valid() && buf.end == |Flat(full)| && buf.data[..buf.end] == Flat(full)
      requires Marked(full) && |sender| == |full[SENDER_AT]| && |length| == |full[LENGTH_AT]|
      requires Offset(full, SEQ_NUM_AT) + |number| <= buf.data.Length && number == Padded(seqNum, SEQ_NUM_ZPAD)
      requires Offset(full, LENGTH_AT) + 5 <= buf.end && Offset(full, LENGTH_AT) + |length| <= buf.data.Length
      requires length == Padded(buf.end - Offset(full, LENGTH_AT) - 5, BODY_LEN_ZPAD)
      modifies buf.data
      ensures |number| == |full[SEQ_NUM_AT]| ==> buf.data[..buf.end] == Flat(Patched(full, length, number, sender))
    {
      Patch(markerSenderCompId, sender, full, SENDER_AT);
      ghost var image := full[SENDER_AT := sender];
      LengthsKeepOffsets(full, image);
      PatchNumber(markerMsgSeqNum, seqNum, SEQ_NUM_ZPAD, image, SEQ_NUM_AT, number);
      if |number| == |full[SEQ_NUM_AT]| {
        image := image[SEQ_NUM_AT := number];
        LengthsKeepOffsets(full, image);
      }
      PatchNumber(markerBodyLength, buf.end - (markerBodyLength + BODY_LEN_ZPAD + 1), BODY_LEN_ZPAD, image, LENGTH_AT,
                  length);
    }

    /** The cached part of the sum and the fresh ones. */
    method SumAll(ghost image: Pieces) returns (cksum: nat)
      requires buf.Valid() && Marked(image) && |image| == CONST_AT + 2 && GoodSum(image)
      requires markerConstEnd == Offset(image, CONST_AT + 1) && buf.end == |Flat(image)|
      ensures cksum < 256 && (buf.data[..buf.end] == Flat(image) ==> cksum == Sum8(Flat(image)))
    {
      var changing := SumPieces(markerBodyLength, markerConstStart, image, LENGTH_AT, CONST_AT);
      assert image[..CONST_AT + 2] == image;
      var last := SumPieces(markerConstEnd, buf.end, image, CONST_AT + 1, CONST_AT + 2);
      cksum := (changing + constCsum + last) % 256;
      if buf.data[..buf.end] == Flat(image) {
        OnePiece(image, CONST_AT + 1);
        SumOfPieces(image, constCsum, changing, last);
      }
    }

    /** fix_template_unparse, for a sender id of the length prepared: what is sent is the message serialized from
        scratch, exactly as long as the sequence number has at most six digits. */
    method Unparse(sender: seq<byte>, seqNum: nat)
      requires Valid() && AllPrintable(fields) && |sender| == senderCompIdLen && seqNum < 0x8000_0000_0000_0000
      requires markerConstEnd + |FieldsBytes(fields)| + 7 <= MAX_BUFFER
      modifies `values, `row, buf`start, buf`end, buf.data
      ensures buf.Valid() && buf.start == 0
      ensures buf.data[..buf.end] == Render(cfg, Current(seqNum, sender, old(values.time), fields)) <==>
              seqNum < 1_000_000
      ensures seqNum < 1_000_000 ==> Valid() && values.time == old(values.time) && values.sender == sender
    {
      ghost var c, text := Current(seqNum, sender, values.time, fields), FieldsBytes(fields);
      ghost var length, number := LengthText(row, text), Padded(seqNum, SEQ_NUM_ZPAD);
      UnparseReady(row, text, seqNum);
      PatchAndSum(sender, seqNum, text, length, number);
      UnparseExact(cfg, values, c, row, length, number, text, buf.data[..buf.end]);
      if seqNum < 1_000_000 {
        Adopt(Patched(row, length, number, sender), Values(length, number, sender, values.time));
      }
    }

    /** The row that the buffer now starts with. */
    ghost method Adopt(next: Pieces, v: Values)
      requires Laid(next) && GoodSum(next) && IsRow(cfg, v, next) && GoodValues()
      requires |v.length| == BODY_LEN_ZPAD && |v.seqNum| == SEQ_NUM_ZPAD && |v.sender| == senderCompIdLen
      requires |v.time| == TIME_LEN
      modifies `row, `values
      ensures Valid() && row == next && values == v
    {
      row, values := next, v;
    }

    method PatchAndSum(sender: seq<byte>, seqNum: nat, ghost text: seq<byte>, ghost length: seq<byte>,
                       ghost number: seq<byte>)
      requires Laid(row) && GoodSum(row) && Wide(row) && AllPrintable(fields) && text == FieldsBytes(fields)
      requires |sender| == |row[SENDER_AT]| && |Flat(row)| + |text| + 7 <= MAX_BUFFER
      requires length == LengthText(row, text) && number == Padded(seqNum, SEQ_NUM_ZPAD) && |length| == BODY_LEN_ZPAD
      requires Offset(row, LENGTH_AT) + 5 <= |Flat(row + [text])| == |Flat(row)| + |text|
      requires Offset(row, SEQ_NUM_AT) + |number| <= |Flat(row + [text])|
      modifies buf`start, buf`end, buf.data
      ensures buf.Valid() && buf.start == 0 && buf.end == |Flat(row + [text])| + 7
      ensures |number| == SEQ_NUM_ZPAD ==>
        var next := Patched(row, length, number, sender);
        && Laid(next) && GoodSum(next)
        && buf.data[..buf.end] == Flat(next + [text]) + Trailer(Sum8(Flat(next + [text])))
    {
      ghost var full := row + [text];
      ghost var next := if |number| == SEQ_NUM_ZPAD then Patched(row, length, number, sender) else row;
      assert Marked(full) by {
        Extended(row, text);
      }
      AppendFields(full);
      PatchAll(sender, seqNum, full, number, length);
      assert |number| == SEQ_NUM_ZPAD ==> Patched(full, length, number, sender) == next + [text];
      Finish(row, next, text);
    }

    /** Sum and trailer. */
    method Finish(ghost was: Pieces, ghost next: Pieces, ghost text: seq<byte>)
      requires buf.Valid() && Marked(was) && GoodSum(was) && |was| == |next| == CONST_AT + 1
      requires markerConstEnd == |Flat(was)|
      requires forall k | 0 <= k <= CONST_AT :: |was[k]| == |next[k]|
      requires was[0] == next[0] && was[1] == next[1] && was[CONST_AT] == next[CONST_AT]
      requires buf.end == |Flat(was + [text])| && |Flat(was)| + |text| + 7 <= MAX_BUFFER == buf.data.Length
      modifies buf`end, buf.data
      ensures buf.Valid() && buf.end == |Flat(was + [text])| + 7
      ensures old(buf.data[..buf.end]) == Flat(next + [text]) ==>
        && Laid(next) && GoodSum(next)
        && buf.data[..buf.end] == Flat(next + [text]) + Trailer(Sum8(Flat(next + [text])))
    {
      Extended(was, text);
      Extended(next, text);
      SameMarks(was, next);
      SameSum(was, next);
      SameSum(was, next + [text]);
      assert Marked(next + [text]);
      assert (next + [text])[..CONST_AT + 1] == next;
      var cksum := SumAll(next + [text]);
      ghost var before, trailer := buf.data[..buf.end], Trailer(cksum);
      TrailerWidth(cksum);
      AppendTrailer(cksum, buf, trailer);
      assert buf.data[..buf.end] == before + trailer;
      assert next[..CONST_AT + 1] == next;
      if before == Flat(next + [text]) {
        Front(buf.data[..], buf.end, Flat(next), text, trailer);
      }
    }

    lemma UnparseReady(r: Pieces, text: seq<byte>, seqNum: nat)
      requires IsRow(cfg, values, r) && GoodValues() && |Flat(r)| + |text| <= MAX_BUFFER
      requires seqNum < 0x8000_0000_0000_0000
      ensures Wide(r) && |r[SENDER_AT]| == senderCompIdLen && |LengthText(r, text)| == BODY_LEN_ZPAD
      ensures |Padded(seqNum, SEQ_NUM_ZPAD)| == SEQ_NUM_ZPAD <==> seqNum < 1_000_000
      ensures Offset(r, LENGTH_AT) + 5 <= |Flat(r + [text])| == |Flat(r)| + |text|
      ensures Offset(r, SEQ_NUM_AT) + |Padded(seqNum, SEQ_NUM_ZPAD)| <= |Flat(r + [text])|
    {
      RowWidths(cfg, values, r);
      Extended(r, text);
      UnparseWidths(r, text, seqNum);
      Widths(seqNum);
    }

    lemma SameSum(x: Pieces, y: Pieces)
      requires |x| > CONST_AT && |y| > CONST_AT && x[0] == y[0] && x[1] == y[1] && x[CONST_AT] == y[CONST_AT]
      requires GoodSum(x)
      ensures GoodSum(y)
    {
      assert x[..LENGTH_AT] == [x[0], x[1]] == y[..LENGTH_AT];
    }

    lemma SameMarks(x: Pieces, y: Pieces)
      requires Marked(x) && |x| == |y| && forall k | 0 <= k < |x| :: |x[k]| == |y[k]|
      ensures Marked(y) && |Flat(x)| == |Flat(y)| && Offset(x, CONST_AT + 1) == Offset(y, CONST_AT + 1)
    {
      LengthsKeepOffsets(x, y);
    }
  }

  /** The BodyLength written when `text` follows the row. */
  function LengthText(row: Pieces, text: seq<byte>): seq<byte>
    requires |row| == CONST_AT + 1
  {
    Padded(|Flat(row + [text])| - Offset(row, LENGTH_AT) - 5, BODY_LEN_ZPAD)
  }

  /** The three pieces that every send patches. */
  function Patched(row: Pieces, length: seq<byte>, number: seq<byte>, sender: seq<byte>): Pieces
    requires |row| > CONST_AT
  {
    row[SENDER_AT := sender][SEQ_NUM_AT := number][LENGTH_AT := length]
  }

  lemma Extended(row: Pieces, text: seq<byte>)
    ensures Flat(row + [text]) == Flat(row) + text
    ensures forall i | 0 <= i <= |row| :: Offset(row + [text], i) == Offset(row, i)
  {
    assert (row + [text])[..|row|] == row;
    forall i | 0 <= i <= |row| ensures Offset(row + [text], i) == Offset(row, i) {
      assert (row + [text])[..i] == row[..i];
    }
  }

  lemma TotalInParts(image: Pieces)
    requires |image| == CONST_AT + 2
    ensures Total(Flat(image)) ==
      Total(Flat(image[..LENGTH_AT])) + Total(Flat(image[LENGTH_AT..CONST_AT])) + Total(image[CONST_AT])
        + Total(image[CONST_AT + 1])
  {
    var a, b := Flat(image[..LENGTH_AT]), Flat(image[LENGTH_AT..CONST_AT]);
    assert Flat(image[..CONST_AT]) == a + b by {
      CutAt(image[..CONST_AT], LENGTH_AT);
      assert image[..CONST_AT][..LENGTH_AT] == image[..LENGTH_AT]
             && image[..CONST_AT][LENGTH_AT..] == image[LENGTH_AT..CONST_AT];
    }
    TotalConcat(a, b);
    TotalOfLastTwo(image, CONST_AT);
  }

  lemma TotalOfLastTwo(image: Pieces, i: nat)
    requires |image| == i + 2
    ensures Total(Flat(image)) == Total(Flat(image[..i])) + Total(image[i]) + Total(image[i + 1])
  {
    OffsetStep(image, i);
    OffsetStep(image, i + 1);
    assert image[..i + 2] == image;
    TotalConcat(Flat(image[..i]), image[i]);
    TotalConcat(Flat(image[..i + 1]), image[i + 1]);
  }

  lemma AddMod(x: nat, y: nat)
    ensures (x % 256 + y) % 256 == (x + y) % 256
  {
  }

  lemma SumOfPieces(image: Pieces, k: nat, changing: nat, last: nat)
    requires |image| == CONST_AT + 2 && k == (Sum8(image[CONST_AT]) + Sum8(Flat(image[..LENGTH_AT]))) % 256
    requires changing == Sum8(Flat(image[LENGTH_AT..CONST_AT])) && last == Sum8(image[CONST_AT + 1])
    ensures (changing + k + last) % 256 == Sum8(Flat(image))
  {
    TotalInParts(image);
    SumOfFour(Flat(image), Flat(image[..LENGTH_AT]), Flat(image[LENGTH_AT..CONST_AT]), image[CONST_AT],
              image[CONST_AT + 1], Sum8(Flat(image[..LENGTH_AT])), changing, Sum8(image[CONST_AT]), last);
  }

  lemma SumOfFour(t: seq<byte>, a: seq<byte>, b: seq<byte>, c: seq<byte>, d: seq<byte>, ra: nat, rb: nat, rc: nat,
                  rd: nat)
    requires Total(t) == Total(a) + Total(b) + Total(c) + Total(d)
    requires ra == Sum8(a) && rb == Sum8(b) && rc == Sum8(c) && rd == Sum8(d)
    ensures (rb + (rc + ra) % 256 + rd) % 256 == Sum8(t)
  {
    ModOfFour(Total(t), Total(a), Total(b), Total(c), Total(d), ra, rb, rc, rd);
  }

  lemma ModOfFour(s: nat, a: nat, b: nat, c: nat, d: nat, ra: nat, rb: nat, rc: nat, rd: nat)
    requires ra == a % 256 && rb == b % 256 && rc == c % 256 && rd == d % 256 && s == a + b + c + d
    ensures s % 256 == (rb + (rc + ra) % 256 + rd) % 256
  {
    AddMod(a, b + c + d);
    AddMod(b, ra + c + d);
    AddMod(c, ra + rb + d);
    AddMod(d, ra + rb + rc);
    AddMod(rc + ra, rb + rd);
  }

  lemma {:induction false} NumeralWide(n: nat, k: nat)
    requires Pow10(k) <= n
    ensures |Numeral(n)| > k
  {
    if k > 0 {
      NumeralWide(n / 10, k - 1);
    }
  }

  lemma Widths(n: nat)
    ensures |Padded(n, SEQ_NUM_ZPAD)| == SEQ_NUM_ZPAD <==> n < 1_000_000
    ensures |Padded(n, SEQ_NUM_ZPAD)| >= SEQ_NUM_ZPAD
    ensures n < 0x8000_0000_0000_0000 ==> |Padded(n, SEQ_NUM_ZPAD)| <= 19
  {
    assert Pow10(2) == 100;
    assert Pow10(4) == 10_000;
    assert Pow10(6) == 1_000_000;
    if n < 1_000_000 {
      PaddedWidth(n, SEQ_NUM_ZPAD);
    } else {
      NumeralWide(n, SEQ_NUM_ZPAD);
    }
    if n < 0x8000_0000_0000_0000 {
      assert Pow10(8) == 100_000_000;
      assert Pow10(10) == 10_000_000_000;
      assert Pow10(12) == 1_000_000_000_000;
      assert Pow10(14) == 100_000_000_000_000;
      assert Pow10(16) == 10_000_000_000_000_000;
      assert Pow10(18) == 1_000_000_000_000_000_000;
      NumeralFits(n, 19);
    }
  }

  /** The value of BodyLength is the number of bytes after its field. */
  lemma BodyLengthIs(cfg: Config, v: Values, c: Current, row: Pieces)
    requires IsRow(cfg, v, row) && v.seqNum == Padded(c.seqNum, SEQ_NUM_ZPAD) && v.sender == c.sender
    requires v.time == c.time
    ensures |Flat(row + [FieldsBytes(c.fields)])| - Offset(row, 4) == |Body(cfg, c)|
    ensures Offset(row, 4) == Offset(row, LENGTH_AT) + |v.length| + 1
  {
    hide FieldsBytes, Padded;
    var head := [FieldBytes(Field(BEGIN_STRING, Text(cfg.begin)), 0),
                 FieldBytes(Field(BODY_LENGTH, Text(v.length)), 0)];
    RowFields(cfg, v, c, row, head + BodyRow(cfg, c));
    FlatConcat(head, BodyRow(cfg, c));
    assert Flat(row[..1]) == Flat(head[..1]) by {
      StepOne(row, 0, head, 0);
    }
    OpenField(Field(BODY_LENGTH, Text(v.length)), 0);
    StepThree(row, 1, head, 1);
    assert head[..2] == head;
    OffsetStep(row, 2);
    OffsetStep(row, 3);
  }

  /** The widths of the pieces around the patches. */
  ghost predicate Wide(row: Pieces) {
    && |row| == CONST_AT + 1 && |row[LENGTH_AT]| == BODY_LEN_ZPAD && |row[LENGTH_AT + 1]| == 1
    && |row[SEQ_NUM_AT]| == SEQ_NUM_ZPAD && |row[TIME_AT]| == TIME_LEN
  }

  lemma RowWidths(cfg: Config, v: Values, row: Pieces)
    requires IsRow(cfg, v, row) && |v.length| == BODY_LEN_ZPAD && |v.seqNum| == SEQ_NUM_ZPAD && |v.time| == TIME_LEN
    ensures Wide(row) && row[SENDER_AT] == v.sender
  {
  }

  /** There is room to patch: the times alone leave more than the number can take. */
  lemma UnparseWidths(row: Pieces, text: seq<byte>, seqNum: nat)
    requires Wide(row) && |Flat(row + [text])| <= MAX_BUFFER && seqNum < 0x8000_0000_0000_0000
    ensures Offset(row, LENGTH_AT) + 5 <= |Flat(row + [text])| && |LengthText(row, text)| == BODY_LEN_ZPAD
    ensures Offset(row, SEQ_NUM_AT) + |Padded(seqNum, SEQ_NUM_ZPAD)| <= |Flat(row + [text])|
  {
    Extended(row, text);
    Widths(seqNum);
    OffsetStep(row, 2);
    OffsetStep(row, 3);
    RangeOf(row, SEQ_NUM_AT + 1, TIME_AT);
    OffsetStep(row, SEQ_NUM_AT);
    OffsetStep(row, TIME_AT);
    LengthWidth(|Flat(row + [text])| - Offset(row, LENGTH_AT) - 5);
  }

  lemma LengthWidth(n: nat)
    requires n <= MAX_BUFFER
    ensures |Padded(n, BODY_LEN_ZPAD)| == BODY_LEN_ZPAD
  {
    assert Pow10(2) == 100 && Pow10(4) == 10_000;
    PaddedWidth(n, BODY_LEN_ZPAD);
  }

  lemma PatchedIsRow(cfg: Config, v: Values, row: Pieces, length: seq<byte>, number: seq<byte>, sender: seq<byte>)
    requires IsRow(cfg, v, row)
    ensures IsRow(cfg, Values(length, number, sender, v.time), Patched(row, length, number, sender))
  {
  }

  lemma UnparseNarrow(cfg: Config, v: Values, c: Current, row: Pieces, length: seq<byte>, number: seq<byte>,
                      text: seq<byte>)
    requires IsRow(cfg, v, row) && v.time == c.time && text == FieldsBytes(c.fields)
    requires Wide(row) && length == LengthText(row, text) && number == Padded(c.seqNum, SEQ_NUM_ZPAD)
    requires |length| == BODY_LEN_ZPAD && |number| == SEQ_NUM_ZPAD && |row[SENDER_AT]| == |c.sender|
    ensures var next := Patched(row, length, number, c.sender);
      && IsRow(cfg, Values(length, number, c.sender, c.time), next)
      && Flat(next + [text]) + Trailer(Sum8(Flat(next + [text]))) == Render(cfg, c)
  {
    var next := Patched(row, length, number, c.sender);
    var w := Values(length, number, c.sender, c.time);
    PatchedIsRow(cfg, v, row, length, number, c.sender);
    BodyLengthIs(cfg, w, c, next);
    assert length == Padded(|Body(cfg, c)|, BODY_LEN_ZPAD) by {
      LengthsKeepOffsets(row, next);
      Extended(row, text);
      Extended(next, text);
    }
    RowIsRender(cfg, w, c, next);
  }

  lemma {:induction false} FlatLonger(x: Pieces, y: Pieces)
    requires |x| == |y| && forall k | 0 <= k < |x| :: |x[k]| <= |y[k]|
    ensures |Flat(x)| <= |Flat(y)|
    ensures (exists k | 0 <= k < |x| :: |x[k]| < |y[k]|) ==> |Flat(x)| < |Flat(y)|
  {
    if x != [] {
      var n := |x| - 1;
      FlatLonger(x[..n], y[..n]);
      if k :| 0 <= k < |x| && |x[k]| < |y[k]| {
        assert k < n ==> |x[..n][k]| < |y[..n][k]|;
      }
    }
  }

  /** A number of seven digits makes the message longer than what the template sends. */
  lemma UnparseWide(cfg: Config, v: Values, c: Current, row: Pieces, text: seq<byte>)
    requires IsRow(cfg, v, row) && Wide(row) && |row[SENDER_AT]| == |c.sender| && c.seqNum >= 1_000_000
    requires v.time == c.time && text == FieldsBytes(c.fields)
    ensures |Render(cfg, c)| > |Flat(row + [text])| + 7
  {
    var w := Values(Padded(|Body(cfg, c)|, BODY_LEN_ZPAD), Padded(c.seqNum, SEQ_NUM_ZPAD), c.sender, c.time);
    var next := Patched(row, w.length, w.seqNum, w.sender);
    PatchedIsRow(cfg, v, row, w.length, w.seqNum, w.sender);
    RowIsRender(cfg, w, c, next);
    Widths(c.seqNum);
    assert |row[SEQ_NUM_AT]| < |next[SEQ_NUM_AT]|;
    FlatLonger(row, next);
    Extended(row, text);
    Extended(next, text);
    TrailerWidth(Sum8(Flat(next + [text])));
  }

  /** What was sent is the message from scratch exactly when the number fits; then the row can be sent again. */
  lemma UnparseExact(cfg: Config, v: Values, c: Current, row: Pieces, length: seq<byte>, number: seq<byte>,
                     text: seq<byte>, sent: seq<byte>)
    requires IsRow(cfg, v, row) && v.time == c.time && text == FieldsBytes(c.fields)
    requires Wide(row) && length == LengthText(row, text) && number == Padded(c.seqNum, SEQ_NUM_ZPAD)
    requires |length| == BODY_LEN_ZPAD && |row[SENDER_AT]| == |c.sender|
    requires |number| == SEQ_NUM_ZPAD <==> c.seqNum < 1_000_000
    requires |sent| == |Flat(row + [text])| + 7
    requires var next := Patched(row, length, number, c.sender);
      |number| == SEQ_NUM_ZPAD ==> sent == Flat(next + [text]) + Trailer(Sum8(Flat(next + [text])))
    ensures sent == Render(cfg, c) <==> c.seqNum < 1_000_000
    ensures IsRow(cfg, Values(length, number, c.sender, c.time), Patched(row, length, number, c.sender))
  {
    PatchedIsRow(cfg, v, row, length, number, c.sender);
    if c.seqNum < 1_000_000 {
      UnparseNarrow(cfg, v, c, row, length, number, text);
    } else {
      UnparseWide(cfg, v, c, row, text);
    }
  }

  lemma Front(s: seq<byte>, n: nat, a: seq<byte>, b: seq<byte>, c: seq<byte>)
    requires n <= |s| && s[..n] == a + b + c
    ensures s[..|a|] == a
  {
    assert s[..|a|] == s[..n][..|a|];
  }

  lemma Slice(s: seq<byte>, n: nat, i: nat, j: nat)
    requires i <= j <= n <= |s|
    ensures s[..n][i..j] == s[i..j]
  {
  }

  /** "YYYYMMDD-HH:MM:SS.sss" */
  const BLANK_TIME: seq<byte> :=
    [89, 89, 89, 89, 77, 77, 68, 68, 45, 72, 72, 58, 77, 77, 58, 83, 83, 46, 115, 115, 115]

  /** What a prepared template says before the first send. */
  function Blank(cfg: Config): Values {
    Values(Padded(0, BODY_LEN_ZPAD), Padded(0, SEQ_NUM_ZPAD), cfg.sender, BLANK_TIME)
  }

  lemma BlankLengths(cfg: Config)
    ensures |Blank(cfg).length| == BODY_LEN_ZPAD && |Blank(cfg).seqNum| == SEQ_NUM_ZPAD && |Blank(cfg).time| == TIME_LEN
  {
    PaddedWidth(0, BODY_LEN_ZPAD);
    PaddedWidth(0, SEQ_NUM_ZPAD);
  }

  lemma NothingAt15(full: Pieces)
    requires |full| == CONST_AT + 1 && full[15] == [] && full[16] == [] && full[17] == []
    ensures Flat(full[..15]) == Flat(full[..CONST_AT])
  {
    FlatThree(full, 15);
  }

  lemma OnePiece(ss: Pieces, i: nat)
    requires i < |ss|
    ensures Flat(ss[i..i + 1]) == ss[i]
  {
    assert ss[i..i + 1] == [ss[i]];
    OffsetStep([ss[i]], 0);
  }

  lemma LengthsKeepOffsets(x: Pieces, y: Pieces)
    requires |x| == |y| && forall k | 0 <= k < |x| :: |x[k]| == |y[k]|
    ensures forall j | 0 <= j <= |x| :: Offset(x, j) == Offset(y, j)
    ensures |Flat(x)| == |Flat(y)|
  {
    forall j | 0 <= j <= |x| ensures Offset(x, j) == Offset(y, j) {
      SameLengths(x, y, j);
    }
    assert x[..|x|] == x && y[..|y|] == y;
    assert Offset(x, |x|) == Offset(y, |y|);
  }
}
