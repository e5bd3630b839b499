/** The room for the fields: rest_of_message of lib/proto/fix_message.c stays inside its array exactly for messages
    of no more than 48 fields. */
module FixBounds {
  import opened Digits
  import opened ByteBuffer
  import opened FixWire
  import opened FixParse
  import opened FixRoundTrip
  import opened FixAgree
  import T = FixTemplate

  /** From `p` on, `k` fields more are written than from `q` on. */
  ghost predicate WritesMore(d: seq<byte>, p: nat, k: nat, q: nat) {
    p <= |d| && q <= |d| && WritesAt(d, p) == k + WritesAt(d, q)
  }

  lemma WritesFirst(d: seq<byte>, p: nat, items: seq<Item>)
    requires items != [] && TextAt(d, p, items[0].text) && AllFit(items)
    ensures WritesMore(d, p, if IsSeqNum(items[0].f) then 0 else 1, p + |items[0].text|)
  {
    ReadsItem(d, p, items);
    assert WritesAt(d, p) == WritesRound(d, p);
  }

  ghost predicate Writes(d: seq<byte>, p: nat, k: nat) {
    p <= |d| && WritesAt(d, p) == k
  }

  lemma WritesNothing(d: seq<byte>, p: nat, sum: nat)
    requires TextAt(d, p, Trailer(sum)) && sum < 256
    ensures Writes(d, p, 0)
  {
    ReadsTrailer(d, p, sum);
    assert WritesAt(d, p) == WritesRound(d, p);
  }

  /** The fields that are kept are those that are written. */
  lemma {:induction false} WritesKept(d: seq<byte>, p: nat, items: seq<Item>, sum: nat)
    requires TextAt(d, p, ItemBytes(items)) && AllFit(items) && TextAt(d, p + |ItemBytes(items)|, Trailer(sum))
    requires sum < 256
    ensures Writes(d, p, |Kept(items)|)
    decreases |items|
  {
    if items == [] {
      WritesNothing(d, p, sum);
    } else {
      var n := SplitItems(d, p, items);
      TailFits(items);
      WritesFirst(d, p, items);
      WritesKept(d, n, items[1..], sum);
    }
  }

  lemma CountDecides(d: seq<byte>, p: nat, h: Head, r: nat, flags: Flags, seqNum: nat)
    requires p < |d| && HeadAt(d, p, flags.noType) == Done(h, r) && MessageAt(d, p, flags, seqNum).Done?
    requires SumAt(d, h, r, flags.noCsum).Done?
    ensures Inside(d, p, flags, seqNum) <==> WritesAt(d, r) <= MAX_FIELDS
  {
    hide HeadAt, MessageAt, SumAt, WritesAt;
    assert Inside(d, p, flags, seqNum) == InsideRound(d, p, flags, seqNum);
  }

  lemma KeptIsWritten(d: seq<byte>, p: nat, m: Sealed) returns (r: nat)
    requires TextAt(d, p, Bytes(m)) && Acceptable(m)
    ensures p < |d| && ThreeAt(d, p) == Done(HeadOf(m, p), r) && Writes(d, r, |Kept(m.items)|)
  {
    hide ThreeAt, ItemBytes, Kept;
    var h;
    h, r := ReadsFront(d, p, m, Sum8(Front(m)));
    WritesKept(d, r, m.items, Sum8(Front(m)));
  }

  /** Where a message stands whole, the reader stays inside its array if and only if it has no more fields than there is
      room for. */
  lemma InsideExactly(d: seq<byte>, p: nat, m: Sealed, flags: Flags, seqNum: nat)
    requires TextAt(d, p, Bytes(m)) && Acceptable(m)
    ensures p <= |d| && (Inside(d, p, flags, seqNum) <==> |Kept(m.items)| <= MAX_FIELDS)
  {
    hide ThreeAt, SumAt, MessageAt, Inside, Kept, HeadOf, Bytes, ReadBack, ItemBytes, Front, RestAt, NumberOf;
    ReadsMessage(d, p, m, flags, seqNum);
    var h, r := ReadsParts(d, p, m, flags.noCsum, seqNum);
    var r' := KeptIsWritten(d, p, m);
    CountDecides(d, p, h, r, flags, seqNum);
  }

  /** The same for what fix_message_unparse sends. */
  lemma SerializedInside(d: seq<byte>, p: nat, m: Message, flags: Flags, seqNum: nat)
    requires TextAt(d, p, Serialize(m)) && Legible(m)
    ensures p <= |d| && (Inside(d, p, flags, seqNum) <==> |SerializedKept(m)| <= MAX_FIELDS)
  {
    SerializeIsSealed(m);
    SealedReadsAs(m, p, flags, seqNum);
    InsideExactly(d, p, SealedOf(m), flags, seqNum);
  }

  /** ... and for what fix_template_unparse sends, which has room for 48 constant and 48 other fields. */
  lemma TemplateInside(d: seq<byte>, p: nat, cfg: T.Config, c: T.Current, flags: Flags, seqNum: nat)
    requires TextAt(d, p, T.Render(cfg, c)) && LegibleTemplate(cfg, c)
    ensures p <= |d| && (Inside(d, p, flags, seqNum) <==> |TemplateKept(cfg, c)| <= MAX_FIELDS)
  {
    TemplateIsSealed(cfg, c);
    TemplateItemsRead(cfg, c, seqNum);
    InsideExactly(d, p, TemplateSealed(cfg, c), flags, seqNum);
  }

  // ----- one field too many ---------------------------------------------------------------

  const TEXT_TAG: nat := 58

  function Notes(n: nat): (fs: seq<Field>)
    ensures |fs| == n && forall i | 0 <= i < n :: fs[i] == Field(TEXT_TAG, Text([65]))
  {
    seq(n, _ => Field(TEXT_TAG, Text([65])))
  }

  /** A heartbeat with so many texts. */
  function Noted(n: nat): Message {
    Message([70], [48], [83], [84], 1, [85], Notes(n))
  }

  lemma FiveBytes(tag: nat, b: byte)
    requires 10 <= tag < 100
    ensures |FieldBytes(Field(tag, Text([b])), 0)| == 5
  {
    assert |Numeral(tag / 10)| == 1;
  }

  lemma {:induction false} NotesArePlain(n: nat)
    ensures Plain(Notes(n))
    decreases n
  {
    if n > 0 {
      assert Notes(n)[1..] == Notes(n - 1);
      NotesArePlain(n - 1);
    }
  }

  lemma {:induction false} NotesSize(n: nat)
    ensures |FieldsBytes(Notes(n))| == 5 * n
    decreases n
  {
    if n == 0 {
      assert Texts(Notes(0)) == [];
    } else {
      var f := Notes(n)[0];
      assert Notes(n) == [f] + Notes(n - 1);
      FieldsConcat([f], Notes(n - 1));
      OneText(f);
      FiveBytes(TEXT_TAG, 65);
      NotesSize(n - 1);
    }
  }

  lemma FiveMore(f: Field, fs: seq<Field>)
    requires 10 <= f.tag < 100 && f.value.Text? && |f.value.s| == 1
    ensures |FieldsBytes([f] + fs)| == 5 + |FieldsBytes(fs)|
  {
    FieldsConcat([f], fs);
    OneText(f);
    FiveBytes(f.tag, f.value.s[0]);
    assert f.value.s == [f.value.s[0]];
  }

  lemma NumberOne(fs: seq<Field>)
    ensures |FieldsBytes([Field(MSG_SEQ_NUM, Number(1))] + fs)| == 5 + |FieldsBytes(fs)|
  {
    var f := Field(MSG_SEQ_NUM, Number(1));
    FieldsConcat([f], fs);
    OneText(f);
    assert Padded(1, 0) == Numeral(1) && |Numeral(MSG_SEQ_NUM / 10)| == 1;
  }

  lemma NotedSize(n: nat)
    ensures |FieldsBytes(BodyFields(Noted(n)))| == 25 + 5 * n
  {
    var m := Noted(n);
    var a, b, c := Field(MSG_TYPE, Text(m.msgType)), Field(SENDER_COMP_ID, Text(m.sender)),
      Field(TARGET_COMP_ID, Text(m.target));
    var e, t := Field(MSG_SEQ_NUM, Number(1)), Field(SENDING_TIME, Text(m.time));
    NotesSize(n);
    FiveMore(t, m.fields);
    NumberOne([t] + m.fields);
    FiveMore(c, [e] + ([t] + m.fields));
    FiveMore(b, [c] + ([e] + ([t] + m.fields)));
    FiveMore(a, [b] + ([c] + ([e] + ([t] + m.fields))));
    assert BodyFields(m) == [a] + ([b] + ([c] + ([e] + ([t] + m.fields))));
  }

  /** A message of 255 bytes behind its head, of which 49 fields are kept, leaves the array; with one text less it does
      not. */
  lemma OneFieldTooMany(flags: Flags, seqNum: nat)
    ensures Legible(Noted(46)) && |FieldsBytes(BodyFields(Noted(46)))| == 255
    ensures !Inside(Serialize(Noted(46)), 0, flags, seqNum)
    ensures Legible(Noted(45)) && Inside(Serialize(Noted(45)), 0, flags, seqNum)
  {
    TypeOfText([48], Heartbeat);
    NotesArePlain(46);
    NotesArePlain(45);
    NotedSize(46);
    NotedSize(45);
    WholeStands(Serialize(Noted(46)));
    WholeStands(Serialize(Noted(45)));
    SerializedInside(Serialize(Noted(46)), 0, Noted(46), flags, seqNum);
    SerializedInside(Serialize(Noted(45)), 0, Noted(45), flags, seqNum);
  }

  lemma WholeStands(s: seq<byte>)
    ensures TextAt(s, 0, s)
  {
  }
}
