/** The bytes of a FIX message, tag by tag, as they go out. */
module FixLayout {
  import opened Digits
  import opened ByteBuffer
  import opened FixWire
  import P = FixParse
  import T = FixTemplate

  /** The characters of a text as bytes. */
  function Ascii(s: string): (r: seq<byte>)
    ensures |r| == |s|
  {
    if s == [] then []
    else
      var b: byte := s[0] as int % 256;
      [b] + Ascii(s[1..])
  }

  /** `tag` as text, the value, a delimiter. */
  function Tagged(tag: string, value: seq<byte>): seq<byte>
  {
    Ascii(tag) + value + [1]
  }

  lemma FieldIsTagged(tag: nat, text: string, v: Value, zpad: nat)
    requires Numeral(tag) + [EQUALS] == Ascii(text)
    ensures FieldBytes(Field(tag, v), zpad) == Tagged(text, ValueBytes(v, zpad))
  {
  }

  lemma OneDigit(n: nat)
    requires n < 10
    ensures Numeral(n) == [48 + n]
  {
  }

  lemma TwoDigits(n: nat)
    requires 10 <= n < 100
    ensures Numeral(n) == [48 + n / 10, 48 + n % 10]
  {
    OneDigit(n / 10);
  }

  /** A number is its digits, with a minus before them if it is negative. */
  lemma SignedText(n: int)
    ensures Signed(n) == if n < 0 then Ascii("-") + Numeral(-n) else Numeral(n)
  {
  }

  /** The tags that a message has of itself. */
  lemma TagTexts()
    ensures Numeral(BEGIN_STRING) + [EQUALS] == Ascii("8=") && Numeral(BODY_LENGTH) + [EQUALS] == Ascii("9=")
    ensures Numeral(MSG_TYPE) + [EQUALS] == Ascii("35=") && Numeral(SENDER_COMP_ID) + [EQUALS] == Ascii("49=")
    ensures Numeral(TARGET_COMP_ID) + [EQUALS] == Ascii("56=") && Numeral(MSG_SEQ_NUM) + [EQUALS] == Ascii("34=")
    ensures Numeral(SENDING_TIME) + [EQUALS] == Ascii("52=") && Numeral(TRANSACT_TIME) + [EQUALS] == Ascii("60=")
    ensures Numeral(CHECK_SUM) + [EQUALS] == Ascii("10=")
  {
    OneDigit(8);
    OneDigit(9);
    TwoDigits(10);
    TwoDigits(34);
    TwoDigits(35);
    TwoDigits(49);
    TwoDigits(52);
    TwoDigits(56);
    TwoDigits(60);
  }

  lemma SixInARow(a: Field, b: Field, c: Field, e: Field, f: Field, rest: seq<Field>)
    ensures FieldsBytes([a, b, c, e, f] + rest) ==
      FieldBytes(a, 0) + (FieldBytes(b, 0) + (FieldBytes(c, 0)
                                              + (FieldBytes(e, 0) + (FieldBytes(f, 0) + FieldsBytes(rest)))))
  {
    assert [a, b, c, e, f] + rest == [a] + ([b] + ([c] + ([e] + ([f] + rest))));
    FirstField(a, [b] + ([c] + ([e] + ([f] + rest))));
    FirstField(b, [c] + ([e] + ([f] + rest)));
    FirstField(c, [e] + ([f] + rest));
    FirstField(e, [f] + rest);
    FirstField(f, rest);
  }

  lemma FlatOne(x: seq<byte>)
    ensures Flat([x]) == x
  {
    var one: seq<seq<byte>> := [x];
    assert one[..0] == [];
  }

  lemma FirstField(f: Field, rest: seq<Field>)
    ensures FieldsBytes([f] + rest) == FieldBytes(f, 0) + FieldsBytes(rest)
  {
    FieldsConcat([f], rest);
    assert Texts([f]) == [FieldBytes(f, 0)];
    FlatOne(FieldBytes(f, 0));
  }

  /** The body of a message: type, sender, target, number and time, then its own fields. */
  function BodyText(m: Message): seq<byte> {
    Tagged("35=", m.msgType)
    + (Tagged("49=", m.sender)
       + (Tagged("56=", m.target) + (Tagged("34=", Signed(m.seqNum))
                                     + (Tagged("52=", m.time) + FieldsBytes(m.fields)))))
  }

  /** What fix_message_unparse sends: BeginString, the length of the body, the body, and the sum of all that. */
  lemma SerializedText(m: Message)
    ensures var front := Tagged("8=", m.begin) + Tagged("9=", Signed(|BodyText(m)|)) + BodyText(m);
      Serialize(m) == front + Tagged("10=", Padded(Sum8(front), 3))
  {
    hide Ascii, Padded, Numeral, Sum8;
    TagTexts();
    SixInARow(Field(MSG_TYPE, Text(m.msgType)), Field(SENDER_COMP_ID, Text(m.sender)),
              Field(TARGET_COMP_ID, Text(m.target)), Field(MSG_SEQ_NUM, Number(m.seqNum)),
              Field(SENDING_TIME, Text(m.time)), m.fields);
    FieldIsTagged(MSG_TYPE, "35=", Text(m.msgType), 0);
    FieldIsTagged(SENDER_COMP_ID, "49=", Text(m.sender), 0);
    FieldIsTagged(TARGET_COMP_ID, "56=", Text(m.target), 0);
    FieldIsTagged(MSG_SEQ_NUM, "34=", Number(m.seqNum), 0);
    FieldIsTagged(SENDING_TIME, "52=", Text(m.time), 0);
    assert FieldsBytes(BodyFields(m)) == BodyText(m);
    FieldIsTagged(BEGIN_STRING, "8=", Text(m.begin), 0);
    FieldIsTagged(BODY_LENGTH, "9=", Text(Signed(|BodyText(m)|)), 0);
    var front := HeadBytes(m.begin, Signed(|BodyText(m)|)) + BodyText(m);
    FieldIsTagged(CHECK_SUM, "10=", Check(Sum8(front)), 0);
  }

  /** The body that a template sends: type, number, sender, time, target, perhaps the time again, then constant and
      other fields. */
  function TemplateText(cfg: T.Config, c: T.Current): seq<byte> {
    Tagged("35=", cfg.msgType) + Tagged("34=", Padded(c.seqNum, 6)) + Tagged("49=", c.sender) + Tagged("52=", c.time)
    + Tagged("56=", cfg.target) + (if cfg.transact then Tagged("60=", c.time) else [])
    + FieldsBytes(cfg.consts) + FieldsBytes(c.fields)
  }

  lemma EightInARow(a: seq<byte>, b: seq<byte>, c: seq<byte>, e: seq<byte>, f: seq<byte>, g: seq<byte>, h: seq<byte>,
                    i: seq<byte>)
    ensures Flat([a, b, c, e, f, g, h, i]) == a + b + c + e + f + g + h + i
  {
    var none: seq<seq<byte>> := [];
    var p1, p2, p3, p4, p5, p6, p7, p8 := [a], [a, b], [a, b, c], [a, b, c, e], [a, b, c, e, f], [a, b, c, e, f, g],
      [a, b, c, e, f, g, h], [a, b, c, e, f, g, h, i];
    assert p1[..0] == none && p2[..1] == p1 && p3[..2] == p2 && p4[..3] == p3;
    assert p5[..4] == p4 && p6[..5] == p5 && p7[..6] == p6 && p8[..7] == p7;
    assert Flat(none) == [];
    assert Flat(p1) == [] + a == a;
    assert Flat(p2) == Flat(p1) + b;
    assert Flat(p3) == Flat(p2) + c;
    assert Flat(p4) == Flat(p3) + e;
    assert Flat(p5) == Flat(p4) + f;
    assert Flat(p6) == Flat(p5) + g;
    assert Flat(p7) == Flat(p6) + h;
    assert Flat(p8) == Flat(p7) + i;
  }

  /** What fix_template_unparse sends. */
  lemma RenderedText(cfg: T.Config, c: T.Current)
    ensures var front := Tagged("8=", cfg.begin) + Tagged("9=", Padded(|TemplateText(cfg, c)|, 4))
            + TemplateText(cfg, c);
      T.Render(cfg, c) == front + Tagged("10=", Padded(Sum8(front), 3))
  {
    hide Ascii, Tagged, Padded, Numeral, Sum8;
    TagTexts();
    FieldIsTagged(MSG_TYPE, "35=", Text(cfg.msgType), 0);
    FieldIsTagged(MSG_SEQ_NUM, "34=", Number(c.seqNum), 6);
    FieldIsTagged(SENDER_COMP_ID, "49=", Text(c.sender), 0);
    FieldIsTagged(SENDING_TIME, "52=", Text(c.time), 0);
    FieldIsTagged(TARGET_COMP_ID, "56=", Text(cfg.target), 0);
    FieldIsTagged(TRANSACT_TIME, "60=", Text(c.time), 0);
    EightInARow(Tagged("35=", cfg.msgType), Tagged("34=", Padded(c.seqNum, 6)), Tagged("49=", c.sender),
                Tagged("52=", c.time), Tagged("56=", cfg.target), if cfg.transact then Tagged("60=", c.time) else [],
                FieldsBytes(cfg.consts), FieldsBytes(c.fields));
    assert T.Body(cfg, c) == TemplateText(cfg, c);
    FieldIsTagged(BEGIN_STRING, "8=", Text(cfg.begin), 0);
    var length := Padded(|TemplateText(cfg, c)|, 4);
    FieldIsTagged(BODY_LENGTH, "9=", Text(length), 0);
    FieldIsTagged(CHECK_SUM, "10=", Check(Sum8(HeadBytes(cfg.begin, length) + TemplateText(cfg, c))), 0);
  }

  /** The MsgType of a message as FIX writes it. */
  function TypeName(t: P.MsgType): string {
    match t
    case Heartbeat => "0"
    case TestRequest => "1"
    case ResendRequest => "2"
    case Reject => "3"
    case SequenceReset => "4"
    case Logout => "5"
    case ExecutionReport => "8"
    case OrderCancelReject => "9"
    case Logon => "A"
    case NewOrderSingle => "D"
    case OrderCancelRequest => "F"
    case OrderCancelReplace => "G"
    case SnapshotRefresh => "W"
    case IncrementRefresh => "X"
    case SessionStatus => "h"
    case SecurityStatus => "f"
    case OrderMassCancelRequest => "q"
    case OrderMassCancelReport => "r"
    case QuoteRequest => "R"
    case SecurityDefinitionRequest => "c"
    case NewOrderCross => "s"
    case MassQuote => "i"
    case QuoteCancel => "Z"
    case SecurityDefinition => "d"
    case QuoteAcknowledgement => "b"
    case OrderMassStatusRequest => "AF"
    case OrderMassActionRequest => "CA"
    case OrderMassActionReport => "BZ"
    case Unknown => ""
  }

  lemma Letters(s: string)
    ensures |s| == 1 ==> Ascii(s) == [s[0] as int % 256]
    ensures |s| == 2 ==> Ascii(s) == [s[0] as int % 256, s[1] as int % 256]
  {
    if |s| == 2 {
      assert Ascii(s[1..]) == [s[1] as int % 256];
    }
  }

  lemma TypeTextIs(t: P.MsgType)
    ensures P.TypeText(t) == Ascii(TypeName(t))
  {
    hide Ascii;
    Letters(TypeName(t));
    Nothing();
  }

  lemma Nothing()
    ensures Ascii("") == []
  {
  }
}
