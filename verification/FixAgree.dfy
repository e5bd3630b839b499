/** The two writers and the reader agree: fix_message_parse accepts what fix_message_unparse and
    fix_template_unparse send, and returns the fields that were put in. */
module FixAgree {
  import opened Digits
  import opened ByteBuffer
  import opened FixWire
  import opened FixParse
  import opened FixRoundTrip
  import opened FixStream
  import T = FixTemplate

  // ----- fields as items ------------------------------------------------------------------

  function ItemsOf(fs: seq<Field>): seq<Item> {
    if fs == [] then [] else [Item(fs[0], FieldBytes(fs[0], 0))] + ItemsOf(fs[1..])
  }

  /** Fields that are read back as they are: of the types the reader expects, and not the sequence number, which
      goes elsewhere. */
  ghost predicate Plain(fs: seq<Field>)
    decreases |fs|
  {
    fs == [] || (Fits(fs[0]) && !IsSeqNum(fs[0]) && Plain(fs[1..]))
  }

  lemma {:induction false} ItemsOfBytes(fs: seq<Field>)
    ensures ItemBytes(ItemsOf(fs)) == FieldsBytes(fs)
    decreases |fs|
  {
    if fs == [] {
      assert Texts(fs) == [];
    } else {
      ItemsOfBytes(fs[1..]);
      OneText(fs[0]);
      FieldsConcat([fs[0]], fs[1..]);
      assert [fs[0]] + fs[1..] == fs;
      ItemsCons(Item(fs[0], FieldBytes(fs[0], 0)), ItemsOf(fs[1..]));
    }
  }

  lemma ItemsCons(x: Item, items: seq<Item>)
    ensures ItemBytes([x] + items) == x.text + ItemBytes(items)
    ensures AllFit([x] + items) <==> Fits(x.f) && (exists zpad: nat :: x.text == FieldBytes(x.f, zpad)) && AllFit(items)
    ensures Kept([x] + items) == (if IsSeqNum(x.f) then [] else [x.f]) + Kept(items)
    ensures forall n: nat :: NumberOf([x] + items, n) == NumberOf(items, NumberAfter(x.f, n))
  {
    assert ([x] + items)[1..] == items;
    assert AllFit([x] + items) == FirstFits([x] + items);
  }

  lemma OneText(f: Field)
    ensures FieldsBytes([f]) == FieldBytes(f, 0)
  {
    var text := FieldBytes(f, 0);
    var texts: seq<seq<byte>> := [text];
    assert Texts([f]) == texts && texts[..0] == [];
    assert Flat(texts) == [] + text == text;
  }

  lemma {:induction false} ItemsOfFit(fs: seq<Field>, n: nat)
    requires Plain(fs)
    ensures AllFit(ItemsOf(fs)) && Kept(ItemsOf(fs)) == fs && NumberOf(ItemsOf(fs), n) == n
    decreases |fs|
  {
    if fs != [] {
      ItemsOfFit(fs[1..], n);
      ItemsCons(Item(fs[0], FieldBytes(fs[0], 0)), ItemsOf(fs[1..]));
      assert [fs[0]] + fs[1..] == fs;
    }
  }

  // ----- fix_message_unparse --------------------------------------------------------------

  function HeaderFields(m: Message): seq<Field> {
    [Field(SENDER_COMP_ID, Text(m.sender)), Field(TARGET_COMP_ID, Text(m.target)), Field(MSG_SEQ_NUM, Number(m.seqNum)),
     Field(SENDING_TIME, Text(m.time))]
  }

  function SealedOf(m: Message): Sealed {
    Sealed(m.begin, Signed(|FieldsBytes(BodyFields(m))|), m.msgType, ItemsOf(HeaderFields(m)) + ItemsOf(m.fields))
  }

  /** Delimiter-free texts, a known type, a body within the limit, a sequence number of 31 bits. */
  ghost predicate Legible(m: Message) {
    && m.seqNum < 0x8000_0000 && SOH !in m.begin && SOH !in m.sender && SOH !in m.target && SOH !in m.time
    && SOH !in m.msgType && !TypeOf(m.msgType).Unknown?
    && Plain(m.fields) && |FieldsBytes(BodyFields(m))| <= MAX_MESSAGE_SIZE
  }

  /** The fields as they are read. */
  function SerializedKept(m: Message): seq<Field> {
    [Field(SENDER_COMP_ID, Text(m.sender)), Field(TARGET_COMP_ID, Text(m.target)), Field(SENDING_TIME, Text(m.time))]
      + m.fields
  }

  /** Messages that survive the way: legible ones that the writer can print and for whose fields the reader has room. */
  ghost predicate Readable(m: Message) {
    Legible(m) && AllPrintable(BodyFields(m)) && |SerializedKept(m)| <= MAX_FIELDS
  }

  lemma {:induction false} BytesConcat(x: seq<Item>, y: seq<Item>)
    ensures ItemBytes(x + y) == ItemBytes(x) + ItemBytes(y)
    decreases |x|
  {
    if x == [] {
      assert x + y == y;
    } else {
      BytesConcat(x[1..], y);
      assert (x + y)[1..] == x[1..] + y && (x + y)[0] == x[0];
      assert x[0].text + (ItemBytes(x[1..]) + ItemBytes(y)) == x[0].text + ItemBytes(x[1..]) + ItemBytes(y);
    }
  }

  lemma {:induction false} FitConcat(x: seq<Item>, y: seq<Item>)
    requires AllFit(x) && AllFit(y)
    ensures AllFit(x + y)
    decreases |x|
  {
    if x == [] {
      assert x + y == y;
    } else {
      assert x == [x[0]] + x[1..] && x + y == [x[0]] + (x[1..] + y);
      ItemsCons(x[0], x[1..]);
      FitConcat(x[1..], y);
      ItemsCons(x[0], x[1..] + y);
    }
  }

  lemma {:induction false} KeptConcat(x: seq<Item>, y: seq<Item>)
    ensures Kept(x + y) == Kept(x) + Kept(y)
    decreases |x|
  {
    if x == [] {
      assert x + y == y;
    } else {
      KeptConcat(x[1..], y);
      assert (x + y)[1..] == x[1..] + y && (x + y)[0] == x[0];
      var first := if IsSeqNum(x[0].f) then [] else [x[0].f];
      assert first + (Kept(x[1..]) + Kept(y)) == first + Kept(x[1..]) + Kept(y);
    }
  }

  lemma {:induction false} NumberConcat(x: seq<Item>, y: seq<Item>, n: nat)
    ensures NumberOf(x + y, n) == NumberOf(y, NumberOf(x, n))
    decreases |x|
  {
    if x == [] {
      assert x + y == y;
    } else {
      NumberConcat(x[1..], y, NumberAfter(x[0].f, n));
      assert (x + y)[1..] == x[1..] + y && (x + y)[0] == x[0];
    }
  }

  /** A text field of a header tag. */
  lemma TextItem(tag: nat, s: seq<byte>)
    requires tag in {SENDER_COMP_ID, TARGET_COMP_ID, SENDING_TIME, TRANSACT_TIME} && SOH !in s
    ensures Fits(Field(tag, Text(s))) && !IsSeqNum(Field(tag, Text(s)))
  {
  }

  lemma NumberItem(n: nat)
    requires n < 0x8000_0000
    ensures Fits(Field(MSG_SEQ_NUM, Number(n))) && IsSeqNum(Field(MSG_SEQ_NUM, Number(n)))
  {
  }

  lemma OneItem(x: Item)
    ensures ItemBytes([x]) == x.text
    ensures AllFit([x]) <==> Fits(x.f) && exists zpad: nat :: x.text == FieldBytes(x.f, zpad)
    ensures Kept([x]) == if IsSeqNum(x.f) then [] else [x.f]
    ensures forall n: nat :: NumberOf([x], n) == NumberAfter(x.f, n)
  {
    var none: seq<Item> := [];
    ItemsCons(x, none);
    assert [x] + none == [x];
  }

  lemma HeaderIsRead(m: Message, seqNum: nat)
    requires Legible(m)
    ensures AllFit(ItemsOf(HeaderFields(m)))
    ensures Kept(ItemsOf(HeaderFields(m))) ==
      [Field(SENDER_COMP_ID, Text(m.sender)), Field(TARGET_COMP_ID, Text(m.target)), Field(SENDING_TIME, Text(m.time))]
    ensures NumberOf(ItemsOf(HeaderFields(m)), seqNum) == m.seqNum
  {
    var fs := HeaderFields(m);
    TextItem(SENDER_COMP_ID, m.sender);
    TextItem(TARGET_COMP_ID, m.target);
    NumberItem(m.seqNum);
    TextItem(SENDING_TIME, m.time);
    HeaderOf(fs[0], fs[1], fs[2], fs[3], seqNum);
    assert fs == [fs[0], fs[1], fs[2], fs[3]];
  }

  lemma HeaderOf(a: Field, b: Field, c: Field, e: Field, seqNum: nat)
    requires Fits(a) && Fits(b) && Fits(c) && Fits(e)
    requires !IsSeqNum(a) && !IsSeqNum(b) && IsSeqNum(c) && !IsSeqNum(e)
    ensures AllFit(ItemsOf([a, b, c, e])) && Kept(ItemsOf([a, b, c, e])) == [a, b, e]
    ensures NumberOf(ItemsOf([a, b, c, e]), seqNum) == c.value.n
  {
    assert [a, b, c, e][1..] == [b, c, e] && [b, c, e][1..] == [c, e] && [c, e][1..] == [e];
    ItemsOfFit([e], c.value.n);
    ItemsCons(Item(c, FieldBytes(c, 0)), ItemsOf([e]));
    ItemsCons(Item(b, FieldBytes(b, 0)), ItemsOf([c, e]));
    ItemsCons(Item(a, FieldBytes(a, 0)), ItemsOf([b, c, e]));
  }

  /** The body with its type field apart. */
  lemma BodyParts(m: Message)
    ensures FieldsBytes(BodyFields(m)) ==
      FieldBytes(Field(MSG_TYPE, Text(m.msgType)), 0) + ItemBytes(ItemsOf(HeaderFields(m)) + ItemsOf(m.fields))
  {
    var t, fs := [Field(MSG_TYPE, Text(m.msgType))], HeaderFields(m);
    assert BodyFields(m) == t + (fs + m.fields);
    FieldsConcat(t, fs + m.fields);
    FieldsConcat(fs, m.fields);
    OneText(t[0]);
    ItemsOfBytes(fs);
    ItemsOfBytes(m.fields);
    BytesConcat(ItemsOf(fs), ItemsOf(m.fields));
  }

  lemma PrintedLength(n: nat, width: nat)
    ensures AllDigits(Padded(n, width)) && Padded(n, width) != [] && Digits.Value(Padded(n, width)) == n
  {
    var t := PrintedShape(n, width);
    assert [] + t == t;
  }

  lemma SerializeIsSealed(m: Message)
    requires Legible(m)
    ensures Bytes(SealedOf(m)) == Serialize(m) && Acceptable(SealedOf(m))
  {
    BodyParts(m);
    PrintedLength(|FieldsBytes(BodyFields(m))|, 0);
    HeaderIsRead(m, 0);
    ItemsOfFit(m.fields, 0);
    FitConcat(ItemsOf(HeaderFields(m)), ItemsOf(m.fields));
  }

  /** What the reader makes of a serialized message. */
  function SerializedBack(m: Message, p: nat, flags: Flags): Parsed {
    Parsed(if flags.noType then Unknown else TypeOf(m.msgType), HeadOf(SealedOf(m), p), m.seqNum, SerializedKept(m))
  }

  lemma SealedReadsAs(m: Message, p: nat, flags: Flags, seqNum: nat)
    requires Legible(m)
    ensures ReadBack(SealedOf(m), p, flags, seqNum) == SerializedBack(m, p, flags)
  {
    HeaderIsRead(m, seqNum);
    ItemsOfFit(m.fields, m.seqNum);
    KeptConcat(ItemsOf(HeaderFields(m)), ItemsOf(m.fields));
    NumberConcat(ItemsOf(HeaderFields(m)), ItemsOf(m.fields), seqNum);
  }

  /** fix_message_parse inverts fix_message_unparse, wherever the message stands. */
  lemma SerializeIsRead(d: seq<byte>, p: nat, m: Message, flags: Flags, seqNum: nat)
    requires TextAt(d, p, Serialize(m)) && Readable(m)
    ensures ParsesTo(d, p, flags, seqNum, SerializedBack(m, p, flags), p + |Serialize(m)|)
  {
    SerializeIsSealed(m);
    ReadsWhole(d, p, SealedOf(m), flags, seqNum);
    SealedReadsAs(m, p, flags, seqNum);
  }

  /** What fix_message_unparse wrote, but with the checksum `sum`, is accepted exactly if that is the right one. */
  lemma SerializedSumDecides(d: seq<byte>, p: nat, m: Message, sum: nat, flags: Flags, seqNum: nat)
    requires Legible(m) && sum < 256 && !flags.noCsum
    requires var body := FieldsBytes(BodyFields(m));
      TextAt(d, p, HeadBytes(m.begin, Signed(|body|)) + body + Trailer(sum))
    ensures var body := FieldsBytes(BodyFields(m));
      p <= |d| && (MessageAt(d, p, flags, seqNum).Done? <==> sum == Sum8(HeadBytes(m.begin, Signed(|body|)) + body))
  {
    SerializeIsSealed(m);
    BodyParts(m);
    assert Front(SealedOf(m)) == HeadBytes(m.begin, Signed(|FieldsBytes(BodyFields(m))|)) + FieldsBytes(BodyFields(m));
    ChecksumDecides(d, p, SealedOf(m), sum, flags, seqNum);
  }

  // ----- fix_template_unparse -------------------------------------------------------------

  /** What the template puts before the constant fields. */
  function TemplateItems(cfg: T.Config, c: T.Current): seq<Item> {
    [Item(Field(MSG_SEQ_NUM, Number(c.seqNum)), FieldBytes(Field(MSG_SEQ_NUM, Number(c.seqNum)), T.SEQ_NUM_ZPAD))]
    + ItemsOf([Field(SENDER_COMP_ID, Text(c.sender)), Field(SENDING_TIME, Text(c.time)),
               Field(TARGET_COMP_ID, Text(cfg.target))])
    + ItemsOf(TransactField(cfg, c))
  }

  function TransactField(cfg: T.Config, c: T.Current): seq<Field> {
    if cfg.transact then [Field(TRANSACT_TIME, Text(c.time))] else []
  }

  function TemplateSealed(cfg: T.Config, c: T.Current): Sealed {
    Sealed(cfg.begin, Padded(|T.Body(cfg, c)|, T.BODY_LEN_ZPAD), cfg.msgType,
           TemplateItems(cfg, c) + (ItemsOf(cfg.consts) + ItemsOf(c.fields)))
  }

  ghost predicate LegibleTemplate(cfg: T.Config, c: T.Current) {
    && c.seqNum < 0x8000_0000 && SOH !in cfg.begin && SOH !in c.sender && SOH !in cfg.target && SOH !in c.time
    && SOH !in cfg.msgType && !TypeOf(cfg.msgType).Unknown?
    && Plain(cfg.consts) && Plain(c.fields) && |T.Body(cfg, c)| <= MAX_MESSAGE_SIZE
  }

  lemma FlatFront(x: seq<byte>, xs: seq<seq<byte>>)
    ensures Flat([x] + xs) == x + Flat(xs)
  {
    FlatConcat([x], xs);
    var one: seq<seq<byte>> := [x];
    assert one[..0] == [];
    assert Flat(one) == [] + x == x;
  }

  /** Eight pieces in a row, one after the other. */
  lemma FlatEight(a: seq<byte>, b: seq<byte>, c: seq<byte>, e: seq<byte>, f: seq<byte>, g: seq<byte>, h: seq<byte>,
                  i: seq<byte>)
    ensures Flat([a, b, c, e, f, g, h, i]) == a + (b + (c + (e + (f + (g + (h + i))))))
  {
    var none: seq<seq<byte>> := [];
    FlatFront(i, none);
    FlatFront(h, [i]);
    FlatFront(g, [h, i]);
    FlatFront(f, [g, h, i]);
    FlatFront(e, [f, g, h, i]);
    FlatFront(c, [e, f, g, h, i]);
    FlatFront(b, [c, e, f, g, h, i]);
    FlatFront(a, [b, c, e, f, g, h, i]);
    assert [i] + none == [i] && [h] + [i] == [h, i] && [g] + [h, i] == [g, h, i] && [f] + [g, h, i] == [f, g, h, i];
    assert [e] + [f, g, h, i] == [e, f, g, h, i] && [c] + [e, f, g, h, i] == [c, e, f, g, h, i];
    assert [b] + [c, e, f, g, h, i] == [b, c, e, f, g, h, i];
    assert [a] + [b, c, e, f, g, h, i] == [a, b, c, e, f, g, h, i];
    assert i + Flat(none) == i;
  }

  lemma ThreeTexts(a: Field, b: Field, c: Field)
    ensures FieldsBytes([a, b, c]) == FieldBytes(a, 0) + (FieldBytes(b, 0) + FieldBytes(c, 0))
  {
    FieldsConcat([a], [b, c]);
    FieldsConcat([b], [c]);
    assert [a] + [b, c] == [a, b, c] && [b] + [c] == [b, c];
    OneText(a);
    OneText(b);
    OneText(c);
  }

  lemma TransactText(cfg: T.Config, c: T.Current)
    ensures FieldsBytes(TransactField(cfg, c)) ==
      if cfg.transact then FieldBytes(Field(TRANSACT_TIME, Text(c.time)), 0) else []
  {
    if cfg.transact {
      OneText(Field(TRANSACT_TIME, Text(c.time)));
    } else {
      assert Texts(TransactField(cfg, c)) == [];
    }
  }

  lemma Nest(a: seq<byte>, b: seq<byte>, c: seq<byte>, e: seq<byte>, f: seq<byte>, g: seq<byte>, h: seq<byte>)
    ensures a + (b + (c + e)) + f + (g + h) == a + (b + (c + (e + (f + (g + h)))))
  {
  }

  lemma ThreeItems(x: seq<Item>, y: seq<Item>, z: seq<Item>)
    ensures ItemBytes(x + y + z) == ItemBytes(x) + ItemBytes(y) + ItemBytes(z)
  {
    BytesConcat(x + y, z);
    BytesConcat(x, y);
  }

  /** The bytes of the template's items, with every text named. */
  lemma TemplateBytes(cfg: T.Config, c: T.Current, number: seq<byte>, sender: seq<byte>, time: seq<byte>,
                      target: seq<byte>, transact: seq<byte>)
    requires number == FieldBytes(Field(MSG_SEQ_NUM, Number(c.seqNum)), T.SEQ_NUM_ZPAD)
    requires sender == FieldBytes(Field(SENDER_COMP_ID, Text(c.sender)), 0)
    requires time == FieldBytes(Field(SENDING_TIME, Text(c.time)), 0)
    requires target == FieldBytes(Field(TARGET_COMP_ID, Text(cfg.target)), 0)
    requires transact == if cfg.transact then FieldBytes(Field(TRANSACT_TIME, Text(c.time)), 0) else []
    ensures ItemBytes(TemplateItems(cfg, c)) == number + (sender + (time + target)) + transact
  {
    var head := [Item(Field(MSG_SEQ_NUM, Number(c.seqNum)), number)];
    var ids := [Field(SENDER_COMP_ID, Text(c.sender)), Field(SENDING_TIME, Text(c.time)),
                Field(TARGET_COMP_ID, Text(cfg.target))];
    ThreeItems(head, ItemsOf(ids), ItemsOf(TransactField(cfg, c)));
    OneItem(head[0]);
    ItemsOfBytes(ids);
    ThreeTexts(ids[0], ids[1], ids[2]);
    ItemsOfBytes(TransactField(cfg, c));
    TransactText(cfg, c);
  }

  lemma TemplateBody(cfg: T.Config, c: T.Current)
    ensures T.Body(cfg, c) ==
      FieldBytes(Field(MSG_TYPE, Text(cfg.msgType)), 0)
      + ItemBytes(TemplateItems(cfg, c) + (ItemsOf(cfg.consts) + ItemsOf(c.fields)))
  {
    var row := T.BodyRow(cfg, c);
    FlatEight(row[0], row[1], row[2], row[3], row[4], row[5], row[6], row[7]);
    RowOfEight(row);
    TemplateBytes(cfg, c, row[1], row[2], row[3], row[4], row[5]);
    ItemsOfBytes(cfg.consts);
    ItemsOfBytes(c.fields);
    BytesConcat(ItemsOf(cfg.consts), ItemsOf(c.fields));
    BytesConcat(TemplateItems(cfg, c), ItemsOf(cfg.consts) + ItemsOf(c.fields));
    Nest(row[1], row[2], row[3], row[4], row[5], row[6], row[7]);
  }

  lemma RowOfEight(row: seq<seq<byte>>)
    requires |row| == 8
    ensures row == [row[0], row[1], row[2], row[3], row[4], row[5], row[6], row[7]]
  {
  }

  lemma ThreeFit(a: Field, b: Field, c: Field, n: nat)
    requires Plain([a]) && Plain([b]) && Plain([c])
    ensures AllFit(ItemsOf([a, b, c])) && Kept(ItemsOf([a, b, c])) == [a, b, c] && NumberOf(ItemsOf([a, b, c]), n) == n
  {
    assert [a, b, c][1..] == [b, c] && [b, c][1..] == [c];
    assert Plain([b, c]);
    ItemsOfFit([a, b, c], n);
  }

  lemma PlainText(tag: nat, s: seq<byte>)
    requires tag in {SENDER_COMP_ID, TARGET_COMP_ID, SENDING_TIME, TRANSACT_TIME} && SOH !in s
    ensures Plain([Field(tag, Text(s))])
  {
    TextItem(tag, s);
    assert [Field(tag, Text(s))][1..] == [];
  }

  /** The fields of a template as they are read. */
  function TemplateKept(cfg: T.Config, c: T.Current): seq<Field> {
    [Field(SENDER_COMP_ID, Text(c.sender)), Field(SENDING_TIME, Text(c.time)), Field(TARGET_COMP_ID, Text(cfg.target))]
    + TransactField(cfg, c) + (cfg.consts + c.fields)
  }

  /** Messages of a template that survive the way. */
  ghost predicate ReadableTemplate(cfg: T.Config, c: T.Current) {
    && LegibleTemplate(cfg, c) && AllPrintable(cfg.consts) && AllPrintable(c.fields)
       && |TemplateKept(cfg, c)| <= MAX_FIELDS
  }

  lemma NumberFits(n: nat, zpad: nat, seqNum: nat)
    requires n < 0x8000_0000
    ensures var x := Item(Field(MSG_SEQ_NUM, Number(n)), FieldBytes(Field(MSG_SEQ_NUM, Number(n)), zpad));
      AllFit([x]) && Kept([x]) == [] && NumberOf([x], seqNum) == n
  {
    NumberItem(n);
    OneItem(Item(Field(MSG_SEQ_NUM, Number(n)), FieldBytes(Field(MSG_SEQ_NUM, Number(n)), zpad)));
  }

  lemma TwoParts(x: seq<Item>, y: seq<Item>, n: nat)
    requires AllFit(x) && AllFit(y)
    ensures AllFit(x + y) && Kept(x + y) == Kept(x) + Kept(y) && NumberOf(x + y, n) == NumberOf(y, NumberOf(x, n))
  {
    FitConcat(x, y);
    KeptConcat(x, y);
    NumberConcat(x, y, n);
  }

  lemma TemplateItemsRead(cfg: T.Config, c: T.Current, seqNum: nat)
    requires LegibleTemplate(cfg, c)
    ensures var items := TemplateItems(cfg, c) + (ItemsOf(cfg.consts) + ItemsOf(c.fields));
      AllFit(items) && Kept(items) == TemplateKept(cfg, c) && NumberOf(items, seqNum) == c.seqNum
  {
    var head := [Item(Field(MSG_SEQ_NUM, Number(c.seqNum)),
                      FieldBytes(Field(MSG_SEQ_NUM, Number(c.seqNum)), T.SEQ_NUM_ZPAD))];
    var ids := [Field(SENDER_COMP_ID, Text(c.sender)), Field(SENDING_TIME, Text(c.time)),
                Field(TARGET_COMP_ID, Text(cfg.target))];
    NumberFits(c.seqNum, T.SEQ_NUM_ZPAD, seqNum);
    PlainText(SENDER_COMP_ID, c.sender);
    PlainText(SENDING_TIME, c.time);
    PlainText(TARGET_COMP_ID, cfg.target);
    ThreeFit(ids[0], ids[1], ids[2], c.seqNum);
    PlainText(TRANSACT_TIME, c.time);
    ItemsOfFit(TransactField(cfg, c), c.seqNum);
    ItemsOfFit(cfg.consts, c.seqNum);
    ItemsOfFit(c.fields, c.seqNum);
    FiveParts(head, ItemsOf(ids), ItemsOf(TransactField(cfg, c)), ItemsOf(cfg.consts), ItemsOf(c.fields), seqNum,
              c.seqNum);
    assert [] + ids == ids;
  }

  lemma FiveParts(a: seq<Item>, b: seq<Item>, c: seq<Item>, e: seq<Item>, f: seq<Item>, n: nat, m: nat)
    requires AllFit(a) && AllFit(b) && AllFit(c) && AllFit(e) && AllFit(f)
    requires NumberOf(a, n) == m && NumberOf(b, m) == m && NumberOf(c, m) == m && NumberOf(e, m) == m
    requires NumberOf(f, m) == m
    ensures var items := a + b + c + (e + f);
      AllFit(items) && Kept(items) == Kept(a) + Kept(b) + Kept(c) + (Kept(e) + Kept(f)) && NumberOf(items, n) == m
  {
    TwoParts(a, b, n);
    TwoParts(a + b, c, n);
    TwoParts(e, f, m);
    TwoParts(a + b + c, e + f, n);
  }

  lemma TemplateIsSealed(cfg: T.Config, c: T.Current)
    requires LegibleTemplate(cfg, c)
    ensures Bytes(TemplateSealed(cfg, c)) == T.Render(cfg, c) && Acceptable(TemplateSealed(cfg, c))
  {
    TemplateBody(cfg, c);
    PrintedLength(|T.Body(cfg, c)|, T.BODY_LEN_ZPAD);
    TemplateItemsRead(cfg, c, 0);
  }

  function TemplateBack(cfg: T.Config, c: T.Current, p: nat, flags: Flags): Parsed {
    Parsed(if flags.noType then Unknown else TypeOf(cfg.msgType), HeadOf(TemplateSealed(cfg, c), p), c.seqNum,
           TemplateKept(cfg, c))
  }

  /** fix_message_parse accepts what fix_template_unparse sends and returns its fields. */
  lemma TemplateIsRead(d: seq<byte>, p: nat, cfg: T.Config, c: T.Current, flags: Flags, seqNum: nat)
    requires TextAt(d, p, T.Render(cfg, c)) && ReadableTemplate(cfg, c)
    ensures ParsesTo(d, p, flags, seqNum, TemplateBack(cfg, c, p, flags), p + |T.Render(cfg, c)|)
  {
    TemplateIsSealed(cfg, c);
    ReadsWhole(d, p, TemplateSealed(cfg, c), flags, seqNum);
    TemplateItemsRead(cfg, c, seqNum);
  }
}
