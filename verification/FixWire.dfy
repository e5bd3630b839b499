/** Writing FIX messages: fix_field_unparse and fix_message_unparse of lib/proto/fix_message.c. */
module FixWire {
  import opened Digits
  import opened ByteBuffer
  import Itoa

  const SOH: byte := 1
  const EQUALS: byte := 61

  const BEGIN_STRING := 8
  const BODY_LENGTH := 9
  const CHECK_SUM := 10
  const MSG_SEQ_NUM := 34
  const MSG_TYPE := 35
  const SENDER_COMP_ID := 49
  const SENDING_TIME := 52
  const TARGET_COMP_ID := 56
  const TRANSACT_TIME := 60

  /** The value of a field; floating point numbers are not modelled. */
  datatype Value = Text(s: seq<byte>) | Char(b: byte) | Number(n: int) | Check(sum: nat)

  datatype Field = Field(tag: nat, value: Value)

  /** Tags and numbers that the printers take: 32 bits, and checksums of 8. */
  predicate Printable(f: Field) {
    && f.tag < 0x1_0000_0000
    && (f.value.Number? ==> -0x8000_0000 <= f.value.n < 0x8000_0000)
    && (f.value.Check? ==> f.value.sum < 256)
  }

  function ValueBytes(v: Value, zpad: nat): seq<byte> {
    match v
    case Text(s) => s
    case Char(b) => [b]
    case Number(n) => Padded(n, zpad)
    case Check(sum) => Padded(sum, 3)
  }

  /** tag=value and a delimiter */
  function FieldBytes(f: Field, zpad: nat): seq<byte> {
    Numeral(f.tag) + [EQUALS] + ValueBytes(f.value, zpad) + [SOH]
  }

  function Flat(ss: seq<seq<byte>>): seq<byte> {
    if ss == [] then [] else Flat(ss[..|ss| - 1]) + ss[|ss| - 1]
  }

  function Texts(fs: seq<Field>): seq<seq<byte>> {
    seq(|fs|, i requires 0 <= i < |fs| => FieldBytes(fs[i], 0))
  }

  function FieldsBytes(fs: seq<Field>): seq<byte> {
    Flat(Texts(fs))
  }

  lemma {:induction false} FlatConcat(x: seq<seq<byte>>, y: seq<seq<byte>>)
    ensures Flat(x + y) == Flat(x) + Flat(y)
    decreases |y|
  {
    if y == [] {
      assert x + y == x;
    } else {
      assert (x + y)[..|x + y| - 1] == x + y[..|y| - 1];
      FlatConcat(x, y[..|y| - 1]);
    }
  }

  lemma FieldsConcat(x: seq<Field>, y: seq<Field>)
    ensures FieldsBytes(x + y) == FieldsBytes(x) + FieldsBytes(y)
  {
    assert Texts(x + y) == Texts(x) + Texts(y);
    FlatConcat(Texts(x), Texts(y));
  }

  /** Part of a flat sequence is no longer than the whole. */
  lemma FlatGrows(ss: seq<seq<byte>>, i: nat)
    requires i < |ss|
    ensures Flat(ss[..i + 1]) == Flat(ss[..i]) + ss[i]
    ensures |Flat(ss[..i + 1])| <= |Flat(ss)|
  {
    assert ss[..i + 1][..i] == ss[..i];
    FlatConcat(ss[..i + 1], ss[i + 1..]);
    assert ss[..i + 1] + ss[i + 1..] == ss;
  }

  /** BeginString and BodyLength with the given numeral, the body, and the checksum of all that. */
  function Wire(begin: seq<byte>, length: seq<byte>, body: seq<byte>): seq<byte> {
    var front := HeadBytes(begin, length) + body;
    front + Trailer(Sum8(front))
  }

  /** The CheckSum field. */
  function Trailer(sum: nat): seq<byte> {
    FieldBytes(Field(CHECK_SUM, Check(sum)), 0)
  }

  datatype Message = Message(
    begin: seq<byte>, msgType: seq<byte>, sender: seq<byte>, target: seq<byte>, seqNum: nat, time: seq<byte>,
      fields: seq<Field>)

  function BodyFields(m: Message): seq<Field> {
    [Field(MSG_TYPE, Text(m.msgType)), Field(SENDER_COMP_ID, Text(m.sender)), Field(TARGET_COMP_ID, Text(m.target)),
     Field(MSG_SEQ_NUM, Number(m.seqNum)), Field(SENDING_TIME, Text(m.time))] + m.fields
  }

  /** The whole message as it goes out, from scratch. */
  function Serialize(m: Message): seq<byte> {
    var body := FieldsBytes(BodyFields(m));
    Wire(m.begin, Signed(|body|), body)
  }

  // ----- implementation -------------------------------------------------------------------

  /** fix_field_unparse, and with `zpad` fix_field_unparse_zpad: the marker is where the value starts. */
  method FieldUnparse(f: Field, zpad: nat, buf: Buffer) returns (marker: nat)
    requires buf.Valid() && Printable(f)
    requires buf.end + |FieldBytes(f, zpad)| <= buf.data.Length
    modifies buf`end, buf.data
    ensures buf.Valid() && buf.end == old(buf.end) + |FieldBytes(f, zpad)|
    ensures buf.data[..buf.end] == old(buf.data[..buf.end]) + FieldBytes(f, zpad)
    ensures marker == old(buf.end) + |Numeral(f.tag)| + 1
  {
    ghost var before, tag, value := buf.data[..buf.end], Numeral(f.tag), ValueBytes(f.value, zpad);
    assert FieldBytes(f, zpad) == tag + [EQUALS] + value + [SOH];
    TagUnparse(f.tag, buf, tag);
    buf.Put(EQUALS);
    marker := buf.end;
    ValueUnparse(f.value, zpad, buf, value);
    buf.Put(SOH);
    assert before + (tag + [EQUALS] + value + [SOH]) == before + tag + [EQUALS] + value + [SOH];
  }

  method TagUnparse(tag: nat, buf: Buffer, ghost text: seq<byte>)
    requires buf.Valid() && tag < 0x1_0000_0000 && text == Numeral(tag) && buf.end + |text| <= buf.data.Length
    modifies buf`end, buf.data
    ensures buf.Valid() && buf.end == old(buf.end) + |text|
    ensures buf.data[..buf.end] == old(buf.data[..buf.end]) + text
  {
    var len := Itoa.Uitoa(tag, buf.data, buf.end);
    SpliceExtends(old(buf.data[..]), buf.end, text);
    buf.end := buf.end + len;
  }

  lemma SpliceExtends(s: seq<byte>, off: nat, t: seq<byte>)
    requires off + |t| <= |s|
    ensures Itoa.Splice(s, off, t)[..off + |t|] == s[..off] + t
  {
  }

  method ValueUnparse(v: Value, zpad: nat, buf: Buffer, ghost text: seq<byte>)
    requires buf.Valid() && Printable(Field(0, v)) && text == ValueBytes(v, zpad)
    requires buf.end + |text| <= buf.data.Length
    modifies buf`end, buf.data
    ensures buf.Valid() && buf.end == old(buf.end) + |text|
    ensures buf.data[..buf.end] == old(buf.data[..buf.end]) + text
  {
    match v
    case Text(s) => buf.PutAll(s);
    case Char(b) => buf.Put(b);
    case Number(n) =>
      var len: nat;
      if zpad == 0 {
        len := Itoa.Itoa(n, buf.data, buf.end);
      } else {
        len := Itoa.LitoaZpad(n, zpad, buf.data, buf.end);
      }
      SpliceExtends(old(buf.data[..]), buf.end, text);
      buf.end := buf.end + len;
    case Check(sum) =>
      CheckWidth(sum);
      var len := Itoa.ChecksumToA(sum, buf.data, buf.end);
      SpliceExtends(old(buf.data[..]), buf.end, text);
      buf.end := buf.end + len;
  }

  lemma CheckWidth(sum: nat)
    requires sum < 256
    ensures |Padded(sum, 3)| == 3
  {
    assert Pow10(2) == 100 && Pow10(3) == 1000;
    PaddedWidth(sum, 3);
  }

  ghost predicate AllPrintable(fs: seq<Field>) {
    forall i | 0 <= i < |fs| :: Printable(fs[i])
  }

  method FieldsUnparse(fs: seq<Field>, buf: Buffer)
    requires buf.Valid() && AllPrintable(fs)
    requires buf.end + |FieldsBytes(fs)| <= buf.data.Length
    modifies buf`end, buf.data
    ensures buf.Valid() && buf.end == old(buf.end) + |FieldsBytes(fs)|
    ensures buf.data[..buf.end] == old(buf.data[..buf.end]) + FieldsBytes(fs)
  {
    ghost var texts := Texts(fs);
    var i := 0;
    assert texts[..|fs|] == texts;
    while i < |fs|
      invariant i <= |fs| && |texts| == |fs|
      invariant buf.Valid() && buf.end == old(buf.end) + |Flat(texts[..i])|
      invariant buf.data[..buf.end] == old(buf.data[..buf.end]) + Flat(texts[..i])
    {
      FlatGrows(texts, i);
      NextUnparse(fs[i], buf, texts[i], Flat(texts[..i]), old(buf.data[..buf.end]));
      i := i + 1;
    }
  }

  /** One step of the loop over the fields. */
  method NextUnparse(f: Field, buf: Buffer, ghost text: seq<byte>, ghost flat: seq<byte>, ghost before: seq<byte>)
    requires buf.Valid() && Printable(f) && text == FieldBytes(f, 0)
    requires buf.data[..buf.end] == before + flat
    requires |before| + |flat + text| <= buf.data.Length
    modifies buf`end, buf.data
    ensures buf.Valid() && buf.data[..buf.end] == before + (flat + text)
  {
    var _ := FieldUnparse(f, 0, buf);
    assert before + (flat + text) == before + flat + text;
  }

  /** BeginString and BodyLength. */
  function HeadBytes(begin: seq<byte>, length: seq<byte>): seq<byte> {
    FieldBytes(Field(BEGIN_STRING, Text(begin)), 0) + FieldBytes(Field(BODY_LENGTH, Text(length)), 0)
  }

  method HeadUnparse(begin: seq<byte>, len: nat, head: Buffer)
    requires head.Valid() && head.start == head.end == 0 && len < 0x8000_0000
    requires |HeadBytes(begin, Signed(len))| <= head.data.Length
    modifies head`end, head.data
    ensures head.Valid() && head.data[..head.end] == HeadBytes(begin, Signed(len))
  {
    ghost var first, second := FieldBytes(Field(BEGIN_STRING, Text(begin)), 0),
      FieldBytes(Field(BODY_LENGTH, Number(len)), 0);
    assert HeadBytes(begin, Signed(len)) == first + second;
    var _ := FieldUnparse(Field(BEGIN_STRING, Text(begin)), 0, head);
    assert head.data[..head.end] == first;
    var _ := FieldUnparse(Field(BODY_LENGTH, Number(len)), 0, head);
  }

  /** The sum over both buffers. */
  method SumBoth(head: Buffer, body: Buffer) returns (cksum: nat)
    requires head.Valid() && body.Valid() && head.start == 0 && body.start == 0
    ensures cksum == Sum8(head.data[..head.end] + body.data[..body.end])
  {
    ghost var h, b := head.data[..head.end], body.data[..body.end];
    var headSum := SumRange(head.data, head.start, head.end);
    assert headSum == Sum8(h) by {
      assert head.data[0..head.end] == h;
    }
    var bodySum := SumRange(body.data, body.start, body.end);
    assert bodySum == Sum8(b) by {
      assert body.data[0..body.end] == b;
    }
    Sum8Concat(h, b);
    return (headSum + bodySum) % 256;
  }

  /** "10=", three digits and a delimiter */
  lemma TrailerWidth(sum: nat)
    requires sum < 256
    ensures |Trailer(sum)| == 7
  {
    CheckWidth(sum);
    assert Numeral(10) == Numeral(1) + [ZERO];
  }

  /** fix_message_unparse: the head is written after the body, whose length it states; the checksum ends the body. */
  method MessageUnparse(m: Message, head: Buffer, body: Buffer)
    requires head != body && head.data != body.data
    requires head.Valid() && body.Valid() && head.start == head.end == 0 && body.start == body.end == 0
    requires AllPrintable(BodyFields(m))
    requires |FieldsBytes(BodyFields(m))| < 0x8000_0000
    requires |FieldsBytes(BodyFields(m))| + 7 <= body.data.Length
    requires |HeadBytes(m.begin, Signed(|FieldsBytes(BodyFields(m))|))| <= head.data.Length
    modifies head`end, body`end, head.data, body.data
    ensures head.Valid() && body.Valid() && head.data[..head.end] + body.data[..body.end] == Serialize(m)
  {
    ghost var bytes := FieldsBytes(BodyFields(m));
    BodyAndHead(m.begin, BodyFields(m), head, body, bytes);
    var cksum := SumBoth(head, body);
    ghost var trailer := Trailer(cksum);
    SerializeParts(m, head.data[..head.end], bytes, trailer);
    AppendTrailer(cksum, body, trailer);
  }

  lemma SerializeParts(m: Message, head: seq<byte>, bytes: seq<byte>, trailer: seq<byte>)
    requires bytes == FieldsBytes(BodyFields(m)) && head == HeadBytes(m.begin, Signed(|bytes|))
    requires trailer == Trailer(Sum8(head + bytes))
    ensures |trailer| == 7 && head + (bytes + trailer) == Serialize(m)
  {
    TrailerWidth(Sum8(head + bytes));
    WireParts(m.begin, Signed(|bytes|), bytes, head, trailer);
  }

  lemma WireParts(begin: seq<byte>, length: seq<byte>, bytes: seq<byte>, head: seq<byte>, trailer: seq<byte>)
    requires head == HeadBytes(begin, length) && trailer == Trailer(Sum8(head + bytes))
    ensures head + (bytes + trailer) == Wire(begin, length, bytes)
  {
    assert head + (bytes + trailer) == head + bytes + trailer;
  }

  method BodyAndHead(begin: seq<byte>, fs: seq<Field>, head: Buffer, body: Buffer, ghost bytes: seq<byte>)
    requires head != body && head.data != body.data && bytes == FieldsBytes(fs)
    requires head.Valid() && body.Valid() && head.start == head.end == 0 && body.start == body.end == 0
    requires AllPrintable(fs) && |bytes| < 0x8000_0000 && |bytes| <= body.data.Length
    requires |HeadBytes(begin, Signed(|bytes|))| <= head.data.Length
    modifies head`end, body`end, head.data, body.data
    ensures head.Valid() && body.Valid()
    ensures body.data[..body.end] == bytes && head.data[..head.end] == HeadBytes(begin, Signed(|bytes|))
  {
    hide AllPrintable, Signed, HeadBytes, FieldsBytes;
    BodyUnparse(fs, body, bytes);
    HeadUnparse(begin, body.end - body.start, head);
  }

  method BodyUnparse(fs: seq<Field>, body: Buffer, ghost bytes: seq<byte>)
    requires bytes == FieldsBytes(fs) && body.Valid() && body.start == body.end == 0
    requires AllPrintable(fs) && |bytes| <= body.data.Length
    modifies body`end, body.data
    ensures body.Valid() && body.end == |bytes| && body.data[..body.end] == bytes
  {
    FieldsUnparse(fs, body);
    assert [] + bytes == bytes;
  }

  method AppendTrailer(cksum: nat, body: Buffer, ghost trailer: seq<byte>)
    requires body.Valid() && cksum < 256 && trailer == Trailer(cksum)
    requires body.end + |trailer| <= body.data.Length
    modifies body`end, body.data
    ensures body.Valid() && body.data[..body.end] == old(body.data[..body.end]) + trailer
  {
    var _ := FieldUnparse(Field(CHECK_SUM, Check(cksum)), 0, body);
  }
}
