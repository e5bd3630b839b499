/** What was written is read back: fix_message_parse inverts both ways of serializing a message, and a message
    that has not arrived whole is left alone. */
module FixRoundTrip {
  import opened Wrappers
  import opened Digits
  import opened ByteBuffer
  import opened FixWire
  import opened FixParse
  import T = FixTemplate

  /** The text `s` stands at position `p`. */
  ghost predicate TextAt(d: seq<byte>, p: nat, s: seq<byte>) {
    p + |s| <= |d| && forall i {:trigger s[i]} | 0 <= i < |s| :: d[p + i] == s[i]
  }

  lemma TextAtParts(d: seq<byte>, p: nat, s: seq<byte>, t: seq<byte>)
    ensures TextAt(d, p, s + t) <==> TextAt(d, p, s) && TextAt(d, p + |s|, t)
  {
    var u := s + t;
    if TextAt(d, p, u) {
      assert forall i | 0 <= i < |s| :: u[i] == s[i];
      assert forall i | 0 <= i < |t| :: u[|s| + i] == t[i];
    }
  }

  lemma TextAtSlice(d: seq<byte>, p: nat, s: seq<byte>)
    ensures TextAt(d, p, s) <==> p + |s| <= |d| && d[p..p + |s|] == s
  {
    if p + |s| <= |d| {
      var u := d[p..p + |s|];
      assert forall i | 0 <= i < |s| :: u[i] == d[p + i];
      if TextAt(d, p, s) {
        assert forall i | 0 <= i < |s| :: u[i] == s[i];
      }
    }
  }

  lemma {:induction false} FindIs(d: seq<byte>, p: nat, q: nat, c: byte)
    requires p <= q < |d| && d[q] == c && forall i | p <= i < q :: d[i] != c
    ensures FindFrom(d, p, c) == q
    decreases q - p
  {
    if p < q {
      FindIs(d, p + 1, q, c);
    }
  }

  // ----- one field ------------------------------------------------------------------------

  lemma ReadsTag(d: seq<byte>, p: nat, tag: nat)
    requires TextAt(d, p, Numeral(tag) + [EQUALS])
    ensures TagAt(d, p) == Done(tag, p + |Numeral(tag)| + 1)
  {
    var s := Numeral(tag);
    TextAtParts(d, p, s, [EQUALS]);
    var q := p + |s|;
    assert [EQUALS][0] == EQUALS;
    assert forall i | p <= i < q :: d[i] == s[i - p];
    FindIs(d, p, q, EQUALS);
    TextAtSlice(d, p, s);
    ReadsDigits(d, p, s, 0);
    NumeralDenotes(tag);
  }

  lemma ReadsValue(d: seq<byte>, v: nat, s: seq<byte>)
    requires TextAt(d, v, s + [SOH]) && SOH !in s
    ensures ValueAt(d, v) == Done(v, v + |s| + 1)
    ensures d[v..v + |s|] == s && d[v + |s|] == SOH
  {
    TextAtParts(d, v, s, [SOH]);
    var q := v + |s|;
    assert [SOH][0] == SOH;
    assert forall i | v <= i < q :: d[i] == s[i - v];
    FindIs(d, v, q, SOH);
    TextAtSlice(d, v, s);
  }

  lemma FieldText(a: seq<byte>, b: seq<byte>, c: seq<byte>, d: seq<byte>)
    ensures a + b + c + d == a + b + (c + d)
  {
  }

  lemma ReadsBoth(d: seq<byte>, p: nat, tag: nat, s: seq<byte>, front: seq<byte>)
    requires front == Numeral(tag) + [EQUALS] && TextAt(d, p, front + (s + [SOH])) && SOH !in s
    ensures var v, n := p + |Numeral(tag)| + 1, p + |front| + |s| + 1;
      && v + |s| + 1 == n <= |d|
      && TagAt(d, p) == Done(tag, v) && ValueAt(d, v) == Done(v, n)
      && d[v..n - 1] == s && d[n - 1] == SOH
  {
    TextAtParts(d, p, front, s + [SOH]);
    ReadsTag(d, p, tag);
    ReadsValue(d, p + |front|, s);
  }

  /** The tag is read, and the value lies between the two positions. */
  lemma ReadsField(d: seq<byte>, p: nat, f: Field, zpad: nat)
    requires TextAt(d, p, FieldBytes(f, zpad)) && SOH !in ValueBytes(f.value, zpad)
    ensures var v, n := p + |Numeral(f.tag)| + 1, p + |FieldBytes(f, zpad)|;
      && v + |ValueBytes(f.value, zpad)| + 1 == n <= |d|
      && TagAt(d, p) == Done(f.tag, v) && ValueAt(d, v) == Done(v, n)
      && d[v..n - 1] == ValueBytes(f.value, zpad) && d[n - 1] == SOH
  {
    FieldText(Numeral(f.tag), [EQUALS], ValueBytes(f.value, zpad), [SOH]);
    ReadsBoth(d, p, f.tag, ValueBytes(f.value, zpad), Numeral(f.tag) + [EQUALS]);
  }

  // ----- a list of fields -----------------------------------------------------------------

  /** A field and what was written for it. */
  datatype Item = Item(f: Field, text: seq<byte>)

  function ItemBytes(items: seq<Item>): seq<byte> {
    if items == [] then [] else items[0].text + ItemBytes(items[1..])
  }

  /** The type of the tag is that of what the field holds, and numbers are within the width that the reader has: 64
      bits, and 32 bits for the sequence number. */
  predicate Fits(f: Field) {
    match FixTagType(f.tag)
    case IntType => f.value.Number? && -0x8000_0000_0000_0000 < f.value.n < 0x8000_0000_0000_0000
    case CharType => f.value.Char? && f.value.b != SOH
    case StringType => f.value.Text? && SOH !in f.value.s
    case MsgSeqNumType => f.value.Number? && 0 <= f.value.n < 0x8000_0000
    case _ => false
  }

  /** Every text is its field's, padded to some width, and every tag is of the type of what the field holds. */
  ghost predicate AllFit(items: seq<Item>)
    decreases |items|, 1
  {
    items == [] || FirstFits(items)
  }

  ghost predicate FirstFits(items: seq<Item>)
    requires items != []
    decreases |items|, 0
  {
    && Fits(items[0].f)
    && (exists zpad: nat :: items[0].text == FieldBytes(items[0].f, zpad))
    && AllFit(items[1..])
  }

  /** The fields of a message as read: all but the sequence number. */
  function Kept(items: seq<Item>): seq<Field> {
    if items == [] then []
    else (if IsSeqNum(items[0].f) then [] else [items[0].f]) + Kept(items[1..])
  }

  /** The same, added to the fields already read. */
  function KeptFrom(items: seq<Item>, fields: seq<Field>): seq<Field> {
    if items == [] then fields else KeptFrom(items[1..], KeptAfter(items[0].f, fields))
  }

  /** The last sequence number stated. */
  function NumberOf(items: seq<Item>, seqNum: nat): nat {
    if items == [] then seqNum else NumberOf(items[1..], NumberAfter(items[0].f, seqNum))
  }

  lemma PrintedHasNoDelimiter(v: int, width: nat)
    ensures SOH !in Padded(v, width)
  {
    var t := PrintedShape(v, width);
  }

  lemma FitsHasNoDelimiter(f: Field, zpad: nat)
    requires Fits(f)
    ensures SOH !in ValueBytes(f.value, zpad)
  {
    if f.value.Number? {
      PrintedHasNoDelimiter(f.value.n, zpad);
    }
  }

  /** The typed reading of a printed value is the value. */
  lemma ReadsTyped(d: seq<byte>, v: nat, end: nat, f: Field, zpad: nat)
    requires Fits(f) && v <= end < |d| && d[v..end] == ValueBytes(f.value, zpad) && d[end] == SOH
    ensures TypedValue(d, v, end, FixTagType(f.tag)) == f.value
  {
    if f.value.Number? {
      ReadsPrinted(d, v, f.value.n, zpad);
    }
  }

  lemma ReadsItem(d: seq<byte>, p: nat, items: seq<Item>)
    requires items != [] && TextAt(d, p, items[0].text) && AllFit(items)
    ensures !FixTagType(items[0].f.tag).ChecksumType?
    ensures ReadFieldAt(d, p) == Done(items[0].f, p + |items[0].text|)
  {
    assert FirstFits(items);
    var zpad: nat :| items[0].text == FieldBytes(items[0].f, zpad);
    ReadsItemOf(d, p, items[0].f, zpad);
  }

  lemma ReadsItemOf(d: seq<byte>, p: nat, f: Field, zpad: nat)
    requires TextAt(d, p, FieldBytes(f, zpad)) && Fits(f)
    ensures ReadFieldAt(d, p) == Done(f, p + |FieldBytes(f, zpad)|)
  {
    FitsHasNoDelimiter(f, zpad);
    ReadsField(d, p, f, zpad);
    var v, n := p + |Numeral(f.tag)| + 1, p + |FieldBytes(f, zpad)|;
    assert AnyFieldAt(d, p) == Done((f.tag, v), n);
    ReadsTyped(d, v, n - 1, f, zpad);
  }

  lemma Associates(a: seq<Field>, b: seq<Field>, c: seq<Field>)
    ensures a + (b + c) == a + b + c
  {
  }

  lemma {:induction false} KeptIsAdded(items: seq<Item>, fields: seq<Field>)
    ensures KeptFrom(items, fields) == fields + Kept(items)
    decreases |items|
  {
    if items == [] {
      assert fields + Kept(items) == fields;
    } else {
      var f, tail := items[0].f, items[1..];
      var head := if IsSeqNum(f) then [] else [f];
      KeptIsAdded(tail, KeptAfter(f, fields));
      assert Kept(items) == head + Kept(tail);
      Associates(fields, head, Kept(tail));
      assert fields + [] == fields;
    }
  }

  /** Reading on from `p` is reading on from `q` with what the fields between them add. */
  ghost predicate LeadsTo(d: seq<byte>, p: nat, fields: seq<Field>, seqNum: nat, q: nat, all: seq<Field>, last: nat) {
    p <= |d| && q <= |d| && RestAt(d, p, fields, seqNum) == RestAt(d, q, all, last)
  }

  /** One round of the loop over the fields. */
  lemma ReadsRound(d: seq<byte>, p: nat, items: seq<Item>, fields: seq<Field>, seqNum: nat)
    requires items != [] && TextAt(d, p, items[0].text) && AllFit(items)
    ensures var item := items[0];
      LeadsTo(d, p, fields, seqNum, p + |item.text|, KeptAfter(item.f, fields), NumberAfter(item.f, seqNum))
  {
    ReadsItem(d, p, items);
    assert RestRound(d, p, fields, seqNum) ==
      RestAt(d, p + |items[0].text|, KeptAfter(items[0].f, fields), NumberAfter(items[0].f, seqNum));
  }

  lemma SplitItems(d: seq<byte>, p: nat, items: seq<Item>) returns (n: nat)
    requires TextAt(d, p, ItemBytes(items)) && items != []
    ensures n == p + |items[0].text| && n + |ItemBytes(items[1..])| == p + |ItemBytes(items)|
    ensures TextAt(d, p, items[0].text) && TextAt(d, n, ItemBytes(items[1..]))
  {
    n := p + |items[0].text|;
    TextAtParts(d, p, items[0].text, ItemBytes(items[1..]));
  }

  lemma TailFits(items: seq<Item>)
    requires items != [] && AllFit(items)
    ensures AllFit(items[1..])
  {
    assert FirstFits(items);
  }

  lemma ReadsFirst(d: seq<byte>, p: nat, items: seq<Item>, fields: seq<Field>, seqNum: nat) returns (n: nat)
    requires TextAt(d, p, ItemBytes(items)) && AllFit(items) && items != []
    ensures n + |ItemBytes(items[1..])| == p + |ItemBytes(items)|
    ensures TextAt(d, n, ItemBytes(items[1..])) && AllFit(items[1..])
    ensures LeadsTo(d, p, fields, seqNum, n, KeptAfter(items[0].f, fields), NumberAfter(items[0].f, seqNum))
  {
    n := SplitItems(d, p, items);
    TailFits(items);
    ReadsRound(d, p, items, fields, seqNum);
  }

  lemma {:induction false} ReadsItems(d: seq<byte>, p: nat, items: seq<Item>, fields: seq<Field>, seqNum: nat)
    requires TextAt(d, p, ItemBytes(items)) && AllFit(items)
    ensures LeadsTo(d, p, fields, seqNum, p + |ItemBytes(items)|, KeptFrom(items, fields), NumberOf(items, seqNum))
    decreases |items|
  {
    hide KeptAfter, NumberAfter;
    if items != [] {
      var n := ReadsFirst(d, p, items, fields, seqNum);
      ReadsItems(d, n, items[1..], KeptAfter(items[0].f, fields), NumberAfter(items[0].f, seqNum));
    }
  }

  // ----- a whole message ------------------------------------------------------------------

  /** A message as it is on the wire: type and fields, the length of that, and the sum of everything. */
  datatype Sealed = Sealed(begin: seq<byte>, length: seq<byte>, typeText: seq<byte>, items: seq<Item>)

  function TypeField(m: Sealed): seq<byte> {
    FieldBytes(Field(MSG_TYPE, Text(m.typeText)), 0)
  }

  function Front(m: Sealed): seq<byte> {
    HeadBytes(m.begin, m.length) + (TypeField(m) + ItemBytes(m.items))
  }

  function Bytes(m: Sealed): seq<byte> {
    Wire(m.begin, m.length, TypeField(m) + ItemBytes(m.items))
  }

  /** What a reader accepts: texts without delimiters, the true length within the limit, fields of the right types. */
  ghost predicate Acceptable(m: Sealed) {
    && SOH !in m.begin && SOH !in m.typeText && !TypeOf(m.typeText).Unknown?
    && AllDigits(m.length) && m.length != [] && Digits.Value(m.length) == |TypeField(m)|
       + |ItemBytes(m.items)| <= MAX_MESSAGE_SIZE
    && AllFit(m.items)
  }

  function HeadOf(m: Sealed, p: nat): Head {
    Head(p + 2, |TypeField(m)| + |ItemBytes(m.items)|, p + |HeadBytes(m.begin, m.length)| + 3)
  }

  /** What the reader makes of it. */
  function ReadBack(m: Sealed, p: nat, flags: Flags, seqNum: nat): Parsed {
    Parsed(if flags.noType then Unknown else TypeOf(m.typeText),
           HeadOf(m, p), NumberOf(m.items, seqNum), Kept(m.items))
  }

  lemma ReadsNamedField(d: seq<byte>, p: nat, tag: nat, s: seq<byte>, text: seq<byte>)
    requires text == FieldBytes(Field(tag, Text(s)), 0) && TextAt(d, p, text) && SOH !in s && tag > 0
    ensures var v, n := p + |Numeral(tag)| + 1, p + |text|;
      FieldAt(d, p, tag) == Done(v, n) && v + |s| + 1 == n <= |d| && d[v..n - 1] == s && d[n - 1] == SOH
  {
    ReadsField(d, p, Field(tag, Text(s)), 0);
  }

  /** The field with this tag and text is read from `p` to `n`. */
  ghost predicate Stands(d: seq<byte>, p: nat, tag: nat, s: seq<byte>, n: nat) {
    && p <= |d| && tag > 0
    && var v := p + |Numeral(tag)| + 1;
    && v + |s| + 1 == n <= |d| && d[v..n - 1] == s && d[n - 1] == SOH && FieldAt(d, p, tag) == Done(v, n)
  }

  lemma ReadsLength(d: seq<byte>, p: nat, s: seq<byte>, n: nat)
    requires Stands(d, p, BODY_LENGTH, s, n) && AllDigits(s) && s != [] && 0 < Digits.Value(s) <= MAX_MESSAGE_SIZE
    ensures LengthAt(d, p) == Done(Digits.Value(s), n)
  {
    ReadsDigits(d, p + |Numeral(BODY_LENGTH)| + 1, s, 0);
  }

  lemma ComposesThree(d: seq<byte>, p: nat, v: nat, n: nat, len: nat, q: nat, t: nat, r: nat)
    requires p <= |d| && n <= |d| && q <= |d|
    requires FieldAt(d, p, BEGIN_STRING) == Done(v, n) && LengthAt(d, n) == Done(len, q)
    requires FieldAt(d, q, MSG_TYPE) == Done(t, r)
    ensures ThreeAt(d, p) == Done(Head(v, len, t), r)
  {
  }

  lemma ReadsThree(d: seq<byte>, p: nat, begin: seq<byte>, length: seq<byte>, t: seq<byte>, n: nat, q: nat, r: nat)
    requires Stands(d, p, BEGIN_STRING, begin, n) && Stands(d, n, BODY_LENGTH, length, q)
    requires Stands(d, q, MSG_TYPE, t, r)
    requires AllDigits(length) && length != [] && 0 < Digits.Value(length) <= MAX_MESSAGE_SIZE
    ensures ThreeAt(d, p) == Done(Head(p + 2, Digits.Value(length), q + 3), r)
    ensures q + 3 < r <= |d| && d[q + 3..r - 1] == t
  {
    TwoDigitTags();
    ReadsLength(d, n, length, q);
    ComposesThree(d, p, p + 2, n, Digits.Value(length), q, q + 3, r);
  }

  /** The checksum stage finds the trailer where BodyLength says. */
  lemma ReadsSum(d: seq<byte>, h: Head, p: nat, front: seq<byte>, start: nat, noCsum: bool)
    requires TextAt(d, start, front + Trailer(Sum8(front)))
    requires h.beginString == start + 2 && h.beginString + 3 <= h.msgType < p <= |d|
    requires h.msgType - 3 + h.bodyLength == start + |front|
    ensures SumAt(d, h, p, noCsum) == Done((), p)
  {
    var sum, q := Sum8(front), start + |front|;
    TextAtParts(d, start, front, Trailer(sum));
    TrailerWidth(sum);
    ReadsTrailer(d, q, sum);
    TextAtSlice(d, start, front);
  }

  lemma ReadsTrailer(d: seq<byte>, q: nat, sum: nat)
    requires TextAt(d, q, Trailer(sum)) && sum < 256
    ensures q + 7 <= |d| && FieldAt(d, q, CHECK_SUM) == Done(q + 3, q + 7) && ReadNat(d, q + 3, 0).0 == sum
    ensures AnyFieldAt(d, q) == Done((CHECK_SUM, q + 3), q + 7)
  {
    TrailerWidth(sum);
    CheckWidth(sum);
    TwoDigitTags();
    PrintedHasNoDelimiter(sum, 3);
    ReadsField(d, q, Field(CHECK_SUM, Check(sum)), 0);
    ReadsPrinted(d, q + 3, sum, 3);
  }

  // ----- the main results -----------------------------------------------------------------

  lemma DigitsArePlain(s: seq<byte>)
    requires AllDigits(s)
    ensures SOH !in s
  {
  }

  lemma NamedFieldStands(d: seq<byte>, p: nat, tag: nat, s: seq<byte>, text: seq<byte>)
    requires text == FieldBytes(Field(tag, Text(s)), 0) && TextAt(d, p, text) && SOH !in s && tag > 0
    ensures Stands(d, p, tag, s, p + |text|)
  {
    ReadsNamedField(d, p, tag, s, text);
  }

  /** Where the parts of a message stand. */
  ghost predicate PartsAt(d: seq<byte>, p: nat, m: Sealed, n: nat, q: nat, r: nat) {
    && n == p + |FieldBytes(Field(BEGIN_STRING, Text(m.begin)), 0)|
    && q == p + |HeadBytes(m.begin, m.length)| && r == q + |TypeField(m)|
    && TextAt(d, p, FieldBytes(Field(BEGIN_STRING, Text(m.begin)), 0))
    && TextAt(d, n, FieldBytes(Field(BODY_LENGTH, Text(m.length)), 0))
    && TextAt(d, q, TypeField(m))
  }

  lemma SplitHead(d: seq<byte>, p: nat, m: Sealed, sum: nat) returns (n: nat, q: nat, r: nat)
    requires TextAt(d, p, Front(m) + Trailer(sum))
    ensures PartsAt(d, p, m, n, q, r)
    ensures r + |ItemBytes(m.items)| == p + |Front(m)|
    ensures TextAt(d, r, ItemBytes(m.items)) && TextAt(d, p + |Front(m)|, Trailer(sum))
  {
    var a, b := FieldBytes(Field(BEGIN_STRING, Text(m.begin)), 0), FieldBytes(Field(BODY_LENGTH, Text(m.length)), 0);
    n, q := p + |a|, p + |a| + |b|;
    r := q + |TypeField(m)|;
    SplitFive(d, p, a, b, TypeField(m), ItemBytes(m.items), Trailer(sum));
  }

  lemma SplitFive(d: seq<byte>, p: nat, a: seq<byte>, b: seq<byte>, c: seq<byte>, e: seq<byte>, f: seq<byte>)
    requires TextAt(d, p, a + b + (c + e) + f)
    ensures TextAt(d, p, a) && TextAt(d, p + |a|, b) && TextAt(d, p + |a| + |b|, c) && TextAt(d, p + |a| + |b| + |c|, e)
    ensures TextAt(d, p + |a| + |b| + |c| + |e|, f)
  {
    TextAtParts(d, p, a + b + (c + e), f);
    TextAtParts(d, p, a + b, c + e);
    TextAtParts(d, p, a, b);
    TextAtParts(d, p + |a + b|, c, e);
  }

  lemma FirstStands(d: seq<byte>, p: nat, m: Sealed, n: nat, q: nat, r: nat)
    requires PartsAt(d, p, m, n, q, r) && Acceptable(m)
    ensures Stands(d, p, BEGIN_STRING, m.begin, n)
  {
    NamedFieldStands(d, p, BEGIN_STRING, m.begin, FieldBytes(Field(BEGIN_STRING, Text(m.begin)), 0));
  }

  lemma SecondStands(d: seq<byte>, p: nat, m: Sealed, n: nat, q: nat, r: nat)
    requires PartsAt(d, p, m, n, q, r) && Acceptable(m)
    ensures Stands(d, n, BODY_LENGTH, m.length, q)
  {
    DigitsArePlain(m.length);
    NamedFieldStands(d, n, BODY_LENGTH, m.length, FieldBytes(Field(BODY_LENGTH, Text(m.length)), 0));
  }

  lemma ThirdStands(d: seq<byte>, p: nat, m: Sealed, n: nat, q: nat, r: nat)
    requires PartsAt(d, p, m, n, q, r) && Acceptable(m)
    ensures Stands(d, q, MSG_TYPE, m.typeText, r)
  {
    NamedFieldStands(d, q, MSG_TYPE, m.typeText, TypeField(m));
  }

  /** The head of a message, and where the type and the fields start. */
  lemma ReadsHead(d: seq<byte>, p: nat, m: Sealed, n: nat, q: nat, r: nat)
    requires PartsAt(d, p, m, n, q, r) && Acceptable(m)
    ensures p <= |d| && ThreeAt(d, p) == Done(Head(p + 2, Digits.Value(m.length), q + 3), r)
    ensures q + 3 < r <= |d| && d[q + 3..r - 1] == m.typeText
  {
    FirstStands(d, p, m, n, q, r);
    SecondStands(d, p, m, n, q, r);
    ThirdStands(d, p, m, n, q, r);
    ReadsThree(d, p, m.begin, m.length, m.typeText, n, q, r);
  }

  lemma KeptFromNothing(items: seq<Item>)
    ensures KeptFrom(items, []) == Kept(items)
  {
    KeptIsAdded(items, []);
    assert [] + Kept(items) == Kept(items);
  }

  /** The reading stops behind the checksum. */
  lemma ReadsEnd(d: seq<byte>, q: nat, sum: nat, fields: seq<Field>, seqNum: nat)
    requires TextAt(d, q, Trailer(sum)) && sum < 256
    ensures q <= |d| && RestAt(d, q, fields, seqNum) == Rest(fields, seqNum, q + 7)
  {
    ReadsTrailer(d, q, sum);
    assert RestRound(d, q, fields, seqNum) == Rest(fields, seqNum, q + 7);
  }

  lemma ReadsRest(d: seq<byte>, p: nat, items: seq<Item>, sum: nat, seqNum: nat)
    requires TextAt(d, p, ItemBytes(items)) && AllFit(items) && sum < 256
    requires TextAt(d, p + |ItemBytes(items)|, Trailer(sum))
    ensures RestAt(d, p, [], seqNum) == Rest(Kept(items), NumberOf(items, seqNum), p + |ItemBytes(items)| + 7)
  {
    hide RestAt, ItemBytes, Trailer, Kept, KeptFrom, NumberOf;
    var fields: seq<Field> := [];
    ReadsItems(d, p, items, fields, seqNum);
    KeptFromNothing(items);
    ReadsEnd(d, p + |ItemBytes(items)|, sum, KeptFrom(items, fields), NumberOf(items, seqNum));
  }

  /** The first three fields of a message that stands whole at `p`, and what follows them. */
  lemma ReadsFront(d: seq<byte>, p: nat, m: Sealed, sum: nat) returns (h: Head, r: nat)
    requires TextAt(d, p, Front(m) + Trailer(sum)) && Acceptable(m)
    ensures p < r <= |d| && h == HeadOf(m, p) && ThreeAt(d, p) == Done(h, r)
    ensures h.msgType < r && d[h.msgType..r - 1] == m.typeText
    ensures TextAt(d, r, ItemBytes(m.items)) && TextAt(d, p + |Front(m)|, Trailer(sum))
    ensures h.msgType - 3 + h.bodyLength == p + |Front(m)| == r + |ItemBytes(m.items)|
  {
    var n, q;
    n, q, r := SplitHead(d, p, m, sum);
    ReadsHead(d, p, m, n, q, r);
    h := Head(p + 2, Digits.Value(m.length), q + 3);
  }

  lemma ReadsBack(d: seq<byte>, p: nat, h: Head, r: nat, m: Sealed, front: seq<byte>, noCsum: bool, seqNum: nat)
    requires h.beginString == p + 2 && h.beginString + 3 <= h.msgType < r <= |d| && AllFit(m.items)
    requires TextAt(d, p, front + Trailer(Sum8(front))) && TextAt(d, r, ItemBytes(m.items))
    requires TextAt(d, p + |front|, Trailer(Sum8(front)))
    requires h.msgType - 3 + h.bodyLength == p + |front| == r + |ItemBytes(m.items)|
    ensures SumAt(d, h, r, noCsum) == Done((), r)
    ensures RestAt(d, r, [], seqNum) == Rest(Kept(m.items), NumberOf(m.items, seqNum), p + |front| + 7)
  {
    ReadsSum(d, h, r, front, p, noCsum);
    ReadsRest(d, r, m.items, Sum8(front), seqNum);
  }

  lemma ComposesMessage(d: seq<byte>, p: nat, h: Head, n: nat, rest: Rest, flags: Flags, seqNum: nat, t: MsgType)
    requires p < |d| && ThreeAt(d, p) == Done(h, n) && h.msgType < n && t == TypeOf(d[h.msgType..n - 1]) && !t.Unknown?
    requires SumAt(d, h, n, flags.noCsum) == Done((), n) && rest == RestAt(d, n, [], seqNum)
    ensures MessageAt(d, p, flags, seqNum) ==
      Done(Parsed(if flags.noType then Unknown else t, h, rest.seqNum, rest.fields), rest.next)
  {
    hide TypeOf, RestAt, SumAt, ThreeAt;
  }

  /** A message that stands whole at `p` is read back there, and exactly its bytes are consumed. */
  lemma ReadsMessage(d: seq<byte>, p: nat, m: Sealed, flags: Flags, seqNum: nat)
    requires TextAt(d, p, Bytes(m)) && Acceptable(m)
    ensures MessageAt(d, p, flags, seqNum) == Done(ReadBack(m, p, flags, seqNum), p + |Bytes(m)|)
  {
    var h, r := ReadsParts(d, p, m, flags.noCsum, seqNum);
    BytesWidth(m);
    ComposesMessage(d, p, h, r, Rest(Kept(m.items), NumberOf(m.items, seqNum), p + |Bytes(m)|), flags, seqNum,
                    TypeOf(m.typeText));
  }

  lemma ReadsParts(d: seq<byte>, p: nat, m: Sealed, noCsum: bool, seqNum: nat) returns (h: Head, r: nat)
    requires TextAt(d, p, Bytes(m)) && Acceptable(m)
    ensures p < r <= |d| && h == HeadOf(m, p) && ThreeAt(d, p) == Done(h, r) && h.msgType < r
    ensures d[h.msgType..r - 1] == m.typeText
    ensures 2 <= h.beginString && h.beginString + 3 <= h.msgType && SumAt(d, h, r, noCsum) == Done((), r)
    ensures RestAt(d, r, [], seqNum) == Rest(Kept(m.items), NumberOf(m.items, seqNum), p + |Front(m)| + 7)
  {
    hide TextAt, ThreeAt, RestAt, SumAt, ItemBytes, Kept;
    h, r := ReadsFront(d, p, m, Sum8(Front(m)));
    ReadsBack(d, p, h, r, m, Front(m), noCsum, seqNum);
  }

  lemma BytesWidth(m: Sealed)
    ensures |Bytes(m)| == |Front(m)| + 7
  {
    TrailerWidth(Sum8(Front(m)));
  }

  /** Whether the trailer at `q` is right. */
  lemma SumDecides(d: seq<byte>, h: Head, p: nat, front: seq<byte>, start: nat, sum: nat, noCsum: bool)
    requires sum < 256 && TextAt(d, start, front + Trailer(sum))
    requires h.beginString == start + 2 && h.beginString + 3 <= h.msgType < p <= |d|
    requires h.msgType - 3 + h.bodyLength == start + |front|
    ensures SumAt(d, h, p, noCsum) ==
      if noCsum || sum == Sum8(front) then Done((), p) else Garbled(start + |front| + 7)
  {
    var q := start + |front|;
    TextAtParts(d, start, front, Trailer(sum));
    TrailerWidth(sum);
    ReadsTrailer(d, q, sum);
    TextAtSlice(d, start, front);
  }

  /** A message with a true length and any checksum of three digits is accepted exactly if that is the sum of its
      bytes, or checksums are not looked at; otherwise it is garbled, and skipped as a whole. */
  lemma ChecksumDecides(d: seq<byte>, p: nat, m: Sealed, sum: nat, flags: Flags, seqNum: nat)
    requires TextAt(d, p, Front(m) + Trailer(sum)) && Acceptable(m) && sum < 256
    ensures p <= |d| && (MessageAt(d, p, flags, seqNum).Done? <==> flags.noCsum || sum == Sum8(Front(m)))
    ensures !MessageAt(d, p, flags, seqNum).Done? ==>
      MessageAt(d, p, flags, seqNum) == Garbled(p + |Front(m)| + 7)
  {
    hide Acceptable, TypeOf, ThreeAt, RestAt, SumAt, Front, Sum8, Trailer, ItemBytes;
    var h, r := ReadsFront(d, p, m, sum);
    SumDecides(d, h, r, Front(m), p, sum, flags.noCsum);
    KnownText(m);
  }

  lemma KnownText(m: Sealed)
    requires Acceptable(m)
    ensures !TypeOf(m.typeText).Unknown?
  {
  }
}
