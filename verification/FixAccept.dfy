/** Which bytes the parser of lib/proto/fix_message.c accepts, told of the bytes themselves: fields, the first three
    of them, the length and the checksum. */
module FixAccept {
  import opened Wrappers
  import opened Digits
  import opened ByteBuffer
  import opened FixWire
  import opened FixParse

  // ----- fields ---------------------------------------------------------------------------

  /** From `p` to `n` the bytes are digits that denote the tag, an equals sign, the value from `v` on, and a
      delimiter. */
  ghost predicate FieldIs(d: seq<byte>, p: nat, tag: nat, v: nat, n: nat) {
    && p < v < n <= |d|
    && AllDigits(d[p..v - 1]) && Digits.Value(d[p..v - 1]) == tag && d[v - 1] == EQUALS
    && SOH !in d[v..n - 1] && d[n - 1] == SOH
  }

  /** The digits at `v` that are followed by something else denote `x`. */
  ghost predicate Begins(d: seq<byte>, v: nat, x: nat) {
    exists k: nat :: DigitsTo(d, v, k) && Digits.Value(d[v..k]) == x
  }

  ghost predicate DigitsTo(d: seq<byte>, v: nat, k: nat) {
    v <= k < |d| && AllDigits(d[v..k]) && !IsDigit(d[k])
  }

  lemma ReadsTo(d: seq<byte>, v: nat, k: nat)
    requires DigitsTo(d, v, k)
    ensures ReadNat(d, v, 0) == (Digits.Value(d[v..k]), k)
  {
    ReadsDigits(d, v, d[v..k], 0);
  }

  lemma {:induction false} ReadStops(d: seq<byte>, v: nat, acc: nat)
    requires v <= |d|
    ensures var k := ReadNat(d, v, acc).1;
      AllDigits(d[v..k]) && (k < |d| ==> !IsDigit(d[k]))
    decreases |d| - v
  {
    if v < |d| && IsDigit(d[v]) {
      var next := 10 * acc + (d[v] - ZERO);
      ReadStops(d, v + 1, next);
      var k := ReadNat(d, v, acc).1;
      assert d[v..k] == [d[v]] + d[v + 1..k];
    }
  }

  /** fix_uatoi finds the number that the digits denote. */
  lemma BeginsExactly(d: seq<byte>, v: nat, x: nat)
    requires v <= |d| && ReadNat(d, v, 0).1 < |d|
    ensures ReadNat(d, v, 0).0 == x <==> Begins(d, v, x)
  {
    ReadStops(d, v, 0);
    var k := ReadNat(d, v, 0).1;
    assert DigitsTo(d, v, k);
    ReadsTo(d, v, k);
    if Begins(d, v, x) {
      var j: nat :| DigitsTo(d, v, j) && Digits.Value(d[v..j]) == x;
      ReadsTo(d, v, j);
    }
  }

  lemma {:induction false} FoundIs(d: seq<byte>, p: nat, q: nat, c: byte)
    requires p <= q < |d| && d[q] == c && c !in d[p..q]
    ensures FindFrom(d, p, c) == q
    decreases q - p
  {
    if p < q {
      assert d[p..q][0] == d[p];
      assert d[p + 1..q] == d[p..q][1..];
      FoundIs(d, p + 1, q, c);
    }
  }

  lemma NotBefore(d: seq<byte>, p: nat, c: byte)
    requires p <= |d|
    ensures c !in d[p..FindFrom(d, p, c)]
  {
    FindStops(d, p, c);
  }

  lemma TagExactly(d: seq<byte>, p: nat, tag: nat, v: nat)
    requires p <= |d|
    ensures TagAt(d, p) == Done(tag, v) <==>
      && p < v <= |d| && AllDigits(d[p..v - 1]) && Digits.Value(d[p..v - 1]) == tag && d[v - 1] == EQUALS
  {
    FindStops(d, p, EQUALS);
    ReadStops(d, p, 0);
    var q := FindFrom(d, p, EQUALS);
    if q < |d| && ReadNat(d, p, 0).1 == q {
      assert DigitsTo(d, p, q);
      ReadsTo(d, p, q);
    }
    if p < v <= |d| && AllDigits(d[p..v - 1]) && d[v - 1] == EQUALS {
      assert DigitsTo(d, p, v - 1);
      ReadsTo(d, p, v - 1);
      FoundIs(d, p, v - 1, EQUALS);
    }
  }

  lemma ValueExactly(d: seq<byte>, v: nat, w: nat, n: nat)
    requires v <= |d|
    ensures ValueAt(d, v) == Done(w, n) <==> w == v < n <= |d| && SOH !in d[v..n - 1] && d[n - 1] == SOH
  {
    FindStops(d, v, SOH);
    NotBefore(d, v, SOH);
    if w == v < n <= |d| && SOH !in d[v..n - 1] && d[n - 1] == SOH {
      FoundIs(d, v, n - 1, SOH);
    }
  }

  /** parse_field reads exactly such bytes, */
  lemma AnyFieldExactly(d: seq<byte>, p: nat, tag: nat, v: nat, n: nat)
    requires p <= |d|
    ensures AnyFieldAt(d, p) == Done((tag, v), n) <==> FieldIs(d, p, tag, v, n)
  {
    if TagAt(d, p).Done? {
      TagExactly(d, p, TagAt(d, p).value, TagAt(d, p).next);
      ValueExactly(d, TagAt(d, p).next, v, n);
    }
    TagExactly(d, p, tag, v);
    if v <= |d| {
      ValueExactly(d, v, v, n);
    }
  }

  /** and match_field those with the tag it looks for. */
  lemma FieldExactly(d: seq<byte>, p: nat, tag: nat, v: nat, n: nat)
    requires p <= |d| && tag > 0
    ensures FieldAt(d, p, tag) == Done(v, n) <==> FieldIs(d, p, tag, v, n)
  {
    AnyFieldExactly(d, p, tag, v, n);
    if TagAt(d, p).Done? && ValueAt(d, TagAt(d, p).next).Done? {
      ValueExactly(d, TagAt(d, p).next, ValueAt(d, TagAt(d, p).next).value, ValueAt(d, TagAt(d, p).next).next);
    }
  }

  /** A field that is read ends with its delimiter, so its digits end before. */
  lemma DigitsEnd(d: seq<byte>, p: nat, tag: nat, v: nat, n: nat)
    requires FieldIs(d, p, tag, v, n)
    ensures ReadNat(d, v, 0).1 < n
  {
    ReadStops(d, v, 0);
    var k := ReadNat(d, v, 0).1;
    assert n <= k ==> IsDigit(d[v..k][n - 1 - v]);
  }

  // ----- the first three fields -----------------------------------------------------------

  /** BeginString, a BodyLength within the limit, and MsgType, one after the other; fields follow at `n`. */
  ghost predicate HeadIs(d: seq<byte>, p: nat, h: Head, n: nat) {
    exists n1: nat, v2: nat, n2: nat :: ThreeAre(d, p, h, n1, v2, n2, n)
  }

  ghost predicate ThreeAre(d: seq<byte>, p: nat, h: Head, n1: nat, v2: nat, n2: nat, n: nat) {
    && FieldIs(d, p, 8, h.beginString, n1)
    && FieldIs(d, n1, 9, v2, n2) && Begins(d, v2, h.bodyLength) && 1 <= h.bodyLength <= 1280
    && FieldIs(d, n2, 35, h.msgType, n)
  }

  lemma LengthExactly(d: seq<byte>, p: nat, len: nat, n: nat)
    requires p <= |d|
    ensures LengthAt(d, p) == Done(len, n) <==>
      1 <= len <= 1280 && exists v: nat :: FieldIs(d, p, 9, v, n) && Begins(d, v, len)
  {
    var r := FieldAt(d, p, BODY_LENGTH);
    if r.Done? {
      FieldExactly(d, p, 9, r.value, r.next);
      DigitsEnd(d, p, 9, r.value, r.next);
      BeginsExactly(d, r.value, len);
    }
    if v: nat :| FieldIs(d, p, 9, v, n) && Begins(d, v, len) {
      FieldExactly(d, p, 9, v, n);
    }
  }

  lemma HeadExactly(d: seq<byte>, p: nat, h: Head, n: nat)
    requires p <= |d|
    ensures ThreeAt(d, p) == Done(h, n) <==> HeadIs(d, p, h, n)
  {
    if ThreeAt(d, p) == Done(h, n) {
      var first := FieldAt(d, p, BEGIN_STRING);
      var second := LengthAt(d, first.next);
      FieldExactly(d, p, 8, first.value, first.next);
      LengthExactly(d, first.next, second.value, second.next);
      var v2: nat :| FieldIs(d, first.next, 9, v2, second.next) && Begins(d, v2, second.value);
      FieldExactly(d, second.next, 35, h.msgType, n);
      assert ThreeAre(d, p, h, first.next, v2, second.next, n);
    }
    if HeadIs(d, p, h, n) {
      var n1: nat, v2: nat, n2: nat :| ThreeAre(d, p, h, n1, v2, n2, n);
      FieldExactly(d, p, 8, h.beginString, n1);
      LengthExactly(d, n1, h.bodyLength, n2);
      FieldExactly(d, n2, 35, h.msgType, n);
    }
  }

  // ----- length and checksum --------------------------------------------------------------

  /** A CheckSum field at `q` states the sum of all bytes from `start` to its own tag. */
  ghost predicate SumStated(d: seq<byte>, start: nat, q: nat) {
    exists v: nat, n: nat :: FieldIs(d, q, 10, v, n) && start <= v - 3 && Begins(d, v, Sum8(d[start..v - 3]))
  }

  /** Where BodyLength points, counted from the tag of MsgType, seven bytes have arrived, and the checksum there is
      right. */
  ghost predicate SumIs(d: seq<byte>, h: Head, noCsum: bool) {
    && 2 <= h.beginString && 3 <= h.msgType
    && var q := h.msgType - 3 + h.bodyLength;
       q + 7 <= |d| && (noCsum || SumStated(d, h.beginString - 2, q))
  }

  lemma TrailerExactly(d: seq<byte>, h: Head, q: nat)
    requires 2 <= h.beginString <= q <= |d|
    ensures TrailerAt(d, h, q).Done? <==> SumStated(d, h.beginString - 2, q)
  {
    hide Sum8, Begins, ReadNat, FieldAt;
    var r := FieldAt(d, q, CHECK_SUM);
    TwoDigitTags();
    if r.Done? {
      FieldExactly(d, q, 10, r.value, r.next);
      DigitsEnd(d, q, 10, r.value, r.next);
      BeginsExactly(d, r.value, Sum8(d[h.beginString - 2..r.value - 3]));
    }
    if SumStated(d, h.beginString - 2, q) {
      var v: nat, n: nat :|
        FieldIs(d, q, 10, v, n) && h.beginString - 2 <= v - 3 && Begins(d, v, Sum8(d[h.beginString - 2..v - 3]));
      FieldExactly(d, q, 10, v, n);
    }
  }

  lemma SumExactly(d: seq<byte>, h: Head, p: nat, noCsum: bool)
    requires 2 <= h.beginString && h.beginString + 3 <= h.msgType < p <= |d|
    ensures SumAt(d, h, p, noCsum).Done? <==> SumIs(d, h, noCsum)
  {
    var q := h.msgType - 3 + h.bodyLength;
    if q <= |d| {
      TrailerExactly(d, h, q);
    }
  }

  /** The value is in the table of message types. */
  ghost predicate KnownType(s: seq<byte>) {
    exists t: MsgType :: !t.Unknown? && s == TypeText(t)
  }

  lemma TypeExactly(s: seq<byte>)
    requires SOH !in s
    ensures !TypeOf(s).Unknown? <==> KnownType(s)
  {
    if !TypeOf(s).Unknown? {
      TypeOfText(s, TypeOf(s));
    }
    if KnownType(s) {
      var t: MsgType :| !t.Unknown? && s == TypeText(t);
      TypeOfText(s, t);
    }
  }

  // ----- messages -------------------------------------------------------------------------

  /** A message stands at `p`, with its head and its fields from `n` on. */
  ghost predicate MessageIs(d: seq<byte>, p: nat, h: Head, n: nat, flags: Flags) {
    && HeadIs(d, p, h, n) && SumIs(d, h, flags.noCsum)
    && h.msgType < n <= |d| && (flags.noType || KnownType(d[h.msgType..n - 1]))
  }

  lemma HeadIsTyped(d: seq<byte>, p: nat, h: Head, n: nat, noType: bool)
    requires p <= |d|
    ensures HeadAt(d, p, noType) == Done(h, n) <==>
      HeadIs(d, p, h, n) && h.msgType < n <= |d| && (noType || KnownType(d[h.msgType..n - 1]))
  {
    hide Begins, KnownType;
    HeadExactly(d, p, h, n);
    if HeadIs(d, p, h, n) {
      var n1: nat, v2: nat, n2: nat :| ThreeAre(d, p, h, n1, v2, n2, n);
      TypeExactly(d[h.msgType..n - 1]);
    }
  }

  /** One candidate is accepted exactly if a message stands there. */
  lemma AcceptsExactly(d: seq<byte>, p: nat, flags: Flags, seqNum: nat)
    requires p <= |d|
    ensures MessageAt(d, p, flags, seqNum).Done? <==> exists h, n: nat :: MessageIs(d, p, h, n, flags)
    ensures forall h, n: nat | MessageIs(d, p, h, n, flags) && MessageAt(d, p, flags, seqNum).Done? ::
      MessageAt(d, p, flags, seqNum).value.head == h
  {
    hide HeadIs, KnownType, SumIs, HeadAt, SumAt, RestAt;
    var r := HeadAt(d, p, flags.noType);
    if r.Done? {
      HeadIsTyped(d, p, r.value, r.next, flags.noType);
      SumExactly(d, r.value, r.next, flags.noCsum);
      assert SumIs(d, r.value, flags.noCsum) ==> MessageIs(d, p, r.value, r.next, flags);
    }
    forall h, n: nat | MessageIs(d, p, h, n, flags)
      ensures MessageAt(d, p, flags, seqNum).Done? && MessageAt(d, p, flags, seqNum).value.head == h
    {
      HeadIsTyped(d, p, h, n, flags.noType);
    }
  }

  /** Whatever fix_message_parse returns stands in the bytes: its length and its checksum are right. */
  lemma ReturnedStands(d: seq<byte>, p: nat, flags: Flags, seqNum: nat) returns (q: nat, n: nat)
    requires p <= |d| && ParseFrom(d, p, flags, seqNum).Done?
    ensures p <= q && MessageIs(d, q, ParseFrom(d, p, flags, seqNum).value.head, n, flags)
  {
    q := ParseIsOfCandidate(d, p, flags, seqNum);
    AcceptsExactly(d, q, flags, seqNum);
    var h, m: nat :| MessageIs(d, q, h, m, flags);
    n := m;
  }

  lemma HeadWaits(d: seq<byte>, p: nat, noType: bool)
    requires p <= |d| && HeadAt(d, p, noType).Partial?
    ensures HeadAt(d, p, noType).next == |d|
  {
  }

  lemma SumWaits(d: seq<byte>, h: Head, p: nat, noCsum: bool)
    requires 2 <= h.beginString && h.beginString + 3 <= h.msgType < p <= |d| && SumAt(d, h, p, noCsum).Partial?
    ensures SumAt(d, h, p, noCsum).next == |d| || |d| < h.msgType - 3 + h.bodyLength + 7
  {
  }

  /** A candidate has to wait only at the end of the bytes, or for what BodyLength announces. */
  lemma WaitsForBytes(d: seq<byte>, p: nat, flags: Flags, seqNum: nat)
    requires p <= |d| && MessageAt(d, p, flags, seqNum).Partial?
    ensures MessageAt(d, p, flags, seqNum).next == |d|
            || exists h, n: nat :: HeadIs(d, p, h, n) && 3 <= h.msgType && |d| < h.msgType - 3 + h.bodyLength + 7
  {
    hide HeadIs, KnownType, HeadAt, SumAt;
    var r := HeadAt(d, p, flags.noType);
    if r.Done? {
      HeadIsTyped(d, p, r.value, r.next, flags.noType);
      assert HeadIs(d, p, r.value, r.next);
      if SumAt(d, r.value, r.next, flags.noCsum).Partial? {
        SumWaits(d, r.value, r.next, flags.noCsum);
      }
    } else if r.Partial? {
      HeadWaits(d, p, flags.noType);
    }
  }

  // ----- the other fields -----------------------------------------------------------------

  /** Where a field stands. */
  datatype At = At(tag: nat, v: nat, n: nat)

  /** Fields one after the other from `p` on, and after them a CheckSum field that ends at `end`. */
  ghost predicate FieldsAre(d: seq<byte>, p: nat, fs: seq<At>, end: nat)
    decreases |fs|
  {
    if fs == [] then exists v: nat :: FieldIs(d, p, 10, v, end)
    else FieldIs(d, p, fs[0].tag, fs[0].v, fs[0].n) && fs[0].tag != 10 && FieldsAre(d, fs[0].n, fs[1..], end)
  }

  function DigitsUpTo(d: seq<byte>, v: nat): (k: nat)
    requires v <= |d|
    ensures v <= k <= |d| && AllDigits(d[v..k])
    decreases |d| - v
  {
    if v < |d| && IsDigit(d[v]) then
      var k := DigitsUpTo(d, v + 1);
      assert d[v..k] == [d[v]] + d[v + 1..k];
      k
    else v
  }

  /** The number that stands at `v`: as many digits as there are. */
  function Unsigned(d: seq<byte>, v: nat): nat
    requires v <= |d|
  {
    Digits.Value(d[v..DigitsUpTo(d, v)])
  }

  /** What a field holds: the sequence number, another integer (BeginSeqNo, EndSeqNo, NewSeqNo, RefSeqNum, RptSeq,
      OrdRejReason, LastMsgSeqNumProcessed and MDPriceLevel), one character (PegMoveType), or its text. */
  function Shown(d: seq<byte>, a: At): Field
    requires a.v < a.n <= |d|
  {
    if a.tag == 34 then Field(34, Number(Unsigned(d, a.v)))
    else if a.tag in {7, 16, 36, 45, 83, 103, 369, 1023} then
      Field(a.tag, Number(if d[a.v] == MINUS then 0 - Unsigned(d, a.v + 1) else Unsigned(d, a.v)))
    else if a.tag == 442 then Field(a.tag, Char(d[a.v]))
    else Field(a.tag, Text(d[a.v..a.n - 1]))
  }

  lemma {:induction false} DigitsUpToIs(d: seq<byte>, v: nat, acc: nat)
    requires v <= |d|
    ensures DigitsUpTo(d, v) == ReadNat(d, v, acc).1
    decreases |d| - v
  {
    if v < |d| && IsDigit(d[v]) {
      DigitsUpToIs(d, v + 1, 10 * acc + (d[v] - ZERO));
    }
  }

  lemma UnsignedIs(d: seq<byte>, v: nat)
    requires v <= |d| && ReadNat(d, v, 0).1 < |d|
    ensures ReadNat(d, v, 0).0 == Unsigned(d, v)
  {
    ReadStops(d, v, 0);
    DigitsUpToIs(d, v, 0);
    ReadsTo(d, v, DigitsUpTo(d, v));
  }

  lemma TypedIsShown(d: seq<byte>, p: nat, a: At)
    requires FieldIs(d, p, a.tag, a.v, a.n)
    ensures Field(a.tag, TypedValue(d, a.v, a.n - 1, FixTagType(a.tag))) == Shown(d, a)
  {
    hide ReadNat;
    DigitsEnd(d, p, a.tag, a.v, a.n);
    UnsignedIs(d, a.v);
    if d[a.v] == MINUS {
      MinusEnds(d, p, a);
      UnsignedIs(d, a.v + 1);
    }
  }

  lemma ShownExactly(d: seq<byte>, p: nat, a: At)
    requires p <= |d|
    ensures FieldIs(d, p, a.tag, a.v, a.n) ==> ReadFieldAt(d, p) == Done(Shown(d, a), a.n)
    ensures ReadFieldAt(d, p).Done? <==> AnyFieldAt(d, p).Done?
    ensures ReadFieldAt(d, p).Done? ==>
      ReadFieldAt(d, p).next == AnyFieldAt(d, p).next && ReadFieldAt(d, p).value.tag == AnyFieldAt(d, p).value.0
  {
    hide FieldIs, Shown, FixTagType, TypedValue;
    AnyFieldExactly(d, p, a.tag, a.v, a.n);
    if FieldIs(d, p, a.tag, a.v, a.n) {
      TypedIsShown(d, p, a);
    }
  }

  /** What a field adds to those before it. */
  lemma ShownIsKept(d: seq<byte>, a: At, before: seq<Field>, seqNum: nat)
    requires a.v < a.n <= |d|
    ensures FixTagType(a.tag).ChecksumType? <==> a.tag == 10
    ensures KeptAfter(Shown(d, a), before) == before + if a.tag == 34 then [] else [Shown(d, a)]
    ensures NumberAfter(Shown(d, a), seqNum) == if a.tag == 34 then Unsigned(d, a.v) else seqNum
    ensures Shown(d, a).tag == a.tag
  {
    assert before + [] == before;
  }

  lemma MinusEnds(d: seq<byte>, p: nat, a: At)
    requires FieldIs(d, p, a.tag, a.v, a.n) && d[a.v] == MINUS
    ensures a.v + 1 <= |d| && ReadNat(d, a.v + 1, 0).1 < |d|
  {
    ReadStops(d, a.v + 1, 0);
    var k := ReadNat(d, a.v + 1, 0).1;
    assert a.n <= k ==> IsDigit(d[a.v + 1..k][a.n - 1 - (a.v + 1)]);
  }

  /** The fields of a message: the sequence number is kept apart. */
  function KeptOf(d: seq<byte>, p: nat, fs: seq<At>, end: nat): seq<Field>
    requires FieldsAre(d, p, fs, end)
    decreases |fs|
  {
    if fs == [] then []
    else (if fs[0].tag == 34 then [] else [Shown(d, fs[0])]) + KeptOf(d, fs[0].n, fs[1..], end)
  }

  function SeqNumOf(d: seq<byte>, p: nat, fs: seq<At>, end: nat, seqNum: nat): nat
    requires FieldsAre(d, p, fs, end)
    decreases |fs|
  {
    if fs == [] then seqNum
    else SeqNumOf(d, fs[0].n, fs[1..], end, if fs[0].tag == 34 then Unsigned(d, fs[0].v) else seqNum)
  }

  /** Behind the type rest_of_message returns all fields up to the first CheckSum in order, each as its tag says,
      with the last sequence number. */
  lemma {:induction false} FieldsAreReturned(d: seq<byte>, p: nat, fs: seq<At>, end: nat, before: seq<Field>,
                                             seqNum: nat)
    requires p <= |d| && FieldsAre(d, p, fs, end)
    ensures RestAt(d, p, before, seqNum) == Rest(before + KeptOf(d, p, fs, end), SeqNumOf(d, p, fs, end, seqNum), end)
    decreases |fs|
  {
    hide Shown, FixTagType, KeptAfter, NumberAfter, ReadFieldAt, Unsigned;
    assert RestAt(d, p, before, seqNum) == RestRound(d, p, before, seqNum);
    if fs == [] {
      var v: nat :| FieldIs(d, p, 10, v, end);
      ShownExactly(d, p, At(10, v, end));
      ShownIsKept(d, At(10, v, end), before, seqNum);
      assert before + [] == before;
    } else {
      var f := Shown(d, fs[0]);
      ShownExactly(d, p, fs[0]);
      ShownIsKept(d, fs[0], before, seqNum);
      FieldsAreReturned(d, fs[0].n, fs[1..], end, KeptAfter(f, before), NumberAfter(f, seqNum));
      var one := if fs[0].tag == 34 then [] else [f];
      assert before + (one + KeptOf(d, fs[0].n, fs[1..], end)) == before + one + KeptOf(d, fs[0].n, fs[1..], end);
    }
  }

  /** If they do not stand there it returns none of them. */
  lemma {:induction false} BrokenFieldsAreLost(d: seq<byte>, p: nat, before: seq<Field>, seqNum: nat)
    requires p <= |d| && forall fs, end: nat :: !FieldsAre(d, p, fs, end)
    ensures RestAt(d, p, before, seqNum).fields == []
    decreases |d| - p
  {
    hide Shown, FixTagType, KeptAfter, NumberAfter, TypedValue;
    assert RestAt(d, p, before, seqNum) == RestRound(d, p, before, seqNum);
    var r := AnyFieldAt(d, p);
    if r.Done? {
      var a := At(r.value.0, r.value.1, r.next);
      AnyFieldExactly(d, p, a.tag, a.v, a.n);
      ShownExactly(d, p, a);
      ShownIsKept(d, a, before, seqNum);
      assert FieldIs(d, p, a.tag, a.v, a.n);
      assert a.tag == 10 ==> FieldsAre(d, p, [], a.n);
      forall fs, end: nat ensures !FieldsAre(d, a.n, fs, end) {
        assert ([a] + fs)[0] == a && ([a] + fs)[1..] == fs;
        assert !FieldsAre(d, p, [a] + fs, end);
      }
      assert RestAt(d, p, before, seqNum)
          == RestAt(d, a.n, KeptAfter(Shown(d, a), before), NumberAfter(Shown(d, a), seqNum));
      BrokenFieldsAreLost(d, a.n, KeptAfter(Shown(d, a), before), NumberAfter(Shown(d, a), seqNum));
    }
  }
}
