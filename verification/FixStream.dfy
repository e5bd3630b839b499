/** A stream of messages, cut anywhere: fix_message_parse reads the whole ones and leaves the cursor where the
    incomplete one starts. */
module FixStream {
  import opened Digits
  import opened ByteBuffer
  import opened FixWire
  import opened FixParse
  import opened FixRoundTrip

  // ----- a message cut short --------------------------------------------------------------

  /** The bytes end inside the text `s` that starts at `p`. */
  ghost predicate CutAt(d: seq<byte>, p: nat, s: seq<byte>) {
    p <= |d| < p + |s| && forall i {:trigger s[i]} | 0 <= i < |d| - p :: d[p + i] == s[i]
  }

  lemma CutParts(d: seq<byte>, p: nat, s: seq<byte>, t: seq<byte>)
    requires CutAt(d, p, s + t)
    ensures CutAt(d, p, s) || (TextAt(d, p, s) && CutAt(d, p + |s|, t))
  {
    var u := s + t;
    if |d| < p + |s| {
      assert forall i | 0 <= i < |d| - p :: u[i] == s[i];
    } else {
      assert forall i | 0 <= i < |s| :: u[i] == s[i];
      assert forall i | 0 <= i < |t| :: u[|s| + i] == t[i];
    }
  }

  lemma {:induction false} NotFound(d: seq<byte>, p: nat, c: byte)
    requires p <= |d| && forall i | p <= i < |d| :: d[i] != c
    ensures FindFrom(d, p, c) == |d|
    decreases |d| - p
  {
    if p < |d| {
      NotFound(d, p + 1, c);
    }
  }

  lemma CutTag(d: seq<byte>, p: nat, tag: nat)
    requires CutAt(d, p, Numeral(tag) + [EQUALS])
    ensures TagAt(d, p) == Partial(|d|)
  {
    var s := Numeral(tag);
    var u := s + [EQUALS];
    forall i | p <= i < |d| ensures d[i] != EQUALS {
      assert d[p + (i - p)] == u[i - p] == s[i - p];
    }
    NotFound(d, p, EQUALS);
  }

  lemma CutValue(d: seq<byte>, v: nat, s: seq<byte>)
    requires CutAt(d, v, s + [SOH]) && SOH !in s
    ensures ValueAt(d, v) == Partial(|d|)
  {
    var u := s + [SOH];
    forall i | v <= i < |d| ensures d[i] != SOH {
      assert d[v + (i - v)] == u[i - v] == s[i - v];
    }
    NotFound(d, v, SOH);
  }

  lemma CutField(d: seq<byte>, p: nat, tag: nat, s: seq<byte>, text: seq<byte>)
    requires text == FieldBytes(Field(tag, Text(s)), 0) && CutAt(d, p, text) && SOH !in s && tag > 0
    ensures FieldAt(d, p, tag).Partial?
  {
    var front := Numeral(tag) + [EQUALS];
    FieldText(Numeral(tag), [EQUALS], s, [SOH]);
    CutParts(d, p, front, s + [SOH]);
    if CutAt(d, p, front) {
      CutTag(d, p, tag);
    } else {
      ReadsTag(d, p, tag);
      CutValue(d, p + |front|, s);
    }
  }

  lemma CutFirst(d: seq<byte>, p: nat)
    requires p <= |d| && FieldAt(d, p, BEGIN_STRING).Partial?
    ensures ThreeAt(d, p).Partial?
  {
  }

  lemma CutSecond(d: seq<byte>, p: nat, begin: seq<byte>, n: nat)
    requires Stands(d, p, BEGIN_STRING, begin, n) && FieldAt(d, n, BODY_LENGTH).Partial?
    ensures ThreeAt(d, p).Partial?
  {
  }

  lemma CutThird(d: seq<byte>, p: nat, begin: seq<byte>, n: nat, length: seq<byte>, q: nat)
    requires Stands(d, p, BEGIN_STRING, begin, n) && Stands(d, n, BODY_LENGTH, length, q)
    requires AllDigits(length) && length != [] && 0 < Digits.Value(length) <= MAX_MESSAGE_SIZE
    requires FieldAt(d, q, MSG_TYPE).Partial?
    ensures ThreeAt(d, p).Partial?
  {
    ReadsLength(d, n, length, q);
  }

  lemma CutHead(d: seq<byte>, p: nat, flags: Flags, seqNum: nat)
    requires p <= |d| && ThreeAt(d, p).Partial?
    ensures MessageAt(d, p, flags, seqNum).Partial?
  {
  }

  lemma CutBody(d: seq<byte>, p: nat, h: Head, r: nat, flags: Flags, seqNum: nat)
    requires p < |d| && ThreeAt(d, p) == Done(h, r) && h.msgType < r && !TypeOf(d[h.msgType..r - 1]).Unknown?
    requires |d| - (h.msgType - 3) < h.bodyLength + 7
    ensures MessageAt(d, p, flags, seqNum).Partial?
  {
  }

  lemma FrontFields(m: Sealed) returns (a: seq<byte>, b: seq<byte>, tail: seq<byte>)
    ensures a == FieldBytes(Field(BEGIN_STRING, Text(m.begin)), 0)
    ensures b == FieldBytes(Field(BODY_LENGTH, Text(m.length)), 0)
    ensures Bytes(m) == a + (b + (TypeField(m) + tail)) && |tail| == |ItemBytes(m.items)| + 7
  {
    a, b := FieldBytes(Field(BEGIN_STRING, Text(m.begin)), 0), FieldBytes(Field(BODY_LENGTH, Text(m.length)), 0);
    tail := ItemBytes(m.items) + Trailer(Sum8(Front(m)));
    TrailerWidth(Sum8(Front(m)));
    Regroup(a, b, TypeField(m), ItemBytes(m.items), Trailer(Sum8(Front(m))));
  }

  lemma Regroup(a: seq<byte>, b: seq<byte>, c: seq<byte>, e: seq<byte>, f: seq<byte>)
    ensures a + b + (c + e) + f == a + (b + (c + (e + f)))
  {
  }

  /** Until its last byte is there, a message is incomplete, and nothing else. */
  lemma CutMessage(d: seq<byte>, p: nat, m: Sealed, flags: Flags, seqNum: nat)
    requires CutAt(d, p, Bytes(m)) && Acceptable(m)
    ensures MessageAt(d, p, flags, seqNum).Partial?
  {
    var a, b, tail := FrontFields(m);
    CutParts(d, p, a, b + (TypeField(m) + tail));
    if CutAt(d, p, a) {
      CutField(d, p, BEGIN_STRING, m.begin, a);
      CutFirst(d, p);
      CutHead(d, p, flags, seqNum);
    } else {
      NamedFieldStands(d, p, BEGIN_STRING, m.begin, a);
      CutFromLength(d, p, m, a, b, tail, flags, seqNum);
    }
  }

  lemma CutFromLength(d: seq<byte>, p: nat, m: Sealed, a: seq<byte>, b: seq<byte>, tail: seq<byte>, flags: Flags,
                      seqNum: nat)
    requires Stands(d, p, BEGIN_STRING, m.begin, p + |a|) && b == FieldBytes(Field(BODY_LENGTH, Text(m.length)), 0)
    requires CutAt(d, p + |a|, b + (TypeField(m) + tail)) && Acceptable(m) && |tail| == |ItemBytes(m.items)| + 7
    ensures MessageAt(d, p, flags, seqNum).Partial?
  {
    var n := p + |a|;
    DigitsArePlain(m.length);
    CutParts(d, n, b, TypeField(m) + tail);
    if CutAt(d, n, b) {
      CutField(d, n, BODY_LENGTH, m.length, b);
      CutSecond(d, p, m.begin, n);
      CutHead(d, p, flags, seqNum);
    } else {
      NamedFieldStands(d, n, BODY_LENGTH, m.length, b);
      CutFromType(d, p, m, n, n + |b|, TypeField(m), tail, flags, seqNum);
    }
  }

  lemma CutFromType(d: seq<byte>, p: nat, m: Sealed, n: nat, q: nat, c: seq<byte>, tail: seq<byte>, flags: Flags,
                    seqNum: nat)
    requires Stands(d, p, BEGIN_STRING, m.begin, n) && Stands(d, n, BODY_LENGTH, m.length, q) && c == TypeField(m)
    requires CutAt(d, q, c + tail) && Acceptable(m) && |tail| == |ItemBytes(m.items)| + 7
    ensures MessageAt(d, p, flags, seqNum).Partial?
  {
    CutParts(d, q, c, tail);
    if CutAt(d, q, c) {
      CutField(d, q, MSG_TYPE, m.typeText, c);
      CutThird(d, p, m.begin, n, m.length, q);
      CutHead(d, p, flags, seqNum);
    } else {
      NamedFieldStands(d, q, MSG_TYPE, m.typeText, c);
      var r := q + |c|;
      ReadsThree(d, p, m.begin, m.length, m.typeText, n, q, r);
      CutBody(d, p, Head(p + 2, Digits.Value(m.length), q + 3), r, flags, seqNum);
    }
  }

  // ----- a stream -------------------------------------------------------------------------

  /** All the messages that can be read, and where the reading stops for want of bytes. */
  function ParseAll(d: seq<byte>, p: nat, flags: Flags, seqNum: nat): (r: (seq<Parsed>, nat))
    requires p <= |d|
    ensures p <= r.1 <= |d|
    decreases |d| - p, 1
  {
    ParseNext(d, p, flags, seqNum)
  }

  function ParseNext(d: seq<byte>, p: nat, flags: Flags, seqNum: nat): (r: (seq<Parsed>, nat))
    requires p <= |d|
    ensures p <= r.1 <= |d|
    decreases |d| - p, 0
  {
    var r := ParseFrom(d, p, flags, seqNum);
    if r.Done? then
      var rest := ParseAll(d, r.next, flags, r.value.seqNum);
      ([r.value] + rest.0, rest.1)
    else ([], r.next)
  }

  function StreamBytes(ms: seq<Sealed>): seq<byte>
    decreases |ms|, 1
  {
    if ms == [] then [] else FirstBytes(ms)
  }

  function FirstBytes(ms: seq<Sealed>): seq<byte>
    requires ms != []
    decreases |ms|, 0
  {
    Bytes(ms[0]) + StreamBytes(ms[1..])
  }

  ghost predicate AllAcceptable(ms: seq<Sealed>)
    decreases |ms|, 1
  {
    ms == [] || FirstAcceptable(ms)
  }

  ghost predicate FirstAcceptable(ms: seq<Sealed>)
    requires ms != []
    decreases |ms|, 0
  {
    Acceptable(ms[0]) && |Kept(ms[0].items)| <= MAX_FIELDS && AllAcceptable(ms[1..])
  }

  /** The messages of a stream as they are read, each where it stands. */
  function ReadBackAll(ms: seq<Sealed>, p: nat, flags: Flags, seqNum: nat): seq<Parsed>
    decreases |ms|, 1
  {
    if ms == [] then [] else ReadBackFirst(ms, p, flags, seqNum)
  }

  function ReadBackFirst(ms: seq<Sealed>, p: nat, flags: Flags, seqNum: nat): seq<Parsed>
    requires ms != []
    decreases |ms|, 0
  {
    var m := ReadBack(ms[0], p, flags, seqNum);
    [m] + ReadBackAll(ms[1..], p + |Bytes(ms[0])|, flags, m.seqNum)
  }

  lemma ParsesHere(d: seq<byte>, p: nat, flags: Flags, seqNum: nat)
    requires p <= |d|
    ensures MessageAt(d, p, flags, seqNum).Done? ==> ParseFrom(d, p, flags, seqNum) == MessageAt(d, p, flags, seqNum)
    ensures MessageAt(d, p, flags, seqNum).Partial? ==> ParseFrom(d, p, flags, seqNum) == Partial(p)
  {
    assert ParseFrom(d, p, flags, seqNum) == ParseRound(d, p, flags, seqNum);
  }

  /** Reading on behind a message. */
  ghost predicate Follows(d: seq<byte>, p: nat, n: nat, r: Parsed, flags: Flags, seqNum: nat) {
    && p <= |d| && n <= |d|
    && ParseAll(d, p, flags, seqNum).0 == [r] + ParseAll(d, n, flags, r.seqNum).0
    && ParseAll(d, p, flags, seqNum).1 == ParseAll(d, n, flags, r.seqNum).1
  }

  ghost predicate ParsesTo(d: seq<byte>, p: nat, flags: Flags, seqNum: nat, r: Parsed, n: nat) {
    p <= |d| && n <= |d| && ParseFrom(d, p, flags, seqNum) == Done(r, n)
  }

  lemma FollowsDone(d: seq<byte>, p: nat, n: nat, r: Parsed, flags: Flags, seqNum: nat)
    ensures ParsesTo(d, p, flags, seqNum, r, n) ==> Follows(d, p, n, r, flags, seqNum)
  {
    if ParsesTo(d, p, flags, seqNum, r, n) {
      assert ParseNext(d, p, flags, seqNum) == ParseAll(d, p, flags, seqNum);
    }
  }

  lemma ParsesDone(d: seq<byte>, p: nat, r: Parsed, n: nat, flags: Flags, seqNum: nat)
    requires p <= |d| && n <= |d| && MessageAt(d, p, flags, seqNum) == Done(r, n)
    ensures ParsesTo(d, p, flags, seqNum, r, n)
  {
    ParsesHere(d, p, flags, seqNum);
  }

  /** fix_message_parse reads back what was written. */
  lemma ReadsWhole(d: seq<byte>, p: nat, m: Sealed, flags: Flags, seqNum: nat)
    requires TextAt(d, p, Bytes(m)) && Acceptable(m)
    ensures ParsesTo(d, p, flags, seqNum, ReadBack(m, p, flags, seqNum), p + |Bytes(m)|)
  {
    ReadsMessage(d, p, m, flags, seqNum);
    ParsesDone(d, p, ReadBack(m, p, flags, seqNum), p + |Bytes(m)|, flags, seqNum);
  }

  lemma ReadsNext(d: seq<byte>, p: nat, m: Sealed, flags: Flags, seqNum: nat)
    requires TextAt(d, p, Bytes(m)) && Acceptable(m)
    ensures Follows(d, p, p + |Bytes(m)|, ReadBack(m, p, flags, seqNum), flags, seqNum)
  {
    ReadsWhole(d, p, m, flags, seqNum);
    FollowsDone(d, p, p + |Bytes(m)|, ReadBack(m, p, flags, seqNum), flags, seqNum);
  }

  lemma StopsAt(d: seq<byte>, p: nat, flags: Flags, seqNum: nat)
    requires p <= |d| && MessageAt(d, p, flags, seqNum).Partial?
    ensures ParseAll(d, p, flags, seqNum) == ([], p)
  {
    ParsesHere(d, p, flags, seqNum);
    assert ParseNext(d, p, flags, seqNum) == ([], p);
  }

  /** The messages read in one go are those read from a first part of the bytes, followed by those read on from
      where that stopped once the rest has arrived. */
  ghost predicate ResumesAt(d: seq<byte>, k: nat, p: nat, flags: Flags, seqNum: nat)
    requires p <= k <= |d|
  {
    var first := ParseAll(d[..k], p, flags, seqNum);
    var rest := ParseAll(d, first.1, flags, NumberAfterAll(first.0, seqNum));
    first.0 + rest.0 == ParseAll(d, p, flags, seqNum).0 && rest.1 == ParseAll(d, p, flags, seqNum).1
  }

  function NumberAfterAll(ms: seq<Parsed>, seqNum: nat): nat {
    if ms == [] then seqNum else ms[|ms| - 1].seqNum
  }

  lemma StreamStep(d: seq<byte>, p: nat, ms: seq<Sealed>)
    requires ms != [] && TextAt(d, p, StreamBytes(ms)) && AllAcceptable(ms)
    ensures var n := p + |Bytes(ms[0])|;
      && TextAt(d, p, Bytes(ms[0])) && TextAt(d, n, StreamBytes(ms[1..]))
      && n + |StreamBytes(ms[1..])| == p + |StreamBytes(ms)|
    ensures Acceptable(ms[0]) && AllAcceptable(ms[1..])
  {
    assert FirstAcceptable(ms);
    assert FirstBytes(ms) == Bytes(ms[0]) + StreamBytes(ms[1..]);
    TextAtParts(d, p, Bytes(ms[0]), StreamBytes(ms[1..]));
  }

  /** The first message of a stream is read, and the others stand where it ends. */
  lemma StreamFirst(d: seq<byte>, p: nat, ms: seq<Sealed>, flags: Flags, seqNum: nat) returns (n: nat, r: Parsed)
    requires ms != [] && TextAt(d, p, StreamBytes(ms)) && AllAcceptable(ms)
    ensures Follows(d, p, n, r, flags, seqNum)
    ensures TextAt(d, n, StreamBytes(ms[1..])) && n + |StreamBytes(ms[1..])| == p + |StreamBytes(ms)|
    ensures AllAcceptable(ms[1..])
    ensures ReadBackAll(ms, p, flags, seqNum) == [r] + ReadBackAll(ms[1..], n, flags, r.seqNum)
  {
    n, r := p + |Bytes(ms[0])|, ReadBack(ms[0], p, flags, seqNum);
    StreamStep(d, p, ms);
    ReadsNext(d, p, ms[0], flags, seqNum);
    assert ReadBackFirst(ms, p, flags, seqNum) == [r] + ReadBackAll(ms[1..], n, flags, r.seqNum);
  }

  /** A stream of messages is read message by message, to its end. */
  lemma {:induction false} StreamIsRead(d: seq<byte>, p: nat, ms: seq<Sealed>, flags: Flags, seqNum: nat)
    requires TextAt(d, p, StreamBytes(ms)) && p + |StreamBytes(ms)| == |d| && AllAcceptable(ms)
    ensures ParseAll(d, p, flags, seqNum) == (ReadBackAll(ms, p, flags, seqNum), |d|)
    decreases |ms|
  {
    if ms == [] {
      StopsAt(d, p, flags, seqNum);
    } else {
      var n, r := StreamFirst(d, p, ms, flags, seqNum);
      StreamIsRead(d, n, ms[1..], flags, r.seqNum);
    }
  }

  lemma PrefixHolds(d: seq<byte>, k: nat, p: nat, s: seq<byte>)
    requires p <= k <= |d| && TextAt(d, p, s)
    ensures if p + |s| <= k then TextAt(d[..k], p, s) else CutAt(d[..k], p, s)
  {
  }

  /** In a prefix the first message is either read as well, or incomplete. */
  lemma StreamFirstCut(d: seq<byte>, k: nat, p: nat, ms: seq<Sealed>, flags: Flags, seqNum: nat)
      returns (n: nat, r: Parsed)
    requires ms != [] && TextAt(d, p, StreamBytes(ms)) && AllAcceptable(ms) && p <= k <= |d|
    ensures Follows(d, p, n, r, flags, seqNum)
    ensures if n <= k then Follows(d[..k], p, n, r, flags, seqNum) else ParseAll(d[..k], p, flags, seqNum) == ([], p)
    ensures p <= n && TextAt(d, n, StreamBytes(ms[1..])) && n + |StreamBytes(ms[1..])| == p + |StreamBytes(ms)|
    ensures AllAcceptable(ms[1..])
  {
    hide Follows, AllAcceptable;
    n, r := p + |Bytes(ms[0])|, ReadBack(ms[0], p, flags, seqNum);
    StreamStep(d, p, ms);
    ReadsNext(d, p, ms[0], flags, seqNum);
    PrefixHolds(d, k, p, Bytes(ms[0]));
    if n <= k {
      ReadsNext(d[..k], p, ms[0], flags, seqNum);
    } else {
      CutMessage(d[..k], p, ms[0], flags, seqNum);
      StopsAt(d[..k], p, flags, seqNum);
    }
  }

  /** A stream cut anywhere is read as if it had not been. */
  lemma {:induction false} StreamResumes(d: seq<byte>, k: nat, p: nat, ms: seq<Sealed>, flags: Flags, seqNum: nat)
    requires TextAt(d, p, StreamBytes(ms)) && p + |StreamBytes(ms)| == |d| && AllAcceptable(ms) && p <= k <= |d|
    ensures ResumesAt(d, k, p, flags, seqNum)
    decreases |ms|
  {
    if ms == [] {
      assert d[..k] == d;
      StopsAt(d, p, flags, seqNum);
    } else {
      var n, r := StreamFirstCut(d, k, p, ms, flags, seqNum);
      if n <= k {
        StreamResumes(d, k, n, ms[1..], flags, r.seqNum);
        ResumesStep(d, k, p, n, r, flags, seqNum);
      }
    }
  }

  lemma ResumesStep(d: seq<byte>, k: nat, p: nat, n: nat, r: Parsed, flags: Flags, seqNum: nat)
    requires p <= n <= k <= |d| && ResumesAt(d, k, n, flags, r.seqNum)
    requires Follows(d, p, n, r, flags, seqNum) && Follows(d[..k], p, n, r, flags, seqNum)
    ensures ResumesAt(d, k, p, flags, seqNum)
  {
    var tail := ParseAll(d[..k], n, flags, r.seqNum);
    var rest := ParseAll(d, tail.1, flags, NumberAfterAll(tail.0, r.seqNum));
    assert NumberAfterAll([r] + tail.0, seqNum) == NumberAfterAll(tail.0, r.seqNum);
    assert [r] + tail.0 + rest.0 == [r] + (tail.0 + rest.0);
  }
}
