/** Where fix_message_parse of lib/proto/fix_message.c goes on after bytes that are no message, and which bytes before a
    message do not hide it. */
module FixResync {
  import opened Digits
  import opened ByteBuffer
  import opened FixWire
  import opened FixParse
  import opened FixRoundTrip
  import A = FixAccept

  // ----- behind a field -------------------------------------------------------------------

  /** The first `c` from `s` on is at `e`. */
  ghost predicate FirstAt(d: seq<byte>, s: nat, c: byte, e: nat) {
    s <= e < |d| && d[e] == c && c !in d[s..e]
  }

  /** `n` is behind the first delimiter after `e`, or at the end of the bytes if there is none. */
  ghost predicate Behind(d: seq<byte>, e: nat, n: nat) {
    e < n <= |d| && SOH !in d[e..n - 1] && (d[n - 1] == SOH || n == |d|)
  }

  /** From `s` on there is an equals sign, and `n` is behind the first delimiter after it. */
  ghost predicate SkipsTo(d: seq<byte>, s: nat, n: nat) {
    exists e: nat :: FirstAt(d, s, EQUALS, e) && Behind(d, e, n)
  }

  lemma FoundFirst(d: seq<byte>, s: nat, c: byte)
    requires s <= |d|
    ensures FindFrom(d, s, c) < |d| ==> FirstAt(d, s, c, FindFrom(d, s, c))
    ensures FindFrom(d, s, c) == |d| ==> c !in d[s..]
  {
    FindStops(d, s, c);
    A.NotBefore(d, s, c);
    assert d[s..|d|] == d[s..];
  }

  lemma AfterIsBehind(d: seq<byte>, e: nat, x: nat)
    requires e < |d| && d[e] != SOH && e <= x <= e + 1
    ensures Behind(d, e, AfterDelimiter(d, x))
  {
    FoundFirst(d, x, SOH);
    var q := FindFrom(d, x, SOH);
    assert q == |d| ==> d[x..] == d[x..|d|];
    assert d[e..q] == if x == e then d[x..q] else [d[e]] + d[x..q];
  }

  lemma FieldEndsBehind(d: seq<byte>, s: nat, tag: nat, v: nat, n: nat)
    requires A.FieldIs(d, s, tag, v, n)
    ensures SkipsTo(d, s, n)
  {
    assert d[v - 1..n - 1] == [EQUALS] + d[v..n - 1];
    assert FirstAt(d, s, EQUALS, v - 1);
    assert Behind(d, v - 1, n);
  }

  /** match_field: whether the field is another one or none at all, reading goes on behind it. */
  lemma FieldSkips(d: seq<byte>, s: nat, tag: nat)
    requires s <= |d| && tag > 0 && FieldAt(d, s, tag).Garbled?
    ensures SkipsTo(d, s, FieldAt(d, s, tag).next)
    ensures !exists v: nat, n: nat :: A.FieldIs(d, s, tag, v, n)
  {
    FoundFirst(d, s, EQUALS);
    var e := FindFrom(d, s, EQUALS);
    AfterIsBehind(d, e, if TagAt(d, s).Done? then e + 1 else e);
    forall v: nat, n: nat ensures !A.FieldIs(d, s, tag, v, n) {
      A.FieldExactly(d, s, tag, v, n);
    }
  }

  // ----- where a candidate fails ----------------------------------------------------------

  /** The field from `s` on is the first that is not as a message has it. */
  ghost predicate FailsAt(d: seq<byte>, p: nat, s: nat, flags: Flags) {
    || (s == p && !exists b: nat, n: nat :: A.FieldIs(d, p, 8, b, n))
    || exists b: nat, n: nat :: A.FieldIs(d, p, 8, b, n) && FailsBehindFirst(d, b, n, s, flags)
  }

  ghost predicate FailsBehindFirst(d: seq<byte>, b: nat, n1: nat, s: nat, flags: Flags) {
    || (s == n1 && !exists len: nat, n: nat :: LengthIs(d, n1, len, n))
    || exists len: nat, n: nat :: LengthIs(d, n1, len, n) && FailsBehindSecond(d, b, n, len, s, flags)
  }

  ghost predicate LengthIs(d: seq<byte>, p: nat, len: nat, n: nat) {
    1 <= len <= 1280 && exists v: nat :: A.FieldIs(d, p, 9, v, n) && A.Begins(d, v, len)
  }

  ghost predicate FailsBehindSecond(d: seq<byte>, b: nat, n2: nat, len: nat, s: nat, flags: Flags) {
    || (s == n2 && !exists v: nat, n: nat :: TypeIs(d, n2, v, n, flags.noType))
    || exists v: nat, n: nat :: TypeIs(d, n2, v, n, flags.noType) && WrongSum(d, b, v, len, s, flags.noCsum)
  }

  ghost predicate TypeIs(d: seq<byte>, p: nat, v: nat, n: nat, noType: bool) {
    A.FieldIs(d, p, 35, v, n) && (noType || A.KnownType(d[v..n - 1]))
  }

  /** Where BodyLength points no CheckSum field states the sum of what is before it. */
  ghost predicate WrongSum(d: seq<byte>, b: nat, v: nat, len: nat, s: nat, noCsum: bool) {
    2 <= b && 3 <= v && s == v - 3 + len && !noCsum && !A.SumStated(d, b - 2, s)
  }

  ghost predicate FailsBehind(d: seq<byte>, p: nat, n: nat, flags: Flags) {
    exists s: nat :: FailsAt(d, p, s, flags) && SkipsTo(d, s, n)
  }

  lemma LengthSkips(d: seq<byte>, p: nat)
    requires p <= |d| && LengthAt(d, p).Garbled?
    ensures SkipsTo(d, p, LengthAt(d, p).next) && !exists len: nat, n: nat :: LengthIs(d, p, len, n)
  {
    hide FieldAt, ReadNat;
    var r := FieldAt(d, p, BODY_LENGTH);
    if r.Garbled? {
      FieldSkips(d, p, BODY_LENGTH);
    } else {
      A.FieldExactly(d, p, 9, r.value, r.next);
      FieldEndsBehind(d, p, 9, r.value, r.next);
    }
    forall len: nat, n: nat ensures !LengthIs(d, p, len, n) {
      A.LengthExactly(d, p, len, n);
    }
  }

  lemma SumSkips(d: seq<byte>, h: Head, p: nat, noCsum: bool)
    requires 2 <= h.beginString && h.beginString + 3 <= h.msgType < p <= |d|
    requires SumAt(d, h, p, noCsum).Garbled?
    ensures var s := h.msgType - 3 + h.bodyLength;
      WrongSum(d, h.beginString, h.msgType, h.bodyLength, s, noCsum) && SkipsTo(d, s, SumAt(d, h, p, noCsum).next)
  {
    hide FieldAt, ReadNat, Sum8;
    var s := h.msgType - 3 + h.bodyLength;
    A.TrailerExactly(d, h, s);
    var r := FieldAt(d, s, CHECK_SUM);
    if r.Garbled? {
      FieldSkips(d, s, CHECK_SUM);
    } else if r.Done? {
      A.FieldExactly(d, s, 10, r.value, r.next);
      FieldEndsBehind(d, s, 10, r.value, r.next);
    }
  }

  /** A candidate is garbled because of a field that is not as a message has it, and reading goes on behind the first
      delimiter after that field's equals sign: no other byte is skipped. */
  lemma GarbledSkips(d: seq<byte>, p: nat, flags: Flags, seqNum: nat)
    requires p <= |d| && MessageAt(d, p, flags, seqNum).Garbled?
    ensures FailsBehind(d, p, MessageAt(d, p, flags, seqNum).next, flags)
  {
    hide FieldAt, LengthAt, SumAt, RestAt, TypeOf, SkipsTo, WrongSum, FailsAt;
    var n := MessageAt(d, p, flags, seqNum).next;
    var first := FieldAt(d, p, BEGIN_STRING);
    if first.Garbled? {
      FieldSkips(d, p, BEGIN_STRING);
      FirstFails(d, p, flags);
    } else {
      A.FieldExactly(d, p, 8, first.value, first.next);
      var s := BodyGarbled(d, p, first.value, first.next, flags, seqNum);
      BehindFirst(d, p, first.value, first.next, s, flags);
    }
  }

  lemma FirstFails(d: seq<byte>, p: nat, flags: Flags)
    requires !exists b: nat, n: nat :: A.FieldIs(d, p, 8, b, n)
    ensures FailsAt(d, p, p, flags)
  {
  }

  lemma BehindFirst(d: seq<byte>, p: nat, b: nat, n: nat, s: nat, flags: Flags)
    requires A.FieldIs(d, p, 8, b, n) && FailsBehindFirst(d, b, n, s, flags)
    ensures FailsAt(d, p, s, flags)
  {
  }

  lemma BehindSecond(d: seq<byte>, b: nat, n1: nat, len: nat, n: nat, s: nat, flags: Flags)
    requires LengthIs(d, n1, len, n) && FailsBehindSecond(d, b, n, len, s, flags)
    ensures FailsBehindFirst(d, b, n1, s, flags)
  {
  }

  lemma BodyGarbled(d: seq<byte>, p: nat, b: nat, n1: nat, flags: Flags, seqNum: nat) returns (s: nat)
    requires p < |d| && FieldAt(d, p, BEGIN_STRING) == Done(b, n1) && MessageAt(d, p, flags, seqNum).Garbled?
    ensures FailsBehindFirst(d, b, n1, s, flags) && SkipsTo(d, s, MessageAt(d, p, flags, seqNum).next)
  {
    hide FieldAt, LengthAt, SumAt, RestAt, TypeOf, SkipsTo, WrongSum, FailsBehindSecond;
    var second := LengthAt(d, n1);
    if second.Garbled? {
      LengthSkips(d, n1);
      s := n1;
    } else {
      A.LengthExactly(d, n1, second.value, second.next);
      s := TypeGarbled(d, p, b, n1, second.value, second.next, flags, seqNum);
      BehindSecond(d, b, n1, second.value, second.next, s, flags);
    }
  }

  lemma TypeDecides(d: seq<byte>, p: nat, v: nat, n: nat, noType: bool)
    requires p <= |d| && FieldAt(d, p, MSG_TYPE) == Done(v, n)
    ensures A.FieldIs(d, p, 35, v, n) && v < n <= |d| && d[n - 1] == SOH
    ensures TypeIs(d, p, v, n, noType) <==> noType || !TypeOf(d[v..n - 1]).Unknown?
    ensures forall v': nat, n': nat | TypeIs(d, p, v', n', noType) :: v' == v && n' == n
  {
    A.FieldExactly(d, p, 35, v, n);
    A.TypeExactly(d[v..n - 1]);
    hide FieldAt, A.FieldIs, TypeOf;
    forall v': nat, n': nat | TypeIs(d, p, v', n', noType) ensures v' == v && n' == n {
      A.FieldExactly(d, p, 35, v', n');
    }
  }

  lemma TypeGarbled(d: seq<byte>, p: nat, b: nat, n1: nat, len: nat, n2: nat, flags: Flags, seqNum: nat)
    returns (s: nat)
    requires p < |d| && FieldAt(d, p, BEGIN_STRING) == Done(b, n1) && n1 <= |d| && LengthAt(d, n1) == Done(len, n2)
    requires MessageAt(d, p, flags, seqNum).Garbled?
    ensures FailsBehindSecond(d, b, n2, len, s, flags) && SkipsTo(d, s, MessageAt(d, p, flags, seqNum).next)
  {
    hide FieldAt, LengthAt, SumAt, RestAt, TypeOf, SkipsTo, WrongSum;
    var third := FieldAt(d, n2, MSG_TYPE);
    if third.Garbled? {
      FieldSkips(d, n2, MSG_TYPE);
      s := n2;
    } else {
      var v, n := third.value, third.next;
      TypeDecides(d, n2, v, n, flags.noType);
      if !flags.noType && TypeOf(d[v..n - 1]).Unknown? {
        FieldEndsBehind(d, n2, 35, v, n);
        s := n2;
      } else {
        SumSkips(d, Head(b, len, v), n, flags.noCsum);
        s := v - 3 + len;
      }
    }
  }

  // ----- before a message -----------------------------------------------------------------

  /** Text with an equals sign and a delimiter behind it. */
  datatype Piece = Piece(tag: seq<byte>, value: seq<byte>)

  function PieceText(x: Piece): seq<byte> {
    x.tag + [EQUALS] + x.value + [SOH]
  }

  /** No BeginString. */
  predicate Stray(x: Piece) {
    EQUALS !in x.tag && SOH !in x.value && !(AllDigits(x.tag) && Digits.Value(x.tag) == 8)
  }

  function PiecesText(xs: seq<Piece>): seq<byte> {
    if xs == [] then [] else PieceText(xs[0]) + PiecesText(xs[1..])
  }

  /** The parts of a piece where they stand. */
  lemma PieceParts(d: seq<byte>, p: nat, x: Piece)
    requires TextAt(d, p, PieceText(x))
    ensures var e, k := p + |x.tag|, p + |PieceText(x)| - 1;
      && p <= e < k < |d| && d[p..e] == x.tag && d[e] == EQUALS && d[e + 1..k] == x.value && d[k] == SOH
  {
    var s := PieceText(x);
    assert d[p..p + |s|] == s;
    assert s[..|x.tag|] == x.tag && s[|x.tag|] == EQUALS && s[|x.tag| + 1..|s| - 1] == x.value;
  }

  lemma StrayField(d: seq<byte>, p: nat, x: Piece)
    requires TextAt(d, p, PieceText(x)) && Stray(x)
    ensures FieldAt(d, p, BEGIN_STRING) == Garbled(p + |PieceText(x)|)
  {
    PieceParts(d, p, x);
    hide TextAt, PieceText, ReadNat, FindFrom, AllDigits, Digits.Value;
    var e, k := p + |x.tag|, p + |PieceText(x)| - 1;
    A.FoundIs(d, p, e, EQUALS);
    if TagAt(d, p).Done? {
      A.TagExactly(d, p, TagAt(d, p).value, TagAt(d, p).next);
    }
    assert d[e..k] == [EQUALS] + x.value;
    A.FoundIs(d, e, k, SOH);
    A.FoundIs(d, e + 1, k, SOH);
  }

  lemma PieceIsSkipped(d: seq<byte>, p: nat, x: Piece, flags: Flags, seqNum: nat)
    requires TextAt(d, p, PieceText(x)) && Stray(x)
    ensures p + |PieceText(x)| <= |d|
    ensures ParseFrom(d, p, flags, seqNum) == ParseFrom(d, p + |PieceText(x)|, flags, seqNum)
  {
    StrayField(d, p, x);
    hide FieldAt, SumAt, RestAt, PieceText;
    assert MessageAt(d, p, flags, seqNum) == Garbled(p + |PieceText(x)|);
    assert ParseFrom(d, p, flags, seqNum) == ParseRound(d, p, flags, seqNum);
  }

  lemma {:induction false} PiecesAreSkipped(d: seq<byte>, p: nat, xs: seq<Piece>, flags: Flags, seqNum: nat)
    requires TextAt(d, p, PiecesText(xs)) && forall k | 0 <= k < |xs| :: Stray(xs[k])
    ensures p + |PiecesText(xs)| <= |d|
    ensures ParseFrom(d, p, flags, seqNum) == ParseFrom(d, p + |PiecesText(xs)|, flags, seqNum)
    decreases |xs|
  {
    hide ParseFrom, PieceText;
    if xs != [] {
      TextAtParts(d, p, PieceText(xs[0]), PiecesText(xs[1..]));
      PieceIsSkipped(d, p, xs[0], flags, seqNum);
      PiecesAreSkipped(d, p + |PieceText(xs[0])|, xs[1..], flags, seqNum);
    }
  }

  /** A message is found behind any number of pieces that are no BeginString. */
  lemma MessageIsFound(d: seq<byte>, p: nat, xs: seq<Piece>, m: Sealed, flags: Flags, seqNum: nat)
    requires TextAt(d, p, PiecesText(xs) + Bytes(m)) && Acceptable(m) && forall k | 0 <= k < |xs| :: Stray(xs[k])
    ensures var q := p + |PiecesText(xs)|;
      p <= |d| && ParseFrom(d, p, flags, seqNum) == Done(ReadBack(m, q, flags, seqNum), q + |Bytes(m)|)
  {
    hide Bytes, Acceptable, PiecesText, MessageAt, ReadBack;
    var q := p + |PiecesText(xs)|;
    TextAtParts(d, p, PiecesText(xs), Bytes(m));
    PiecesAreSkipped(d, p, xs, flags, seqNum);
    ReadsMessage(d, q, m, flags, seqNum);
    assert ParseFrom(d, q, flags, seqNum) == ParseRound(d, q, flags, seqNum);
  }

  /** The text has no tag of its own, or not that of a BeginString. */
  ghost predicate Plain(t: seq<byte>) {
    SOH !in t && forall e | 0 <= e < |t| && t[e] == EQUALS :: !(AllDigits(t[..e]) && Digits.Value(t[..e]) == 8)
  }

  /** What the parser returns is the message that begins at `q`. */
  ghost predicate Returns(r: Outcome<Parsed>, q: nat) {
    r.Done? && r.value.head.beginString == q + 2
  }

  /** A message is found behind a piece of text exactly if that has an equals sign; without one the text takes the
      BeginString for its own, and the message is lost. */
  lemma TextHidesExactly(d: seq<byte>, p: nat, t: seq<byte>, m: Sealed, flags: Flags, seqNum: nat)
    requires TextAt(d, p, t + [SOH] + Bytes(m)) && Plain(t) && Acceptable(m)
    ensures p <= |d| && (Returns(ParseFrom(d, p, flags, seqNum), p + |t| + 1) <==> EQUALS in t)
  {
    hide Acceptable, MessageAt, Bytes, ParseFrom;
    if EQUALS in t {
      var x := FirstPiece(t);
      assert PiecesText([x]) == PieceText(x) + PiecesText([]);
      assert PiecesText([x]) == t + [SOH];
      MessageIsFound(d, p, [x], m, flags, seqNum);
    } else {
      var x := Piece(t + [SOH] + Numeral(8), m.begin);
      BeginIsText(m);
      var rest := SwallowsHead(t, m, x);
      TextAtParts(d, p, PieceText(x), rest);
      PieceIsSkipped(d, p, x, flags, seqNum);
      LaterIsReturned(d, p + |PieceText(x)|, flags, seqNum);
    }
  }

  lemma BeginIsText(m: Sealed)
    requires Acceptable(m)
    ensures SOH !in m.begin
  {
  }

  lemma FirstPiece(t: seq<byte>) returns (x: Piece)
    requires Plain(t) && EQUALS in t
    ensures PieceText(x) == t + [SOH] && Stray(x)
  {
    var e: nat := FindFrom(t, 0, EQUALS);
    FindStops(t, 0, EQUALS);
    A.NotBefore(t, 0, EQUALS);
    x := Piece(t[..e], t[e + 1..]);
    assert t == t[..e] + [t[e]] + t[e + 1..];
  }

  lemma BytesBegin(m: Sealed) returns (rest: seq<byte>)
    ensures Bytes(m) == FieldBytes(Field(BEGIN_STRING, Text(m.begin)), 0) + rest
  {
    hide FieldBytes, Trailer, ItemBytes, TypeField, Sum8;
    var second := FieldBytes(Field(BODY_LENGTH, Text(m.length)), 0);
    rest := second + (TypeField(m) + ItemBytes(m.items)) + Trailer(Sum8(Front(m)));
  }

  lemma SwallowsHead(t: seq<byte>, m: Sealed, x: Piece) returns (rest: seq<byte>)
    requires EQUALS !in t && x == Piece(t + [SOH] + Numeral(8), m.begin) && SOH !in m.begin
    ensures t + [SOH] + Bytes(m) == PieceText(x) + rest && Stray(x) && |PieceText(x)| > |t| + 1
  {
    hide Bytes, Numeral;
    rest := BytesBegin(m);
    assert PieceText(x) == t + [SOH] + FieldBytes(Field(BEGIN_STRING, Text(m.begin)), 0);
    assert x.tag[|t|] == SOH;
    assert AllDigits(Numeral(8));
  }

  /** Whatever is returned from `p` on begins there or later. */
  lemma LaterIsReturned(d: seq<byte>, p: nat, flags: Flags, seqNum: nat)
    requires p <= |d|
    ensures var r := ParseFrom(d, p, flags, seqNum);
      r.Done? ==> r.value.head.beginString >= p + 2
  {
    hide ThreeAt, SumAt, RestAt, TypeOf;
    var q := ParseIsOfCandidate(d, p, flags, seqNum);
  }
}
