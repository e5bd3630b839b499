/** What the elements of a decoded sequence hold: the nested loops of fast_decode_sequence, which keep their place
    when bytes are missing, against decoding one element after the other. */
module FastRows {
  import opened Wrappers
  import opened Digits
  import opened StopBit
  import opened PresenceMap
  import opened FastField
  import opened FastFlat
  import opened FastMessage
  import opened FastDecoder
  import opened FastStream

  // ----- one element after the other ------------------------------------------------------

  /** No sequence within a sequence, and no bit is used unless the elements have a map. */
  predicate Regular(f: Field) {
    && f.Sequence?
    && forall k | 0 <= k < |f.elements| :: !f.elements[k].Sequence? && (f.mapped || UsesNoBit(f.elements[k]))
  }

  predicate UsesNoBit(f: Field) {
    match f
    case Single(leaf) => !TakesBit(leaf)
    case Pair(_, e, m) => !TakesBit(e) && !TakesBit(m)
    case Sequence(_, _, _, _) => false
  }

  /** An element: its map, if it has one, and its fields as those of a message. */
  function DecodeElement(f: Field, work: seq<FieldSlot>, d: seq<byte>, p: nat): (r: Rest)
    requires Regular(f) && TypedAll(f.elements, work) && p <= |d|
    ensures r.Complete? ==> TypedAll(f.elements, r.slots) && p <= r.p <= |d|
  {
    if f.mapped then
      match MapAt(d, p)
      case Got(bytes, n) =>
        FromIsTyped(f.elements, work, bytes, -1, 0, d, n);
        DecodeFrom(f.elements, work, bytes, -1, 0, d, n)
      case _ => Stuck
    else
      FromIsTyped(f.elements, work, [], -1, 0, d, p);
      DecodeFrom(f.elements, work, [], -1, 0, d, p)
  }

  lemma {:induction false} FromIsTyped(fields: seq<Field>, slots: seq<FieldSlot>, pmap: seq<byte>, bit: Bit, k: nat,
                                       d: seq<byte>, p: nat)
    requires TypedAll(fields, slots) && k <= |fields| && p <= |d|
    ensures var r := DecodeFrom(fields, slots, pmap, bit, k, d, p);
      r.Complete? ==> TypedAll(fields, r.slots) && p <= r.p <= |d| && r.slots[..k] == slots[..k]
    decreases |fields| - k
  {
    assert DecodeFrom(fields, slots, pmap, bit, k, d, p) == DecodeOn(fields, slots, pmap, bit, k, d, p);
    if k < |fields| {
      assert TypedField(fields[k], slots[k]);
      var r := DecodeField(fields[k], slots[k], pmap, bit, d, p);
      if r.Ready? {
        TypedUpdate(fields, slots, k, r.slot);
        FromIsTyped(fields, slots[k := r.slot], pmap, r.bit, k + 1, d, r.next);
      }
    }
  }

  datatype Elements = Decoded(rows: seq<seq<FieldSlot>>, work: seq<FieldSlot>, p: nat) | Broke

  /** `n` elements; each starts with the dictionary that the one before it leaves. */
  function DecodeElements(f: Field, work: seq<FieldSlot>, d: seq<byte>, p: nat, n: nat): (r: Elements)
    requires Regular(f) && TypedAll(f.elements, work) && p <= |d|
    ensures r.Decoded? ==> |r.rows| == n && TypedAll(f.elements, r.work) && p <= r.p <= |d|
    ensures r.Decoded? ==> forall j | 0 <= j < n :: |r.rows[j]| == |f.elements|
    decreases n
  {
    if n == 0 then Decoded([], work, p)
    else
      match DecodeElement(f, work, d, p)
      case Stuck => Broke
      case Complete(row, _, q) =>
        match DecodeElements(f, row, d, q, n - 1)
        case Broke => Broke
        case Decoded(rows, last, e) => Decoded([row] + rows, last, e)
  }

  // ----- the loops ------------------------------------------------------------------------

  /** The loops go on from `t` at `q` as they do from `s` at `p`. */
  ghost predicate Leads(f: Field, s: FieldSlot, d: seq<byte>, p: nat, t: FieldSlot, q: nat) {
    && f.Sequence? && TypedMany(f, s) && s.decoded > 0 && p <= |d|
    && TypedMany(f, t) && t.decoded > 0 && q <= |d|
    && SeqRun(f, s, d, p) == SeqRun(f, t, d, q)
  }

  lemma LeadsOne(f: Field, s: FieldSlot, d: seq<byte>, p: nat)
    requires f.Sequence? && TypedMany(f, s) && s.decoded > 0 && p <= |d|
    ensures var r := RoundOf(f, s, d, p);
      if r.On? then Leads(f, s, d, p, r.slot, r.p) else SeqRun(f, s, d, p) == r
  {
    hide RoundOf, TypedMany;
    RoundIsTyped(f, s, d, p);
    assert SeqRun(f, s, d, p) == SeqRunOn(f, s, d, p);
  }

  lemma LeadsThrough(f: Field, s: FieldSlot, t: FieldSlot, u: FieldSlot, d: seq<byte>, p: nat, q: nat, r: nat)
    requires Leads(f, s, d, p, t, q) && Leads(f, t, d, q, u, r)
    ensures Leads(f, s, d, p, u, r)
  {
  }

  /** A row whose fields from `k` on show the slots. */
  function RowFrom(row: seq<Shown>, slots: seq<FieldSlot>, k: nat): (r: seq<Shown>)
    requires |row| == |slots| && k <= |row|
    ensures |r| == |row|
  {
    row[..k] + seq(|row| - k, i requires 0 <= i < |row| - k => ShownOf(slots[k + i]))
  }

  /** The fields of the element from `s.field` on are those of `slots`. */
  function WithRest(s: FieldSlot, slots: seq<FieldSlot>, bit: Bit): FieldSlot
    requires s.Many? && s.decoded < |s.rows| && |s.rows[s.decoded]| == |slots| && s.field <= |slots|
  {
    s.(work := slots, rows := s.rows[s.decoded := RowFrom(s.rows[s.decoded], slots, s.field)], bit := bit,
       field := |slots|)
  }

  ghost predicate InElement(f: Field, s: FieldSlot) {
    Regular(f) && TypedMany(f, s) && s.decoded > 0 && !(f.mapped && s.pmap.None?)
  }

  lemma WorkIsTyped(f: Field, work: seq<FieldSlot>)
    requires Regular(f)
    ensures TypedWork(f.elements, work) <==> TypedAll(f.elements, work)
  {
    if TypedWork(f.elements, work) {
      forall k | 0 <= k < |f.elements| ensures TypedField(f.elements[k], work[k]) {
        assert TypedFlat(f.elements[k], work[k]);
      }
    }
    if TypedAll(f.elements, work) {
      forall k | 0 <= k < |f.elements| ensures TypedFlat(f.elements[k], work[k]) {
        assert TypedField(f.elements[k], work[k]);
      }
    }
  }

  /** The rest of an element. */
  ghost predicate RestRuns(f: Field, s: FieldSlot, d: seq<byte>, p: nat)
    requires InElement(f, s) && p <= |d|
  {
    TypedAll(f.elements, s.work)
    && var r := DecodeFrom(f.elements, s.work, OwnMap(s), s.bit, s.field, d, p);
       if r.Complete? then |r.slots| == |f.elements| && Leads(f, s, d, p, WithRest(s, r.slots, r.bit), r.p)
       else !SeqRun(f, s, d, p).Over?
  }

  lemma StoredRow(s: FieldSlot, x: FieldSlot, slots: seq<FieldSlot>, bit: Bit, b: Bit)
    requires s.Many? && s.decoded < |s.rows| && |s.rows[s.decoded]| == |slots| == |s.work| && s.field < |slots|
    requires slots[s.field] == x
    ensures var t := s.(work := s.work[s.field := x], bit := b, field := s.field + 1,
                        rows := s.rows[s.decoded := s.rows[s.decoded][s.field := ShownOf(x)]]);
      WithRest(t, slots, bit) == WithRest(s, slots, bit)
  {
    var row := s.rows[s.decoded];
    assert RowFrom(row[s.field := ShownOf(x)], slots, s.field + 1) == RowFrom(row, slots, s.field);
    assert s.rows[s.decoded := row[s.field := ShownOf(x)]][s.decoded := RowFrom(row, slots, s.field)]
        == s.rows[s.decoded := RowFrom(row, slots, s.field)];
  }

  lemma NothingLeft(s: FieldSlot, slots: seq<FieldSlot>)
    requires s.Many? && s.decoded < |s.rows| && |s.rows[s.decoded]| == |slots| && s.field == |slots| && s.work == slots
    ensures WithRest(s, slots, s.bit) == s
  {
    assert RowFrom(s.rows[s.decoded], slots, |slots|) == s.rows[s.decoded];
  }

  lemma BitStays(f: Field, fs: FieldSlot, d: seq<byte>, p: nat, bit: Bit)
    requires p <= |d| && TypedFlat(f, fs) && UsesNoBit(f)
    ensures var r := DecodeFlat(f, fs, [], bit, d, p); r.Ready? ==> r.bit == bit
  {
  }

  /** A field is decoded: the rest of the element is the rest from the next field on. */
  lemma OneField(f: Field, s: FieldSlot, d: seq<byte>, p: nat, r: FieldStep) returns (t: FieldSlot)
    requires InElement(f, s) && p <= |d| && s.field < |f.elements| && TypedFlat(f.elements[s.field], s.work[s.field])
    requires r == DecodeFlat(f.elements[s.field], s.work[s.field], OwnMap(s), s.bit, d, p) && r.Ready?
    ensures t == FastMessage.Stored(f, s, r.slot, r.bit) && InElement(f, t) && t.field == s.field + 1
    ensures t.work == s.work[s.field := r.slot] && t.bit == r.bit && OwnMap(t) == OwnMap(s) && t.decoded == s.decoded
    ensures r.next <= |d| && Leads(f, s, d, p, t, r.next)
  {
    t := FastMessage.Stored(f, s, r.slot, r.bit);
    LeadsOne(f, s, d, p);
    if !f.mapped {
      BitStays(f.elements[s.field], s.work[s.field], d, p, s.bit);
    }
  }

  lemma RestFromNext(f: Field, s: FieldSlot, t: FieldSlot, x: FieldSlot, d: seq<byte>, p: nat, q: nat)
    requires InElement(f, s) && p <= |d| && InElement(f, t) && q <= |d| && s.field < |f.elements|
    requires t == FastMessage.Stored(f, s, x, t.bit) && t.work == s.work[s.field := x]
    requires Leads(f, s, d, p, t, q) && RestRuns(f, t, d, q) && TypedAll(f.elements, s.work)
    requires DecodeFrom(f.elements, s.work, OwnMap(s), s.bit, s.field, d, p)
          == DecodeFrom(f.elements, t.work, OwnMap(t), t.bit, t.field, d, q)
    ensures RestRuns(f, s, d, p)
  {
    var r := DecodeFrom(f.elements, t.work, OwnMap(t), t.bit, t.field, d, q);
    if r.Complete? {
      FromIsTyped(f.elements, t.work, OwnMap(t), t.bit, t.field, d, q);
      assert r.slots[s.field] == r.slots[..t.field][s.field] == t.work[..t.field][s.field] == x;
      StoredRow(s, x, r.slots, r.bit, t.bit);
      LeadsThrough(f, s, t, WithRest(t, r.slots, r.bit), d, p, q, r.p);
    }
  }

  lemma {:induction false} RestOfElement(f: Field, s: FieldSlot, d: seq<byte>, p: nat)
    requires InElement(f, s) && p <= |d|
    ensures RestRuns(f, s, d, p)
    decreases |f.elements| - s.field
  {
    WorkIsTyped(f, s.work);
    var k := s.field;
    assert DecodeFrom(f.elements, s.work, OwnMap(s), s.bit, k, d, p) == DecodeOn(f.elements, s.work, OwnMap(s), s.bit,
           k, d, p);
    if k == |f.elements| {
      NothingLeft(s, s.work);
    } else {
      assert TypedField(f.elements[k], s.work[k]) && TypedFlat(f.elements[k], s.work[k]);
      var r := DecodeFlat(f.elements[k], s.work[k], OwnMap(s), s.bit, d, p);
      if r.Ready? {
        var t := OneField(f, s, d, p, r);
        RestOfElement(f, t, d, r.next);
        LeadStep(f.elements, OwnMap(s), d, s.work, s.bit, k, p, r.slot, r.bit, r.next);
        RestFromNext(f, s, t, r.slot, d, p, r.next);
      } else {
        LeadsOne(f, s, d, p);
      }
    }
  }

  // ----- a whole element ------------------------------------------------------------------

  /** What an element shows of its fields. */
  function RowOf(slots: seq<FieldSlot>): (r: seq<Shown>)
    ensures |r| == |slots| && forall k | 0 <= k < |slots| :: r[k] == ShownOf(slots[k])
  {
    seq(|slots|, k requires 0 <= k < |slots| => ShownOf(slots[k]))
  }

  /** Before an element, with its map still to come. */
  ghost predicate AtStart(f: Field, s: FieldSlot) {
    Regular(f) && TypedMany(f, s) && s.decoded > 0 && s.pmap.None? && s.field == 0
  }

  /** After the element: its row is filled. */
  function After(s: FieldSlot, slots: seq<FieldSlot>): FieldSlot
    requires s.Many? && s.decoded < |s.rows|
  {
    s.(work := slots, rows := s.rows[s.decoded := RowOf(slots)], decoded := s.decoded + 1)
  }

  /** An element runs as it is decoded by itself. */
  ghost predicate ElementRuns(f: Field, s: FieldSlot, d: seq<byte>, p: nat)
    requires AtStart(f, s) && p <= |d|
  {
    TypedAll(f.elements, s.work)
    && var r := DecodeElement(f, s.work, d, p);
       if r.Stuck? then !SeqRun(f, s, d, p).Over?
       else
         var t := After(s, r.slots);
         if s.decoded < s.count.value.n then AtStart(f, t) && SeqRun(f, s, d, p) == SeqRun(f, t, d, r.p)
         else SeqRun(f, s, d, p) == Over(t.(decoded := 0), r.p)
  }

  /** The fields are done: the element is closed. */
  lemma Closes(f: Field, s: FieldSlot, u: FieldSlot, slots: seq<FieldSlot>, bit: Bit, d: seq<byte>, q: nat)
    requires AtStart(f, s) && InElement(f, u) && u.field == 0 && q <= |d| && TypedAll(f.elements, slots)
    requires u == s.(pmap := u.pmap, bit := u.bit)
    requires TypedMany(f, WithRest(u, slots, bit))
    ensures var t := After(s, slots);
      if s.decoded < s.count.value.n then AtStart(f, t) && Leads(f, WithRest(u, slots, bit), d, q, t, q)
      else SeqRun(f, WithRest(u, slots, bit), d, q) == Over(t.(decoded := 0), q)
  {
    var w, t := WithRest(u, slots, bit), After(s, slots);
    assert RowFrom(s.rows[s.decoded], slots, 0) == RowOf(slots);
    LeadsOne(f, w, d, q);
    assert RoundOf(f, w, d, q) == CloseRound(w, q);
    WorkIsTyped(f, slots);
    assert s.decoded < s.count.value.n ==> CloseRound(w, q) == On(t, q);
  }

  lemma ElementIsDecoded(f: Field, s: FieldSlot, d: seq<byte>, p: nat)
    requires AtStart(f, s) && p <= |d|
    ensures ElementRuns(f, s, d, p)
  {
    WorkIsTyped(f, s.work);
    LeadsOne(f, s, d, p);
    if !f.mapped {
      FieldsRun(f, s, s, d, p, p);
    } else if MapAt(d, p).Got? {
      var u := s.(pmap := Some(MapAt(d, p).value), bit := -1);
      FieldsRun(f, s, u, d, p, MapAt(d, p).next);
    }
  }

  lemma FieldsRun(f: Field, s: FieldSlot, u: FieldSlot, d: seq<byte>, p: nat, q: nat)
    requires AtStart(f, s) && p <= |d| && InElement(f, u) && u.field == 0 && u == s.(pmap := u.pmap, bit := -1)
    requires q <= |d| && TypedAll(f.elements, s.work) && SeqRun(f, s, d, p) == SeqRun(f, u, d, q)
    requires DecodeElement(f, s.work, d, p) == DecodeFrom(f.elements, s.work, OwnMap(u), -1, 0, d, q)
    ensures ElementRuns(f, s, d, p)
  {
    RestOfElement(f, u, d, q);
    var r := DecodeElement(f, s.work, d, p);
    if r.Complete? {
      Closes(f, s, u, r.slots, r.bit, d, r.p);
    }
  }

  // ----- all elements ---------------------------------------------------------------------

  /** Rows `from` and on hold the elements; the others are as they were. */
  function Filled(was: seq<seq<Shown>>, from: nat, elements: seq<seq<FieldSlot>>): (r: seq<seq<Shown>>)
    ensures |r| == |was|
    ensures forall j | 0 <= j < |was| ::
      r[j] == if from <= j < from + |elements| then RowOf(elements[j - from]) else was[j]
  {
    seq(|was|, j requires 0 <= j < |was| =>
      if from <= j < from + |elements| then RowOf(elements[j - from]) else was[j])
  }

  /** All that is left runs as it is decoded element by element. */
  ghost predicate ElementsRun(f: Field, s: FieldSlot, d: seq<byte>, p: nat)
    requires AtStart(f, s) && p <= |d|
  {
    TypedAll(f.elements, s.work)
    && var r := DecodeElements(f, s.work, d, p, s.count.value.n - s.decoded + 1);
       if r.Broke? then !SeqRun(f, s, d, p).Over?
       else SeqRun(f, s, d, p) == Over(s.(work := r.work, rows := Filled(s.rows, s.decoded, r.rows), decoded := 0), r.p)
  }

  lemma FilledFirst(was: seq<seq<Shown>>, from: nat, row: seq<FieldSlot>, rest: seq<seq<FieldSlot>>)
    requires from < |was|
    ensures Filled(was[from := RowOf(row)], from + 1, rest) == Filled(was, from, [row] + rest)
  {
  }

  lemma {:induction false} ElementsAreDecoded(f: Field, s: FieldSlot, d: seq<byte>, p: nat)
    requires AtStart(f, s) && p <= |d|
    ensures ElementsRun(f, s, d, p)
    decreases s.count.value.n - s.decoded
  {
    hide DecodeElement, RowOf;
    ElementIsDecoded(f, s, d, p);
    var r := DecodeElement(f, s.work, d, p);
    if r.Complete? {
      var t := After(s, r.slots);
      if s.decoded < s.count.value.n {
        ElementsAreDecoded(f, t, d, r.p);
        var rest := DecodeElements(f, r.slots, d, r.p, s.count.value.n - s.decoded);
        if rest.Decoded? {
          FilledFirst(s.rows, s.decoded, r.slots, rest.rows);
        }
      } else {
        assert DecodeElements(f, r.slots, d, r.p, 0) == Decoded([], r.slots, r.p);
        FilledFirst(s.rows, s.decoded, r.slots, []);
        assert Filled(s.rows[s.decoded := RowOf(r.slots)], s.decoded + 1, []) == s.rows[s.decoded := RowOf(r.slots)];
      }
    }
  }

  /** A sequence that starts: its length, and then exactly so many elements, each as decoded by itself with the
      dictionary that the one before it left. Element `j` is in row `j`, counted from 1; the other rows are
      untouched. */
  lemma SequenceIsElements(f: Field, fs: FieldSlot, pmap: seq<byte>, bit: Bit, d: seq<byte>, p: nat)
    requires Regular(f) && TypedMany(f, fs) && fs.decoded == 0 && p <= |d| && TypedAll(f.elements, fs.work)
    ensures var l, r := DecodeLeaf(f.length, fs.count, BitOf(f.length, pmap, bit), d, p),
            DecodeMany(f, fs, pmap, bit, d, p);
      if !l.Done? then !r.Ready?
      else if l.slot.state == Empty then
        if f.mandatory then r.Broken? else r == Ready(fs.(count := l.slot), BitAfter(f.length, bit), l.next)
      else if l.slot.value.n > 127 then r.Broken?
      else if l.slot.value.n <= 0 then r == Ready(fs.(count := l.slot), BitAfter(f.length, bit), l.next)
      else
        var e := DecodeElements(f, fs.work, d, l.next, l.slot.value.n);
        if e.Broke? then !r.Ready?
        else r == Ready(fs.(count := l.slot, work := e.work, rows := Filled(fs.rows, 1, e.rows)),
                        BitAfter(f.length, bit), e.p)
  {
    var l := DecodeLeaf(f.length, fs.count, BitOf(f.length, pmap, bit), d, p);
    if l.Done? && l.slot.state != Empty && 1 <= l.slot.value.n <= 127 {
      ElementsAreDecoded(f, fs.(count := l.slot, decoded := 1), d, l.next);
    }
  }
}
