/** A field that the encoder sends is decoded to the value that was sent, and the two dictionaries stay coupled. */
module FieldRoundTrip {
  import opened Digits
  import opened StopBit
  import opened FastField
  import opened FieldEncoder

  // ----- texts ----------------------------------------------------------------------------

  lemma {:induction false} ReadsText(d: seq<byte>, p: nat, room: nat, s: seq<byte>, b: byte, read: seq<byte>)
    requires StandsAt(d, p, s + [b]) && Plain(s) && b >= 128 && |s| < room
    ensures TextFrom(d, p, room, read) == Whole(read + s + [b - 128], p + |s| + 1)
    decreases |s|
  {
    assert TextFrom(d, p, room, read) == TextRound(d, p, room, read);
    var t := s + [b];
    if s == [] {
      assert d[p] == t[0];
      assert read + s == read;
    } else {
      assert d[p + 0] == t[0] == s[0];
      assert t == [s[0]] + (s[1..] + [b]);
      StandsParts(d, p, [s[0]], s[1..] + [b]);
      ReadsText(d, p + 1, room - 1, s[1..], b, read + [s[0]]);
      assert read + [s[0]] + s[1..] == read + s;
    }
  }

  lemma {:induction false} CharsOf(s: seq<byte>, t: seq<byte>)
    requires 0 !in s && (t == [] || t[0] == 0)
    ensures Chars(s + t) == s
    decreases |s|
  {
    if s == [] {
      assert s + t == t;
    } else {
      assert (s + t)[1..] == s[1..] + t;
      CharsOf(s[1..], t);
    }
  }

  /** A string comes back with a zero behind it, and an empty one is not taken for none. */
  lemma StringReadsBack(leaf: Leaf, slot: Slot, d: seq<byte>, p: nat, s: seq<byte>)
    requires slot.value.Str? && StandsAt(d, p, StringText(s)) && |s| < 255 && forall i | 0 <= i < |s| :: 0 < s[i] < 128
    ensures var r := ReadString(leaf, slot, d, p);
      r.Done? && r.next == p + |StringText(s)| && r.slot.state == Assigned && r.slot.value.Str?
        && Chars(r.slot.value.s) == s
  {
    var t := if s == [] then [0] else s;
    ReadsText(d, p, STRING_ROOM, t, 128, []);
    assert [] + t + [0] == t + [0];
    if s == [] {
      assert t + [0] == [0, 0];
    } else {
      CharsOf(s, [0]);
    }
  }

  lemma NoneStands(d: seq<byte>, p: nat)
    requires StandsAt(d, p, NONE)
    ensures p < |d| && d[p] == 128 && UintAt(d, p) == Got(0, p + 1) && IntAt(d, p) == Got(0, p + 1)
  {
    assert d[p] == NONE[0];
    assert UintText(0) == NONE && IntText(0) == NONE;
    UintReadsBack(d, p, 0);
    IntReadsBack(d, p, 0);
  }

  /** The single byte with nothing but the stop bit empties an optional field of any kind. */
  lemma NoneReadsBack(leaf: Leaf, slot: Slot, d: seq<byte>, p: nat)
    requires Typed(leaf, slot) && !leaf.mandatory && StandsAt(d, p, NONE)
    ensures var r := ReadValue(leaf, slot, d, p);
      r.Done? && r.next == p + 1 && r.slot.state == Empty && Typed(leaf, r.slot)
    ensures leaf.kind == Decimal ==> ReadValue(leaf, slot, d, p).slot.value == slot.value
  {
    NoneStands(d, p);
    if leaf.kind == Ascii {
      assert [] + NONE == NONE;
      ReadsText(d, p, STRING_ROOM, [], 128, []);
      assert [] + [] + [128 - 128] == [0];
    }
  }

  lemma NumberReadsBack(leaf: Leaf, slot: Slot, d: seq<byte>, p: nat, n: int)
    requires leaf.kind == Int || leaf.kind == Uint
    requires leaf.op != Delta && InRange(leaf, slot.value, Num(n)) && StandsAt(d, p, NumberText(leaf, n))
    ensures ReadNumber(leaf, slot, d, p) == Done(Slot(Assigned, Num(n)), p + |NumberText(leaf, n)|)
  {
    if leaf.kind == Uint {
      UintReadsBack(d, p, Lifted(leaf, n));
    } else {
      IntReadsBack(d, p, Lifted(leaf, n));
    }
  }

  lemma ExponentLifted(leaf: Leaf, e: int)
    ensures Exponent(leaf, Lifted(leaf, e)) == e && (leaf.mandatory || Lifted(leaf, e) != 0)
  {
  }

  /** Exponent and mantissa come back added to the base. */
  lemma DecimalReadsBack(leaf: Leaf, slot: Slot, base: Value, d: seq<byte>, p: nat, e: int, m: int)
    requires base.Dec? && -63 <= base.exp + e <= 63 && -200 <= e <= 200 && Signed63(m)
    requires StandsAt(d, p, IntText(Lifted(leaf, e)) + IntText(m))
    ensures ReadDecimal(leaf, slot, base, d, p) ==
      Done(Slot(Assigned, Dec(base.exp + e, Wrap(base.mnt + m))), p + |IntText(Lifted(leaf, e))| + |IntText(m)|)
  {
    StandsParts(d, p, IntText(Lifted(leaf, e)), IntText(m));
    IntReadsBack(d, p, Lifted(leaf, e));
    ExponentLifted(leaf, e);
    IntReadsBack(d, p + |IntText(Lifted(leaf, e))|, m);
  }

  /** A value that was sent whole is read back. */
  lemma ValueReadsBack(leaf: Leaf, slot: Slot, prev: Value, d: seq<byte>, p: nat, v: Value)
    requires Typed(leaf, slot) && Fits(v, leaf.kind) && leaf.op != Delta
    requires InRange(leaf, prev, v) && StandsAt(d, p, ValueText(leaf, v))
    ensures var r := ReadValue(leaf, slot, d, p);
      r.Done? && r.next == p + |ValueText(leaf, v)| && r.slot.state == Assigned && Same(r.slot.value, v)
        && Typed(leaf, r.slot)
  {
    match v
    case Str(s) => StringReadsBack(leaf, slot, d, p, s);
    case Dec(e, m) => DecimalReadsBack(leaf, slot, Dec(0, 0), d, p, e, m);
    case Num(n) => NumberReadsBack(leaf, slot, d, p, n);
  }

  lemma DeltaNumberReadsBack(leaf: Leaf, slot: Slot, prev: Value, d: seq<byte>, p: nat, v: Value)
    requires leaf.kind == Int || leaf.kind == Uint
    requires Fits(slot.value, leaf.kind) && Fits(v, leaf.kind) && Fits(prev, leaf.kind) && leaf.op == Delta
    requires slot.value == prev && InRange(leaf, prev, v) && StandsAt(d, p, DeltaText(leaf, prev, v))
    ensures DeltaNumber(leaf, slot, d, p) == Done(Slot(Assigned, v), p + |DeltaText(leaf, prev, v)|)
  {
    hide IntText, IntAt, StandsAt;
    var t := Lifted(leaf, v.n - prev.n);
    assert DeltaText(leaf, prev, v) == IntText(t);
    IntReadsBack(d, p, t);
    DeltaAdds(leaf, prev.n, v.n);
  }

  /** The difference, one further from zero when it may be missing, leads from the old value to the new one. */
  lemma DeltaAdds(leaf: Leaf, was: int, n: int)
    requires leaf.kind == Int || leaf.kind == Uint
    requires Held(leaf.kind, Num(n))
    ensures var t := Lifted(leaf, n - was);
      && (leaf.mandatory || t < 0 ==> WrapKind(leaf.kind, was + t) == n)
      && (!leaf.mandatory ==> t != 0)
      && (!leaf.mandatory && t > 0 ==> WrapKind(leaf.kind, WrapKind(leaf.kind, was + t) - 1) == n)
  {
    if !leaf.mandatory && n - was >= 0 {
      WrapBack(leaf.kind, n);
    }
  }

  /** One step back from a value in range. */
  lemma WrapBack(k: Kind, n: int)
    requires (k == Int || k == Uint) && Held(k, Num(n))
    ensures WrapKind(k, WrapKind(k, n + 1) - 1) == n
  {
  }

  lemma DeltaReadsBack(leaf: Leaf, slot: Slot, prev: Value, d: seq<byte>, p: nat, v: Value)
    requires Typed(leaf, slot) && Fits(v, leaf.kind) && Fits(prev, leaf.kind) && leaf.op == Delta && leaf.kind != Ascii
    requires slot.value == prev && InRange(leaf, prev, v) && StandsAt(d, p, DeltaText(leaf, prev, v))
    ensures ReadDelta(leaf, slot, d, p) == Done(Slot(Assigned, v), p + |DeltaText(leaf, prev, v)|)
  {
    hide StandsAt, DeltaNumber, ReadDecimal, WrapKind, IntAt;
    if leaf.kind == Decimal {
      DecimalReadsBack(leaf, slot, prev, d, p, v.exp - prev.exp, v.mnt - prev.mnt);
    } else {
      DeltaNumberReadsBack(leaf, slot, prev, d, p, v);
    }
  }

  lemma DeltaNoneReadsBack(leaf: Leaf, slot: Slot, d: seq<byte>, p: nat)
    requires Typed(leaf, slot) && !leaf.mandatory && leaf.op == Delta && leaf.kind != Ascii && StandsAt(d, p, NONE)
    ensures var r := ReadDelta(leaf, slot, d, p); r.Done? && r.next == p + 1 && r.slot.state == Empty
    ensures var r := ReadDelta(leaf, slot, d, p);
      r.slot.value == if leaf.kind == Decimal then slot.value else Num(WrapKind(leaf.kind, slot.value.n))
  {
    NoneStands(d, p);
  }

  /** What is left to show of one field. */
  ghost predicate Decoded(leaf: Leaf, s: Sent, r: Step<Slot>, field: Slot, p: nat) {
    s.Sent? && r.Done? && r.next == p + |s.bytes| && Coupled(leaf, s.prev, r.slot) && Shows(r.slot, field)
  }

  /** An empty optional field. */
  lemma EmptyRoundTrip(leaf: Leaf, prev: Slot, slot: Slot, field: Slot, d: seq<byte>, p: nat)
    requires Coupled(leaf, prev, slot) && Allowed(leaf, prev, field) && field.state == Empty && leaf.op != Constant
    requires StandsAt(d, p, NONE)
    ensures Decoded(leaf, EncodeLeaf(leaf, prev, field),
                    DecodeLeaf(leaf, slot, EncodeLeaf(leaf, prev, field).bit, d, p), field, p)
  {
    if leaf.op == Delta {
      DeltaNoneReadsBack(leaf, slot, d, p);
    } else {
      NoneReadsBack(leaf, slot, d, p);
    }
  }

  lemma ConstantRoundTrip(leaf: Leaf, prev: Slot, slot: Slot, field: Slot, d: seq<byte>, p: nat)
    requires Coupled(leaf, prev, slot) && Allowed(leaf, prev, field) && leaf.op == Constant && p <= |d|
    ensures Decoded(leaf, EncodeLeaf(leaf, prev, field),
                    DecodeLeaf(leaf, slot, EncodeLeaf(leaf, prev, field).bit, d, p), field, p)
  {
  }

  /** Whether the encoder leaves out the value because the decoder can work it out. */
  predicate Inferred(leaf: Leaf, prev: Slot, field: Slot)
    requires Typed(leaf, prev) && Typed(leaf, field)
  {
    && field.state == Assigned && prev.state != Empty
    && ((leaf.op == Copy && field.value == prev.value)
        || (leaf.op == Increment && field.value.Num? && field.value.n == WrapKind(leaf.kind, prev.value.n + 1)))
  }

  lemma InferredRoundTrip(leaf: Leaf, prev: Slot, slot: Slot, field: Slot, d: seq<byte>, p: nat)
    requires Coupled(leaf, prev, slot) && Allowed(leaf, prev, field) && Inferred(leaf, prev, field) && p <= |d|
    ensures EncodeLeaf(leaf, prev, field).Sent? && EncodeLeaf(leaf, prev, field).bytes == []
    ensures Decoded(leaf, EncodeLeaf(leaf, prev, field),
                    DecodeLeaf(leaf, slot, EncodeLeaf(leaf, prev, field).bit, d, p), field, p)
  {
  }

  /** A value that is sent. */
  lemma SentRoundTrip(leaf: Leaf, prev: Slot, slot: Slot, field: Slot, d: seq<byte>, p: nat)
    requires Coupled(leaf, prev, slot) && Allowed(leaf, prev, field) && field.state != Empty && leaf.op != Constant
    requires !Inferred(leaf, prev, field) && EncodeLeaf(leaf, prev, field).Sent?
    requires StandsAt(d, p, EncodeLeaf(leaf, prev, field).bytes)
    ensures Decoded(leaf, EncodeLeaf(leaf, prev, field),
                    DecodeLeaf(leaf, slot, EncodeLeaf(leaf, prev, field).bit, d, p), field, p)
  {
    if leaf.op == Delta {
      DeltaReadsBack(leaf, slot, prev.value, d, p, field.value);
    } else {
      ValueReadsBack(leaf, slot, prev.value, d, p, field.value);
    }
  }

  /** Decoding what was encoded gives the value that was sent, with every operator and every kind of field. */
  lemma LeafRoundTrip(leaf: Leaf, prev: Slot, slot: Slot, field: Slot, d: seq<byte>, p: nat)
    requires Coupled(leaf, prev, slot) && Allowed(leaf, prev, field)
    ensures EncodeLeaf(leaf, prev, field).Sent?
    ensures StandsAt(d, p, EncodeLeaf(leaf, prev, field).bytes) ==>
      Decoded(leaf, EncodeLeaf(leaf, prev, field), DecodeLeaf(leaf, slot, EncodeLeaf(leaf, prev, field).bit, d, p),
              field, p)
  {
    if StandsAt(d, p, EncodeLeaf(leaf, prev, field).bytes) {
      if leaf.op == Constant {
        ConstantRoundTrip(leaf, prev, slot, field, d, p);
      } else if field.state == Empty {
        EmptyRoundTrip(leaf, prev, slot, field, d, p);
      } else if Inferred(leaf, prev, field) {
        InferredRoundTrip(leaf, prev, slot, field, d, p);
      } else {
        SentRoundTrip(leaf, prev, slot, field, d, p);
      }
    }
  }

  /** The field is sent, and what was sent is read back. */
  ghost predicate ComesBack(leaf: Leaf, prev: Slot, slot: Slot, field: Slot, d: seq<byte>, p: nat)
    requires Typed(leaf, prev) && Typed(leaf, slot) && Typed(leaf, field)
  {
    var x := EncodeLeaf(leaf, prev, field);
    x.Sent? && (StandsAt(d, p, x.bytes) ==> Decoded(leaf, x, DecodeLeaf(leaf, slot, x.bit, d, p), field, p))
  }

  /** Exactly the operators that both sides support bring back whatever a caller fills in. An increment of a decimal is
      encoded as nothing at all, and the decoder rejects it; increments and deltas of strings are not encoded. */
  lemma OperatorsExactly(leaf: Leaf)
    requires Fits(leaf.reset, leaf.kind)
    ensures (forall prev, slot, field, d, p: nat | Coupled(leaf, prev, slot) && WellFilled(leaf, prev, field) ::
               ComesBack(leaf, prev, slot, field, d, p))
            <==> Supported(leaf)
  {
    if Supported(leaf) {
      forall prev, slot, field, d, p: nat | Coupled(leaf, prev, slot) && WellFilled(leaf, prev, field)
        ensures ComesBack(leaf, prev, slot, field, d, p)
      {
        LeafRoundTrip(leaf, prev, slot, field, d, p);
      }
    } else {
      var zero := Slot(Assigned, if leaf.kind == Ascii then Str([]) else Dec(0, 0));
      assert Chars([]) == [];
      assert Coupled(leaf, zero, zero) && WellFilled(leaf, zero, zero);
      assert !ComesBack(leaf, zero, zero, zero, [], 0);
    }
  }

  /** The encoder refuses exactly strings with an increment or a delta, and a mandatory field that is empty where
      the operator would have to say so. */
  lemma RefusedExactly(leaf: Leaf, prev: Slot, field: Slot)
    requires Typed(leaf, prev) && Typed(leaf, field)
    ensures EncodeLeaf(leaf, prev, field).Refused? <==>
      || (leaf.kind == Ascii && (leaf.op == Increment || leaf.op == Delta))
      || (leaf.mandatory && field.state == Empty
          && (leaf.op == Copy || leaf.op == Default || (leaf.op == Increment && leaf.kind != Decimal)))
  {
  }

  /** No byte is sent exactly for a constant, for a value that is copied, and for one that follows the previous one;
      a default is always sent. */
  lemma NothingIsSentExactly(leaf: Leaf, prev: Slot, field: Slot)
    requires Typed(leaf, prev) && Typed(leaf, field) && Supported(leaf) && EncodeLeaf(leaf, prev, field).Sent?
    ensures EncodeLeaf(leaf, prev, field).bytes == [] <==>
      || leaf.op == Constant
      || (field.state == Assigned && prev.state != Empty
          && ((leaf.op == Copy && field.value == prev.value)
              || (leaf.op == Increment && field.value.n == WrapKind(leaf.kind, prev.value.n + 1))))
  {
  }
}
