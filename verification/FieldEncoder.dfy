/** The encoder's side of the field operators: fast_encode_int, fast_encode_uint, fast_encode_string and
    fast_encode_decimal_atomic. */
module FieldEncoder {
  import opened Digits
  import opened StopBit
  import opened FastField

  /** What goes out for a field, with its bit if the operator takes one; what the encoder remembers of it, and the
      field as it is left. */
  datatype Sent = Sent(bit: bool, bytes: seq<byte>, prev: Slot, now: Slot) | Refused

  /** The single byte that says that a field is empty. */
  const NONE: seq<byte> := [128]

  /** transfer_string, for a string that is there */
  function StringText(s: seq<byte>): seq<byte> {
    (if s == [] then [0] else s) + [128]
  }

  /** An optional number is sent one further from zero. */
  function Lifted(leaf: Leaf, n: int): int {
    if !leaf.mandatory && n >= 0 then n + 1 else n
  }

  function NumberText(leaf: Leaf, n: int): seq<byte> {
    if leaf.kind == Uint then UintText(Lifted(leaf, n) % 0x1_0000_0000_0000_0000) else IntText(Wrap(Lifted(leaf, n)))
  }

  function ValueText(leaf: Leaf, v: Value): seq<byte> {
    match v
    case Str(s) => StringText(s)
    case Dec(e, m) => IntText(Wrap(Lifted(leaf, e))) + IntText(m)
    case Num(n) => NumberText(leaf, n)
  }

  /** The difference to the previous value. */
  function DeltaText(leaf: Leaf, prev: Value, v: Value): seq<byte>
    requires Fits(prev, leaf.kind) && Fits(v, leaf.kind) && leaf.kind != Ascii
  {
    if leaf.kind == Decimal then
      IntText(Wrap(Lifted(leaf, Wrap(v.exp - prev.exp)))) + IntText(Wrap(v.mnt - prev.mnt))
    else IntText(Wrap(Lifted(leaf, Wrap(v.n - prev.n))))
  }

  /** The label `transfer` */
  function Transfer(bit: bool, bytes: seq<byte>, v: Value): Sent {
    Sent(bit, bytes, Slot(Assigned, v), Slot(Assigned, v))
  }

  /** The label `empty`: a number or a string is set back to the previous one. */
  function TransferNone(leaf: Leaf, bit: bool, prev: Slot, field: Slot): Sent {
    Sent(bit, NONE, Slot(Empty, prev.value), Slot(Empty, if leaf.kind == Decimal then field.value else prev.value))
  }

  function EncodeLeaf(leaf: Leaf, prev: Slot, field: Slot): Sent
    requires Typed(leaf, prev) && Typed(leaf, field)
  {
    var none := !leaf.mandatory && field.state == Empty;
    match leaf.op
    case NoOp =>
      if none then TransferNone(leaf, false, prev, field)
        else Transfer(false, ValueText(leaf, field.value), field.value)
    case Copy =>
      if none then TransferNone(leaf, true, prev, field)
      else if field.state == Empty then Refused
      else if field.state == Assigned && prev.state != Empty
        && field.value == prev.value then Sent(false, [], prev, field)
      else Transfer(true, ValueText(leaf, field.value), field.value)
    case Increment =>
      if leaf.kind == Ascii then Refused
      else if leaf.kind == Decimal then Sent(false, [], prev, field)
      else if none then TransferNone(leaf, true, prev, field)
      else if field.state == Empty then Refused
      else if field.state == Assigned && prev.state != Empty
        && field.value.n == WrapKind(leaf.kind, prev.value.n + 1) then
        Sent(false, [], Slot(prev.state, field.value), field)
      else Transfer(true, ValueText(leaf, field.value), field.value)
    case Delta =>
      if leaf.kind == Ascii then Refused
      else if none then TransferNone(leaf, false, prev, field)
      else Transfer(false, DeltaText(leaf, prev.value, field.value), field.value)
    case Default =>
      if none then TransferNone(leaf, true, prev, field)
      else if field.state == Empty then Refused
      else Transfer(true, ValueText(leaf, field.value), field.value)
    case Constant =>
      if none then Sent(false, [], prev, field) else Sent(true, [], prev, Slot(Assigned, field.value))
  }

  // ----- the coupling of the two dictionaries ---------------------------------------------

  /** A value of the decoder is one of the encoder. */
  predicate Same(read: Value, sent: Value) {
    if read.Str? && sent.Str? then Chars(read.s) == sent.s else read == sent
  }

  /** 64 bits hold the value. */
  predicate Held(k: Kind, v: Value) {
    v.Num? ==> if k == Uint then 0 <= v.n < 0x1_0000_0000_0000_0000
      else -0x8000_0000_0000_0000 <= v.n < 0x8000_0000_0000_0000
  }

  /** What a template may say of the first value: a string of C, a number of 64 bits. */
  predicate Loadable(leaf: Leaf) {
    && Fits(leaf.reset, leaf.kind) && Held(leaf.kind, leaf.reset)
    && (leaf.reset.Str? ==> |leaf.reset.s| < STRING_ROOM + 1 && 0 !in leaf.reset.s)
  }

  /** What the encoder remembers and what the decoder holds. */
  predicate Coupled(leaf: Leaf, prev: Slot, slot: Slot) {
    && Typed(leaf, prev) && Typed(leaf, slot)
    && match leaf.op
       case Delta => Same(slot.value, prev.value) && Held(leaf.kind, prev.value)
       case Constant => slot.state == Assigned ==> slot.value == leaf.reset
       case NoOp => true
       case Default => true
       case _ =>
         && (prev.state == Assigned ==> slot.state == Assigned && Same(slot.value, prev.value))
         && (prev.state == Empty ==> slot.state == Empty)
  }

  predicate Signed63(n: int) {
    -0x4000_0000_0000_0000 <= n < 0x4000_0000_0000_0000
  }

  /** Values that the wire can carry. */
  predicate InRange(leaf: Leaf, prev: Value, v: Value) {
    match v
    case Str(s) => |s| < 255 && forall i | 0 <= i < |s| :: 0 < s[i] < 128
    case Dec(e, m) =>
      && -63 <= e <= 63
      && (if leaf.op == Delta then
            prev.Dec? && -63 <= prev.exp <= 63 && Signed63(m - prev.mnt)
              && -0x8000_0000_0000_0000 <= m < 0x8000_0000_0000_0000
          else Signed63(m))
    case Num(n) =>
      if leaf.op == Delta then
        && prev.Num? && Signed63(n - prev.n) && Signed63(Lifted(leaf, n - prev.n))
        && Held(leaf.kind, v)
      else if leaf.kind == Uint then 0 <= n && Lifted(leaf, n) < 0x8000_0000_0000_0000
      else Signed63(n) && Signed63(Lifted(leaf, n))
  }

  /** The operators that both sides support for a kind of field. */
  predicate Supported(leaf: Leaf) {
    && (leaf.op == Increment ==> leaf.kind == Int || leaf.kind == Uint)
    && (leaf.op == Delta ==> leaf.kind != Ascii)
  }

  /** How a caller fills a field: a mandatory one is never empty, the first value of a copied or incremented one is
      marked as new, a constant is the constant, and values are in range. */
  predicate Allowed(leaf: Leaf, prev: Slot, field: Slot) {
    Supported(leaf) && WellFilled(leaf, prev, field)
  }

  predicate WellFilled(leaf: Leaf, prev: Slot, field: Slot) {
    && Typed(leaf, field)
    && (leaf.mandatory ==> field.state != Empty)
    && (leaf.op == Copy || leaf.op == Increment ==> field.state == Assigned ==> prev.state != Undefined)
    && (field.state != Empty ==>
          if leaf.op == Constant then Same(leaf.reset, field.value) else InRange(leaf, prev.value, field.value))
  }

  /** The decoded field is the one that was sent. */
  predicate Shows(slot: Slot, field: Slot) {
    if field.state == Empty then slot.state == Empty else slot.state == Assigned && Same(slot.value, field.value)
  }

  lemma {:induction false} CharsOfPlain(s: seq<byte>)
    requires 0 !in s
    ensures Chars(s) == s
  {
    if s != [] {
      CharsOfPlain(s[1..]);
    }
  }

  /** As the templates are loaded, encoder and decoder agree. */
  lemma LoadedIsCoupled(leaf: Leaf)
    requires Loadable(leaf)
    ensures Coupled(leaf, Loaded(leaf), Loaded(leaf))
  {
    if leaf.reset.Str? {
      CharsOfPlain(leaf.reset.s);
    }
    assert Chars([]) == [];
  }
}
