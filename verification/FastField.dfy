/** The field operators of FAST (section 6.3 of FAST 1.1) as fast_message.c decodes and encodes them: one field, its
    dictionary entry and the bytes. */
module FastField {
  import opened Digits
  import opened StopBit

  datatype Op = NoOp | Copy | Increment | Delta | Default | Constant
  datatype Kind = Int | Uint | Ascii | Decimal
  datatype State = Undefined | Assigned | Empty

  /** A string is the bytes read, of which a C program sees those before the first zero. */
  datatype Value = Num(n: int) | Str(s: seq<byte>) | Dec(exp: int, mnt: int)

  /** What the template says of a field that is not a decimal of two operators. */
  datatype Leaf = Leaf(mandatory: bool, op: Op, kind: Kind, hasReset: bool, reset: Value)

  predicate Fits(v: Value, k: Kind) {
    match k
    case Ascii => v.Str?
    case Decimal => v.Dec?
    case _ => v.Num?
  }

  /** The slot of a field: the dictionary of the decoder. */
  datatype Slot = Slot(state: State, value: Value)

  predicate Typed(leaf: Leaf, slot: Slot) {
    Fits(leaf.reset, leaf.kind) && Fits(slot.value, leaf.kind)
  }

  /** A field as the template loader leaves it (fast_reset_init): undefined, with the value of the template or zero. */
  function Loaded(leaf: Leaf): (s: Slot)
    requires Fits(leaf.reset, leaf.kind)
    ensures Typed(leaf, s)
  {
    Slot(Undefined,
         if leaf.hasReset then leaf.reset
         else match leaf.kind
              case Ascii => Str([])
              case Decimal => Dec(0, 0)
              case _ => Num(0))
  }

  /** What a C program sees of a string. */
  function Chars(s: seq<byte>): (r: seq<byte>)
    ensures |r| <= |s| && 0 !in r
  {
    if s == [] || s[0] == 0 then [] else [s[0]] + Chars(s[1..])
  }

  // ----- reading strings ------------------------------------------------------------------

  const STRING_ROOM: nat := 255
  const DELTA_ROOM: nat := 31

  datatype Text = Whole(s: seq<byte>, next: nat) | Cut(s: seq<byte>) | Long

  /** The loop of parse_string with `room` bytes of space left. */
  function TextFrom(d: seq<byte>, p: nat, room: nat, read: seq<byte>): (r: Text)
    requires p <= |d|
    ensures r.Whole? ==> p < r.next <= |d|
    decreases room, 1
  {
    TextRound(d, p, room, read)
  }

  function TextRound(d: seq<byte>, p: nat, room: nat, read: seq<byte>): (r: Text)
    requires p <= |d|
    ensures r.Whole? ==> p < r.next <= |d|
    decreases room, 0
  {
    if room == 0 then Long
    else if p == |d| then Cut(read)
    else if d[p] >= 128 then Whole(read + [d[p] - 128], p + 1)
    else TextFrom(d, p + 1, room - 1, read + [d[p]])
  }

  /** An incomplete string has already overwritten the front of the old one. */
  function Overlay(s: seq<byte>, was: seq<byte>): seq<byte> {
    s + if |s| < |was| then was[|s|..] else []
  }

  // ----- decoding -------------------------------------------------------------------------

  /** A field is decoded, or has to wait with its slot as it is, or cannot be decoded. */
  datatype Step<S> = Done(slot: S, next: nat) | Wait(slot: S) | Garbled

  /** Values wrap at 64 bits. */
  function WrapKind(k: Kind, n: int): int {
    if k == Uint then n % 0x1_0000_0000_0000_0000 else Wrap(n)
  }

  /** A number as it comes; an optional one is one further from zero, and zero is none. */
  function Nullable(leaf: Leaf, n: int): Slot {
    if leaf.mandatory then Slot(Assigned, Num(n))
    else if n == 0 then Slot(Empty, Num(0))
    else Slot(Assigned, Num(if n > 0 then n - 1 else n))
  }

  function NumberAt(k: Kind, d: seq<byte>, p: nat): (r: Read<int>)
    requires p <= |d|
    ensures r.Got? ==> p < r.next <= |d|
  {
    if k == Uint then
      match UintAt(d, p)
      case Got(v, n) => Got(v, n)
      case Short => Short
      case Bad => Bad
    else IntAt(d, p)
  }

  function ReadNumber(leaf: Leaf, slot: Slot, d: seq<byte>, p: nat): (r: Step<Slot>)
    requires p <= |d|
    ensures r.Done? ==> p < r.next <= |d|
  {
    match NumberAt(leaf.kind, d, p)
    case Got(v, n) => Done(Nullable(leaf, v), n)
    case Short => Wait(slot)
    case Bad => Garbled
  }

  function ReadString(leaf: Leaf, slot: Slot, d: seq<byte>, p: nat): (r: Step<Slot>)
    requires p <= |d| && slot.value.Str?
    ensures r.Done? ==> p < r.next <= |d|
  {
    match TextFrom(d, p, STRING_ROOM, [])
    case Whole(s, n) => Done(Slot(if !leaf.mandatory && s == [0] then Empty else Assigned, Str(s)), n)
    case Cut(s) => Wait(Slot(slot.state, Str(Overlay(s, slot.value.s))))
    case Long => Garbled
  }

  /** The exponent of a decimal, one further from zero when it may be missing. */
  function Exponent(leaf: Leaf, e: int): int {
    if !leaf.mandatory && e > 0 then e - 1 else e
  }

  function ReadMantissa(slot: Slot, exp: int, mnt: int, d: seq<byte>, p: nat): (r: Step<Slot>)
    requires p <= |d|
    ensures r.Done? ==> p < r.next <= |d|
  {
    match IntAt(d, p)
    case Short => Wait(Slot(Assigned, slot.value))
    case Bad => Garbled
    case Got(m, n) => Done(Slot(Assigned, Dec(exp, Wrap(mnt + m))), n)
  }

  /** What follows the exponent. */
  function DecimalOn(leaf: Leaf, slot: Slot, base: Value, r: Read<int>, d: seq<byte>): (x: Step<Slot>)
    requires base.Dec? && (r.Got? ==> r.next <= |d|)
    ensures x.Done? ==> r.Got? && r.next <= x.next <= |d|
  {
    match r
    case Short => Wait(slot)
    case Bad => Garbled
    case Got(e, n) =>
      if !leaf.mandatory && e == 0 then Done(Slot(Empty, slot.value), n)
      else if !(-63 <= base.exp + Exponent(leaf, e) <= 63) then Garbled
      else ReadMantissa(slot, base.exp + Exponent(leaf, e), base.mnt, d, n)
  }

  /** Exponent and mantissa, added to a base. */
  function ReadDecimal(leaf: Leaf, slot: Slot, base: Value, d: seq<byte>, p: nat): (r: Step<Slot>)
    requires p <= |d| && base.Dec?
    ensures r.Done? ==> p < r.next <= |d|
  {
    DecimalOn(leaf, slot, base, IntAt(d, p), d)
  }

  function ReadValue(leaf: Leaf, slot: Slot, d: seq<byte>, p: nat): (r: Step<Slot>)
    requires p <= |d| && Typed(leaf, slot)
    ensures r.Done? ==> p < r.next <= |d|
  {
    match leaf.kind
    case Ascii => ReadString(leaf, slot, d, p)
    case Decimal => ReadDecimal(leaf, slot, Dec(0, 0), d, p)
    case _ => ReadNumber(leaf, slot, d, p)
  }

  /** The sum with a difference; an optional one is one further from zero, and zero is none. */
  function Added(leaf: Leaf, slot: Slot, t: int): Slot
    requires slot.value.Num?
  {
    var v := WrapKind(leaf.kind, slot.value.n + t);
    if leaf.mandatory then Slot(Assigned, Num(v))
    else if t == 0 then Slot(Empty, Num(v))
    else Slot(Assigned, Num(if t > 0 then WrapKind(leaf.kind, v - 1) else v))
  }

  function DeltaNumber(leaf: Leaf, slot: Slot, d: seq<byte>, p: nat): (r: Step<Slot>)
    requires p <= |d| && slot.value.Num?
    ensures r.Done? ==> p < r.next <= |d|
  {
    match IntAt(d, p)
    case Short => Wait(slot)
    case Bad => Garbled
    case Got(t, n) => Done(Added(leaf, slot, t), n)
  }

  /** The characters kept of the old string and those that replace the others, at its end or at its front. */
  function Spliced(was: seq<byte>, cut: int, with: seq<byte>): (r: seq<byte>)
    requires if cut >= 0 then cut <= |was| else -(cut + 1) <= |was|
  {
    if cut >= 0 then was[..|was| - cut] + with else with + was[-(cut + 1)..]
  }

  /** The characters that replace `cut` others. */
  function SpliceAt(slot: Slot, cut: int, d: seq<byte>, p: nat): (r: Step<Slot>)
    requires p <= |d| && slot.value.Str?
    ensures r.Done? ==> p < r.next <= |d|
  {
    match TextFrom(d, p, DELTA_ROOM, [])
    case Cut(_) => Wait(Slot(Assigned, slot.value))
    case Long => Garbled
    case Whole(s, n) =>
      var was, with := Chars(slot.value.s), Chars(s);
      var gone := if cut >= 0 then cut else -(cut + 1);
      if |was| < gone || |was| + |with| - gone + 1 > STRING_ROOM + 1 then Garbled
      else Done(Slot(Assigned, Str(Spliced(was, cut, with))), n)
  }

  function DeltaString(leaf: Leaf, slot: Slot, d: seq<byte>, p: nat): (r: Step<Slot>)
    requires p <= |d| && slot.value.Str?
    ensures r.Done? ==> p < r.next <= |d|
  {
    match IntAt(d, p)
    case Short => Wait(slot)
    case Bad => Garbled
    case Got(t, n) =>
      if !leaf.mandatory && t == 0 then Done(Slot(Empty, slot.value), n)
      else SpliceAt(slot, if !leaf.mandatory && t > 0 then t - 1 else t, d, n)
  }

  function ReadDelta(leaf: Leaf, slot: Slot, d: seq<byte>, p: nat): (r: Step<Slot>)
    requires p <= |d| && Typed(leaf, slot)
    ensures r.Done? ==> p < r.next <= |d|
  {
    match leaf.kind
    case Ascii => DeltaString(leaf, slot, d, p)
    case Decimal => ReadDecimal(leaf, slot, slot.value, d, p)
    case _ => DeltaNumber(leaf, slot, d, p)
  }

  /** pmap_required: whether the operator takes a bit of the presence map. */
  predicate TakesBit(leaf: Leaf) {
    leaf.op == Copy || leaf.op == Increment || leaf.op == Default || (leaf.op == Constant && !leaf.mandatory)
  }

  /** The initial value, or none if that may be. */
  function Initial(leaf: Leaf, slot: Slot, p: nat): Step<Slot> {
    if leaf.hasReset then Done(Slot(Assigned, leaf.reset), p)
    else if leaf.mandatory then Garbled
    else Done(Slot(Empty, slot.value), p)
  }

  /** What a field is when its bit is not set. */
  function Absent(leaf: Leaf, slot: Slot, p: nat): Step<Slot> {
    if leaf.op == Default || slot.state == Undefined then Initial(leaf, slot, p)
    else if slot.state == Empty then if leaf.mandatory then Garbled else Done(slot, p)
    else if leaf.op == Increment && slot.value.Num? then
      Done(Slot(Assigned, Num(WrapKind(leaf.kind, slot.value.n + 1))), p)
    else Done(slot, p)
  }

  /** Whether the decoder knows the operator for this kind of field. */
  predicate Known(leaf: Leaf) {
    leaf.op == Increment ==> leaf.kind == Int || leaf.kind == Uint
  }

  /** fast_decode_int, fast_decode_uint, fast_decode_ascii and fast_decode_decimal_atomic; `bit` is the one that the
      operator takes, if it does. */
  function DecodeLeaf(leaf: Leaf, slot: Slot, bit: bool, d: seq<byte>, p: nat): (r: Step<Slot>)
    requires p <= |d| && Typed(leaf, slot)
    ensures r.Done? ==> p <= r.next <= |d|
    ensures !r.Garbled? ==> Typed(leaf, r.slot)
  {
    if !Known(leaf) then Garbled
    else
      match leaf.op
      case NoOp => ReadValue(leaf, slot, d, p)
      case Delta => ReadDelta(leaf, slot, d, p)
      case Constant =>
        Done(Slot(if leaf.mandatory || bit then Assigned else Empty, if slot.state == Assigned then slot.value
                  else leaf.reset), p)
      case _ => if bit then ReadValue(leaf, slot, d, p) else Absent(leaf, slot, p)
  }

  // ----- more bytes -----------------------------------------------------------------------

  lemma {:induction false} TextGrows(d: seq<byte>, e: seq<byte>, p: nat, room: nat, read: seq<byte>)
    requires p <= |d|
    ensures TextFrom(d, p, room, read).Cut? || TextFrom(d + e, p, room, read) == TextFrom(d, p, room, read)
    ensures TextFrom(d, p, room, read).Cut? && TextFrom(d + e, p, room, read).Cut? ==>
      TextFrom(d, p, room, read).s <= TextFrom(d + e, p, room, read).s
    decreases room
  {
    assert TextFrom(d, p, room, read) == TextRound(d, p, room, read);
    assert TextFrom(d + e, p, room, read) == TextRound(d + e, p, room, read);
    if room > 0 && p < |d| {
      if d[p] < 128 {
        TextGrows(d, e, p + 1, room - 1, read + [d[p]]);
      }
    } else if room > 0 {
      CutGrows(d + e, p, room, read);
    }
  }

  lemma {:induction false} CutGrows(d: seq<byte>, p: nat, room: nat, read: seq<byte>)
    requires p <= |d|
    ensures TextFrom(d, p, room, read).Cut? ==> read <= TextFrom(d, p, room, read).s
    decreases room
  {
    assert TextFrom(d, p, room, read) == TextRound(d, p, room, read);
    if room > 0 && p < |d| && d[p] < 128 {
      CutGrows(d, p + 1, room - 1, read + [d[p]]);
    }
  }

  lemma OverlayTwice(s: seq<byte>, t: seq<byte>, was: seq<byte>)
    requires s <= t
    ensures Overlay(t, Overlay(s, was)) == Overlay(t, was)
  {
  }

  lemma StringResumes(leaf: Leaf, slot: Slot, d: seq<byte>, e: seq<byte>, p: nat)
    requires p <= |d| && slot.value.Str?
    ensures var r, w := ReadString(leaf, slot, d, p), ReadString(leaf, slot, d + e, p);
      if r.Wait? then r.slot.value.Str? && ReadString(leaf, r.slot, d + e, p) == w else w == r
  {
    TextGrows(d, e, p, STRING_ROOM, []);
    var t, u := TextFrom(d, p, STRING_ROOM, []), TextFrom(d + e, p, STRING_ROOM, []);
    if t.Cut? && u.Cut? {
      OverlayTwice(t.s, u.s, slot.value.s);
    }
  }

  lemma NumberResumes(k: Kind, d: seq<byte>, e: seq<byte>, p: nat)
    requires p <= |d|
    ensures NumberAt(k, d, p).Short? || NumberAt(k, d + e, p) == NumberAt(k, d, p)
  {
    MoreBytes(d, e, p);
  }

  lemma DecimalResumes(leaf: Leaf, slot: Slot, base: Value, d: seq<byte>, e: seq<byte>, p: nat)
    requires p <= |d| && base.Dec?
    ensures var r, w := ReadDecimal(leaf, slot, base, d, p), ReadDecimal(leaf, slot, base, d + e, p);
      if r.Wait? then r.slot.value == slot.value && ReadDecimal(leaf, r.slot, base, d + e, p) == w else w == r
  {
    MoreBytes(d, e, p);
    var t := IntAt(d, p);
    if t.Got? {
      MantissaResumes(slot, base.exp + Exponent(leaf, t.value), base.mnt, d, e, t.next);
    }
  }

  lemma MantissaResumes(slot: Slot, exp: int, mnt: int, d: seq<byte>, e: seq<byte>, p: nat)
    requires p <= |d|
    ensures var r, w := ReadMantissa(slot, exp, mnt, d, p), ReadMantissa(slot, exp, mnt, d + e, p);
      if r.Wait? then r.slot == Slot(Assigned, slot.value) && ReadMantissa(r.slot, exp, mnt, d + e, p) == w else w == r
  {
    MoreBytes(d, e, p);
  }

  lemma DeltaStringResumes(leaf: Leaf, slot: Slot, d: seq<byte>, e: seq<byte>, p: nat)
    requires p <= |d| && slot.value.Str?
    ensures var r, w := DeltaString(leaf, slot, d, p), DeltaString(leaf, slot, d + e, p);
      if r.Wait? then r.slot.value == slot.value && DeltaString(leaf, r.slot, d + e, p) == w else w == r
  {
    MoreBytes(d, e, p);
    if IntAt(d, p).Got? {
      TextGrows(d, e, IntAt(d, p).next, DELTA_ROOM, []);
    }
  }

  lemma DeltaNumberResumes(leaf: Leaf, slot: Slot, d: seq<byte>, e: seq<byte>, p: nat)
    requires p <= |d| && slot.value.Num?
    ensures var r, w := DeltaNumber(leaf, slot, d, p), DeltaNumber(leaf, slot, d + e, p);
      if r.Wait? then r.slot == slot else w == r
  {
    MoreBytes(d, e, p);
  }

  lemma ValueResumes(leaf: Leaf, slot: Slot, d: seq<byte>, e: seq<byte>, p: nat)
    requires p <= |d| && Typed(leaf, slot)
    ensures var r, w := ReadValue(leaf, slot, d, p), ReadValue(leaf, slot, d + e, p);
      if r.Wait? then Typed(leaf, r.slot) && ReadValue(leaf, r.slot, d + e, p) == w else w == r
  {
    match leaf.kind
    case Ascii => StringResumes(leaf, slot, d, e, p);
    case Decimal => DecimalResumes(leaf, slot, Dec(0, 0), d, e, p);
    case _ => NumberResumes(leaf.kind, d, e, p);
  }

  lemma DeltaResumes(leaf: Leaf, slot: Slot, d: seq<byte>, e: seq<byte>, p: nat)
    requires p <= |d| && Typed(leaf, slot)
    ensures var r, w := ReadDelta(leaf, slot, d, p), ReadDelta(leaf, slot, d + e, p);
      if r.Wait? then Typed(leaf, r.slot) && ReadDelta(leaf, r.slot, d + e, p) == w else w == r
  {
    match leaf.kind
    case Ascii => DeltaStringResumes(leaf, slot, d, e, p);
    case Decimal => DecimalResumes(leaf, slot, slot.value, d, e, p);
    case _ => DeltaNumberResumes(leaf, slot, d, e, p);
  }

  /** What has been decided stays decided when more bytes arrive, and a field that had to wait is then decoded as
      if nothing had happened, although its slot may have changed. */
  lemma LeafResumes(leaf: Leaf, slot: Slot, bit: bool, d: seq<byte>, e: seq<byte>, p: nat)
    requires p <= |d| && Typed(leaf, slot)
    ensures var r, w := DecodeLeaf(leaf, slot, bit, d, p), DecodeLeaf(leaf, slot, bit, d + e, p);
      if r.Wait? then DecodeLeaf(leaf, r.slot, bit, d + e, p) == w else w == r
  {
    if leaf.op == Delta {
      DeltaResumes(leaf, slot, d, e, p);
    } else {
      ValueResumes(leaf, slot, d, e, p);
    }
  }
}
