/** The fields of a FAST message that are no sequences, as they are decoded in place: fast_decode_decimal_individ of
    lib/proto/fast_message.c, and the switch over the types of the fields of an element. */
module FastElement {
  import opened Wrappers
  import opened Digits
  import opened ByteBuffer
  import opened StopBit
  import opened PresenceMap
  import opened FastField
  import opened FastFlat
  import opened FastMessage
  import opened FastReader
  import opened FastCell
  import opened FastDecoder

  // ----- fields that are no sequences -----------------------------------------------------

  /** What decoding a field returns, and what it leaves; the cursor is left anywhere unless it succeeds. */
  ghost predicate FollowsFlat(r: FieldStep, status: Status, slot: FieldSlot, bit: Bit, start: nat) {
    match r
    case Ready(s, b, n) => status == Success && slot == s && bit == b && start == n
    case Later(s, _) => status == Partial && slot == s
    case Broken => status == Invalid
  }

  /** A decimal of two operators. */
  class Pair {
    const mandatory: bool
    var state: State
    var exp: int
    var mnt: int
    const e: Cell
    const m: Cell

    ghost predicate Valid()
      reads this, e, e.text, m, m.text
    {
      e.Valid() && m.Valid() && e.leaf.kind == Int && m.leaf.kind == Int && e != m && e.text != m.text
    }

    ghost function Now(): FieldSlot
      requires Valid()
      reads this, e, e.text, m, m.text
    {
      Two(state, exp, mnt, e.Now(), m.Now())
    }

    constructor (mandatory: bool, exponent: Leaf, mantissa: Leaf)
      requires exponent.kind == Int && mantissa.kind == Int && exponent.reset.Num? && mantissa.reset.Num?
      ensures Valid() && this.mandatory == mandatory && e.leaf == exponent && m.leaf == mantissa
      ensures Now() == Two(Undefined, 0, 0, Loaded(exponent), Loaded(mantissa))
      ensures fresh(e) && fresh(e.text) && fresh(m) && fresh(m.text)
    {
      this.mandatory, state, exp, mnt := mandatory, Undefined, 0, 0;
      e := new Cell(exponent);
      m := new Cell(mantissa);
    }

    /** fast_decode_decimal_individ */
    method Decode(buf: Buffer, pmap: Pmap) returns (status: Status)
      requires Valid() && buf.Valid() && pmap.Valid()
      requires {buf, buf.data, pmap, pmap.bytes} !! {this, e, e.text, m, m.text}
      modifies buf`start, pmap`bit, this, e, e.text, m, m.text
      ensures Valid() && buf.Valid() && pmap.Valid()
      ensures FollowsFlat(DecodePair(FastFlat.Pair(mandatory, e.leaf, m.leaf), old(Now()), pmap.Map(), old(pmap.bit),
                                     Arrived(buf), old(buf.start)),
                           status, Now(), pmap.bit, buf.start)
    {
      status := e.Decode(buf, pmap);
      if status != Success {
        return;
      }
      if e.state == Empty {
        state := Empty;
        return if mandatory then Invalid else Success;
      }
      if e.num > 63 || e.num < -63 {
        return Invalid;
      }
      status := m.Decode(buf, pmap);
      if status != Success {
        return;
      }
      state := Assigned;
      exp, mnt := e.num, m.num;
    }
  }

  /** A sequence within a sequence is never decoded. */
  datatype FlatRef = Whole(cell: Cell) | Individual(pair: Pair) | Nested(spec: Field, slot: FieldSlot)

  ghost function FlatObjects(f: FlatRef): set<object> {
    match f
    case Whole(c) => {c, c.text}
    case Individual(p) => {p, p.e, p.e.text, p.m, p.m.text}
    case Nested(_, _) => {}
  }

  ghost predicate ValidFlat(f: FlatRef)
    reads FlatObjects(f)
  {
    match f
    case Whole(c) => c.Valid()
    case Individual(p) => p.Valid()
    case Nested(spec, slot) => spec.Sequence? && slot.Many?
  }

  /** What the template says of the field. */
  ghost function FlatSpec(f: FlatRef): Field {
    match f
    case Whole(c) => Single(c.leaf)
    case Individual(p) => FastFlat.Pair(p.mandatory, p.e.leaf, p.m.leaf)
    case Nested(spec, _) => spec
  }

  ghost function FlatSlot(f: FlatRef): (s: FieldSlot)
    requires ValidFlat(f)
    reads FlatObjects(f)
    ensures TypedFlat(FlatSpec(f), s)
  {
    match f
    case Whole(c) => One(c.Now())
    case Individual(p) => p.Now()
    case Nested(_, slot) => slot
  }

  /** The switch over the types of fields, for a field of an element. */
  method DecodeElement(f: FlatRef, buf: Buffer, pmap: Pmap) returns (status: Status)
    requires ValidFlat(f) && buf.Valid() && pmap.Valid() && {buf, buf.data, pmap, pmap.bytes} !! FlatObjects(f)
    modifies buf`start, pmap`bit, FlatObjects(f)
    ensures ValidFlat(f) && buf.Valid() && pmap.Valid()
    ensures FollowsFlat(DecodeFlat(FlatSpec(f), old(FlatSlot(f)), pmap.Map(), old(pmap.bit), Arrived(buf),
                                   old(buf.start)),
                        status, FlatSlot(f), pmap.bit, buf.start)
  {
    match f
    case Whole(c) => status := c.Decode(buf, pmap);
    case Individual(p) => status := p.Decode(buf, pmap);
    case Nested(_, _) => status := Invalid;
  }
}
