/** fast_decode_sequence of lib/proto/fast_message.c as it works: nested loops over elements and their fields, which
    keep their counters, their map and the dictionary of the elements when the bytes run out. */
module FastGroup {
  import opened Wrappers
  import opened Digits
  import opened ByteBuffer
  import opened StopBit
  import opened PresenceMap
  import opened FastField
  import opened FastFlat
  import opened FastMessage
  import opened FastReader
  import opened FastCell
  import opened FastElement

  /** What decoding any field returns, and what it leaves; the cursor goes back to where what is incomplete begins. */
  ghost predicate FollowsField(r: FieldStep, status: Status, slot: FieldSlot, bit: Bit, start: nat) {
    match r
    case Ready(s, b, n) => status == Success && slot == s && bit == b && start == n
    case Later(s, n) => status == Partial && slot == s && start == n
    case Broken => status == Invalid
  }

  // ----- how far a part gets --------------------------------------------------------------

  /** Both loops, for use where they are not to be followed. */
  ghost function LoopsFrom(f: Field, fs: FieldSlot, d: seq<byte>, p: nat): Round
    requires p <= |d| && f.Sequence? && TypedMany(f, fs) && fs.decoded > 0
  {
    SeqRun(f, fs, d, p)
  }

  /** In the middle of a sequence. */
  ghost predicate InLoops(f: Field, fs: FieldSlot, d: seq<byte>, p: nat) {
    p <= |d| && f.Sequence? && TypedMany(f, fs) && fs.decoded > 0
  }

  ghost function LoopsLeft(f: Field, status: Status, fs: FieldSlot, d: seq<byte>, p: nat): Round
    requires InLoops(f, fs, d, p)
  {
    match status
    case Success => LoopsFrom(f, fs, d, p)
    case Partial => Held(fs, p)
    case Invalid => Lost
  }

  ghost predicate Loops(f: Field, s: FieldSlot, d: seq<byte>, p: nat, status: Status, t: FieldSlot, q: nat) {
    InLoops(f, s, d, p) && InLoops(f, t, d, q) && LoopsFrom(f, s, d, p) == LoopsLeft(f, status, t, d, q)
  }

  lemma LoopsStep(f: Field, s: FieldSlot, d: seq<byte>, p: nat, t: FieldSlot, q: nat)
    ensures InLoops(f, s, d, p) && RoundOf(f, s, d, p) == On(t, q) ==> Loops(f, s, d, p, Success, t, q)
    ensures InLoops(f, s, d, p) && RoundOf(f, s, d, p) == Held(t, q) ==> Loops(f, s, d, p, Partial, t, q)
    ensures InLoops(f, s, d, p) && RoundOf(f, s, d, p) == Lost && InLoops(f, t, d, q) ==>
      Loops(f, s, d, p, Invalid, t, q)
    ensures InLoops(f, s, d, p) && RoundOf(f, s, d, p) == Over(t, q) ==> LoopsFrom(f, s, d, p) == Over(t, q)
  {
    if InLoops(f, s, d, p) {
      RoundIsTyped(f, s, d, p);
      assert SeqRun(f, s, d, p) == SeqRunOn(f, s, d, p);
    }
  }

  lemma LoopsOn(f: Field, s: FieldSlot, d: seq<byte>, p: nat, t: FieldSlot, q: nat, status: Status, u: FieldSlot,
                r: nat)
    ensures Loops(f, s, d, p, Success, t, q) && Loops(f, t, d, q, status, u, r) ==> Loops(f, s, d, p, status, u, r)
  {
  }

  lemma LoopsNowhere(f: Field, s: FieldSlot, d: seq<byte>, p: nat)
    ensures InLoops(f, s, d, p) ==> Loops(f, s, d, p, Success, s, p)
  {
  }

  /** struct fast_sequence: its first element holds the dictionary of the fields, the others are copies. */
  class Group {
    const mandatory: bool
    const mapped: bool
    const length: Cell
    const pmap: Pmap
    const fields: seq<FlatRef>
    var decoded: nat
    var field: nat
    const rows: array2<Shown>

    /** What the template says of the fields, what they hold, what the elements show, and which field an object is part
        of. */
    ghost const specs: seq<Field>
    ghost var work: seq<FieldSlot>
    ghost var shown: seq<seq<Shown>>
    ghost const owner: map<object, nat>

    ghost predicate FieldHolds(k: nat)
      requires k < |fields|
      reads `work, owner.Keys
    {
      && k < |work| && k < |specs| && (forall o | o in FlatObjects(fields[k]) :: o in owner && owner[o] == k)
      && ValidFlat(fields[k]) && FlatSlot(fields[k]) == work[k] && FlatSpec(fields[k]) == specs[k]
    }

    ghost predicate FieldsHold()
      reads `work, owner.Keys
    {
      && |specs| == |work| == |fields|
      && forall k | 0 <= k < |fields| :: FieldHolds(k)
    }

    ghost predicate RowsShow()
      reads `shown, rows
    {
      && rows.Length0 == ELEMENTS && rows.Length1 == |fields| && TypedRows(|fields|, shown)
      && forall j, k | 0 <= j < ELEMENTS && 0 <= k < |fields| :: rows[j, k] == shown[j][k]
    }

    ghost predicate Apart() {
      {this, length, length.text, pmap, pmap.bytes, rows} !! owner.Keys && length.text != pmap.bytes
    }

    /** The objects of a sequence. */
    ghost function Objects(): set<object> {
      {this, length, length.text, pmap, pmap.bytes, rows} + owner.Keys
    }

    ghost predicate Valid()
      reads this, length, length.text, pmap, rows, owner.Keys
    {
      && FieldsHold() && RowsShow() && Apart() && length.Valid() && pmap.Valid() && length.leaf.kind == Uint
      && field <= |fields| && (mapped && !pmap.valid ==> field == 0) && (pmap.valid ==> mapped && decoded > 0)
      && (!mapped ==> pmap.nrBytes == 0)
      && (decoded == 0 ==> field == 0) && (decoded > 0 ==> decoded <= length.num < ELEMENTS)
    }

    ghost function Spec(): Field {
      Sequence(mandatory, length.leaf, mapped, specs)
    }

    ghost function Now(): (s: FieldSlot)
      requires Valid()
      reads this, length, length.text, pmap, pmap.bytes, rows, owner.Keys
      ensures s.Many? && TypedMany(Spec(), s)
    {
      TypedNow();
      var bit: Bit := if pmap.valid then pmap.bit else -1;
      Many(length.Now(), if pmap.valid then Some(pmap.Map()) else None, bit, decoded, field, work, shown)
    }

    lemma TypedNow()
      requires Valid()
      ensures TypedWork(specs, work)
    {
      forall k | 0 <= k < |specs| ensures TypedFlat(specs[k], work[k]) {
        assert FieldHolds(k);
      }
    }

    /** As the template loader leaves it: nothing decoded, every object part of one field. */
    constructor (mandatory: bool, mapped: bool, length: Leaf, fields: seq<FlatRef>, ghost specs: seq<Field>,
                 ghost work: seq<FieldSlot>, ghost owner: map<object, nat>)
      requires length.kind == Uint && length.reset.Num? && |specs| == |work| == |fields|
      requires forall k {:trigger fields[k]} | 0 <= k < |fields| ::
        && (forall o | o in FlatObjects(fields[k]) :: o in owner && owner[o] == k)
        && ValidFlat(fields[k]) && FlatSlot(fields[k]) == work[k] && FlatSpec(fields[k]) == specs[k]
      ensures Valid() && Spec() == Sequence(mandatory, length, mapped, specs) && fresh(Objects() - owner.Keys)
      ensures this.owner == owner
      ensures Now() == Many(Loaded(length), None, -1, 0, 0, work,
                            seq(ELEMENTS, _ => seq(|fields|, _ => Shown(Undefined, Num(0)))))
    {
      hide ValidFlat, FlatSlot, FlatSpec, FlatObjects;
      this.mandatory, this.mapped, this.fields, this.specs, this.work, this.owner := mandatory, mapped, fields, specs,
        work, owner;
      this.length := new Cell(length);
      pmap := new Pmap();
      decoded, field := 0, 0;
      rows := new Shown[ELEMENTS, |fields|]((_, _) => Shown(Undefined, Num(0)));
      shown := seq(ELEMENTS, _ => seq(|fields|, _ => Shown(Undefined, Num(0))));
      new;
      forall k | 0 <= k < |fields| ensures FieldHolds(k) {
        assert ValidFlat(fields[k]);
      }
    }

    /** The buffer is no part of the sequence. */
    ghost predicate Away(buf: Buffer) {
      {buf, buf.data} !! Objects()
    }

    /** The map of the next element, if elements have one. */
    method TakeMap(buf: Buffer) returns (status: Status)
      requires Valid() && buf.Valid() && Away(buf) && decoded > 0
      modifies buf`start, pmap, pmap.bytes
      ensures Valid() && buf.Valid() && (status == Success && mapped ==> pmap.valid)
      ensures Loops(Spec(), old(Now()), Arrived(buf), old(buf.start), status, Now(), buf.start)
    {
      ghost var s, d := Now(), Arrived(buf);
      var start := buf.start;
      if mapped && !pmap.valid {
        status := pmap.Parse(buf);
        if status == Success {
          pmap.valid, pmap.bit := true, -1;
        } else if status == Partial {
          buf.start := start;
        }
        LoopsStep(Spec(), s, d, start, Now(), buf.start);
      } else {
        LoopsNowhere(Spec(), s, d, start);
        return Success;
      }
    }

    /** The field with number `k`; the others are left as they are. */
    method DecodeKth(k: nat, buf: Buffer) returns (status: Status, ghost fs: FieldSlot)
      requires FieldsHold() && Apart() && pmap.Valid() && buf.Valid() && Away(buf) && k < |fields|
      modifies buf`start, pmap`bit, `work, owner.Keys
      ensures FieldsHold() && buf.Valid() && pmap.Valid() && work == old(work)[k := fs]
      ensures Arrived(buf) == old(Arrived(buf)) && pmap.Map() == old(pmap.Map()) && TypedFlat(specs[k], old(work)[k])
      ensures FollowsFlat(DecodeFlat(specs[k], old(work)[k], pmap.Map(), old(pmap.bit), Arrived(buf), old(buf.start)),
                          status, fs, pmap.bit, buf.start)
    {
      assert FieldHolds(k);
      status := DecodeElement(fields[k], buf, pmap);
      fs := FlatSlot(fields[k]);
      work := work[k := fs];
      forall j | 0 <= j < |fields| ensures FieldHolds(j) {
        assert old(FieldHolds(j));
        assert j == k || FlatObjects(fields[j]) !! FlatObjects(fields[k]);
      }
    }

    /** What an element shows of a field. */
    method Show(k: nat) returns (x: Shown)
      requires FieldsHold() && k < |fields|
      ensures x == ShownOf(work[k])
    {
      assert FieldHolds(k);
      match fields[k]
      case Whole(c) =>
        match c.leaf.kind {
          case Ascii => x := Shown(c.state, Str(c.text[..c.len]));
          case Decimal => x := Shown(c.state, Dec(c.exp, c.mnt));
          case _ => x := Shown(c.state, Num(c.num));
        }
      case Individual(p) => x := Shown(p.state, Dec(p.exp, p.mnt));
      case Nested(_, _) => x := Shown(Undefined, Num(0));
    }

    /** A decoded field is copied to the element and counted; if it is incomplete, cursor and map go back. */
    method Settle(buf: Buffer, status: Status, start: nat, bit: Bit)
      requires Valid() && buf.Valid() && Away(buf) && decoded > 0 && field < |fields| && (mapped ==> pmap.valid)
               && start <= buf.end
      modifies buf`start, pmap`bit, `field, `shown, rows
      ensures Valid() && buf.Valid() && Arrived(buf) == old(Arrived(buf))
      ensures buf.start == if status == Partial then start else old(buf.start)
      ensures var s := old(Now());
        s.Many? && Now() == match status
          case Success => FastMessage.Stored(Spec(), s, old(work)[old(field)], old(pmap.bit))
          case Partial => s.(bit := if mapped then bit else -1)
          case Invalid => s
      ensures status == Success ==> field == old(field) + 1
    {
      if status == Success {
        var x := Show(field);
        rows[decoded, field] := x;
        shown := shown[decoded := shown[decoded][field := x]];
        field := field + 1;
        assert work[old(field) := work[old(field)]] == work;
      } else if status == Partial {
        buf.start, pmap.bit := start, bit;
      }
    }

    /** The next field of the element. */
    method DecodeCurrent(buf: Buffer) returns (status: Status, ghost fs: FieldSlot)
      requires Valid() && buf.Valid() && Away(buf) && decoded > 0 && field < |fields| && (mapped ==> pmap.valid)
      modifies buf`start, pmap`bit, `work, owner.Keys
      ensures Valid() && buf.Valid() && Arrived(buf) == old(Arrived(buf))
      ensures var s := old(Now());
        && Now() == s.(work := s.work[field := fs], bit := if mapped then pmap.bit else -1)
        && TypedFlat(specs[field], s.work[field])
        && FollowsFlat(DecodeFlat(specs[field], s.work[field], OwnMap(s), old(pmap.bit), Arrived(buf), old(buf.start)),
                       status, fs, pmap.bit, buf.start)
    {
      assert !mapped ==> pmap.Map() == [];
      status, fs := DecodeKth(field, buf);
    }

    /** One field of an element. */
    method TakeField(buf: Buffer) returns (status: Status)
      requires Valid() && buf.Valid() && Away(buf) && decoded > 0 && field < |fields| && (mapped ==> pmap.valid)
      modifies buf`start, pmap`bit, `work, `field, `shown, rows, owner.Keys
      ensures Valid() && buf.Valid() && Arrived(buf) == old(Arrived(buf))
      ensures Loops(Spec(), old(Now()), Arrived(buf), old(buf.start), status, Now(), buf.start)
      ensures status == Success ==> field == old(field) + 1
    {
      ghost var s := Now();
      var start, bit := buf.start, pmap.bit;
      ghost var fs;
      status, fs := DecodeCurrent(buf);
      LoopsField(Spec(), s, Arrived(buf), start, status, fs, bit, pmap.bit, buf.start);
      ghost var bit' := pmap.bit;
      Settle(buf, status, start, bit);
      if status == Success {
        StoredTwice(Spec(), s, fs, if mapped then bit' else -1, bit');
      }
    }

    /** The element is complete; the counter stays at zero when the last one is. */
    method CloseElement(ghost d: seq<byte>, ghost p: nat) returns (more: bool)
      requires Valid() && decoded > 0 && field == |fields| && (mapped ==> pmap.valid) && p <= |d|
      modifies pmap`valid, `field, `decoded
      ensures Valid() && if more then decoded == old(decoded) + 1 else decoded == 0
      ensures if more then Loops(Spec(), old(Now()), d, p, Success, Now(), p)
              else LoopsFrom(Spec(), old(Now()), d, p) == Over(Now(), p)
    {
      ghost var s := Now();
      pmap.valid := false;
      field := 0;
      decoded := decoded + 1;
      more := decoded <= length.num;
      if !more {
        decoded := 0;
      }
      LoopsStep(Spec(), s, d, p, Now(), p);
    }

    /** The rest of an element. */
    method TakeElement(buf: Buffer) returns (status: Status)
      requires Valid() && buf.Valid() && Away(buf) && decoded > 0
      modifies buf`start, pmap, pmap.bytes, `work, `field, `shown, rows, owner.Keys
      ensures Valid() && buf.Valid() && Arrived(buf) == old(Arrived(buf)) && decoded == old(decoded)
      ensures Loops(Spec(), old(Now()), Arrived(buf), old(buf.start), status, Now(), buf.start)
      ensures status == Success ==> field == |fields| && (mapped ==> pmap.valid)
    {
      ghost var f, s, d, p := Spec(), Now(), Arrived(buf), buf.start;
      status := TakeMap(buf);
      if status != Success {
        return;
      }
      while field < |fields|
        invariant Valid() && buf.Valid() && Away(buf) && Arrived(buf) == d && decoded == old(decoded)
                  && (mapped ==> pmap.valid)
        invariant Spec() == f && Loops(f, s, d, p, Success, Now(), buf.start)
      {
        ghost var t, q := Now(), buf.start;
        status := TakeField(buf);
        LoopsOn(f, s, d, p, t, q, status, Now(), buf.start);
        if status != Success {
          return;
        }
      }
      return Success;
    }

    /** All elements. */
    method TakeElements(buf: Buffer) returns (status: Status)
      requires Valid() && buf.Valid() && Away(buf) && decoded > 0
      modifies buf`start, pmap, pmap.bytes, `work, `field, `decoded, `shown, rows, owner.Keys
      ensures Valid() && buf.Valid() && Arrived(buf) == old(Arrived(buf))
      ensures match LoopsFrom(Spec(), old(Now()), Arrived(buf), old(buf.start))
        case Over(t, q) => status == Success && Now() == t && buf.start == q
        case Held(t, q) => status == Partial && Now() == t && buf.start == q
        case Lost => status == Invalid
    {
      ghost var f, s, d, p := Spec(), Now(), Arrived(buf), buf.start;
      LoopsNowhere(f, s, d, p);
      while true
        invariant Valid() && buf.Valid() && Away(buf) && Arrived(buf) == d && decoded > 0
        invariant Spec() == f && Loops(f, s, d, p, Success, Now(), buf.start)
        decreases ELEMENTS - decoded
      {
        ghost var t, q := Now(), buf.start;
        status := TakeElement(buf);
        LoopsOn(f, s, d, p, t, q, status, Now(), buf.start);
        if status != Success {
          return;
        }
        t := Now();
        var more := CloseElement(d, buf.start);
        if !more {
          return;
        }
        LoopsOn(f, s, d, p, t, buf.start, Success, Now(), buf.start);
      }
    }

    /** The length, if it is not read yet; a sequence without elements is complete. */
    method TakeLength(buf: Buffer, outer: Pmap) returns (status: Status)
      requires Valid() && buf.Valid() && outer.Valid() && {buf, buf.data, outer, outer.bytes} !! Objects()
      requires decoded == 0
      modifies buf`start, outer`bit, length, length.text, `decoded
      ensures Valid() && buf.Valid() && outer.Valid() && Arrived(buf) == old(Arrived(buf))
      ensures var r := DecodeLeaf(length.leaf, old(length.Now()), BitOf(length.leaf, outer.Map(), old(outer.bit)),
                                  Arrived(buf), old(buf.start));
        if status == Success && decoded > 0 then
          && r.Done? && r.next == buf.start && r.slot.state != Empty && 1 <= r.slot.value.n < ELEMENTS
          && Now() == old(Now()).(count := r.slot, decoded := 1) && outer.bit == BitAfter(length.leaf, old(outer.bit))
        else
          FollowsField(ManyOn(Spec(), old(Now()), r, BitAfter(length.leaf, old(outer.bit)), Arrived(buf),
                              old(buf.start)),
                       status, Now(), outer.bit, buf.start)
    {
      var start := buf.start;
      status := length.Decode(buf, outer);
      if status != Success {
        if status == Partial {
          buf.start := start;
        }
        return;
      }
      if length.state == Empty {
        return if mandatory then Invalid else Success;
      }
      if length.num >= ELEMENTS {
        return Invalid;
      }
      if length.num >= 1 {
        decoded := 1;
      }
    }

    /** fast_decode_sequence */
    method Decode(buf: Buffer, outer: Pmap) returns (status: Status)
      requires Valid() && buf.Valid() && outer.Valid() && {buf, buf.data, outer, outer.bytes} !! Objects()
      modifies buf`start, outer`bit, Objects()
      ensures Valid() && buf.Valid() && outer.Valid() && Arrived(buf) == old(Arrived(buf))
      ensures outer.Map() == old(outer.Map())
      ensures FollowsField(DecodeMany(Spec(), old(Now()), outer.Map(), old(outer.bit), Arrived(buf), old(buf.start)),
                           status, Now(), outer.bit, buf.start)
    {
      if decoded == 0 {
        status := TakeLength(buf, outer);
        if status != Success || decoded == 0 {
          return;
        }
      }
      status := TakeElements(buf);
    }
  }

  /** What decoding a field of an element says of the loops. */
  lemma LoopsField(f: Field, s: FieldSlot, d: seq<byte>, p: nat, status: Status, fs: FieldSlot, from: Bit, bit: Bit,
                   q: nat)
    requires InLoops(f, s, d, p) && s.field < |f.elements| && !(f.mapped && s.pmap.None?)
             && (f.mapped ==> from == s.bit)
    requires TypedFlat(f.elements[s.field], s.work[s.field])
    ensures FollowsFlat(DecodeFlat(f.elements[s.field], s.work[s.field], OwnMap(s), from, d, p), status, fs, bit, q) ==>
      match status
      case Success => Loops(f, s, d, p, status, FastMessage.Stored(f, s, fs, bit), q)
      case Partial => Loops(f, s, d, p, status, s.(work := s.work[s.field := fs]), p)
      case Invalid => forall t, r | InLoops(f, t, d, r) :: Loops(f, s, d, p, status, t, r)
  {
    if !f.mapped {
      NoMapNoBits(f.elements[s.field], s.work[s.field], from, s.bit, d, p);
    }
    RoundIsTyped(f, s, d, p);
    assert SeqRun(f, s, d, p) == SeqRunOn(f, s, d, p);
  }

  lemma StoredTwice(f: Field, s: FieldSlot, fs: FieldSlot, a: Bit, b: Bit)
    requires f.Sequence? && TypedMany(f, s) && s.decoded > 0 && s.field < |f.elements|
    requires TypedFlat(f.elements[s.field], fs) && TypedMany(f, s.(work := s.work[s.field := fs], bit := a))
    ensures FastMessage.Stored(f, s.(work := s.work[s.field := fs], bit := a), fs, b) == FastMessage.Stored(f, s, fs, b)
  {
    assert s.work[s.field := fs][s.field := fs] == s.work[s.field := fs];
  }

  /** Without a map it does not matter which bit is asked for. */
  lemma NoMapNoBits(f: Field, s: FieldSlot, a: Bit, b: Bit, d: seq<byte>, p: nat)
    requires p <= |d| && TypedFlat(f, s)
    ensures var r, w := DecodeFlat(f, s, [], a, d, p), DecodeFlat(f, s, [], b, d, p);
      if r.Ready? then w.Ready? && w.slot == r.slot && w.next == r.next else w == r
  {
  }

  // ----- any field ------------------------------------------------------------------------

  datatype FieldRef = Flat(flat: FlatRef) | Repeated(group: Group)

  ghost function Objects(f: FieldRef): set<object> {
    match f
    case Flat(x) => FlatObjects(x)
    case Repeated(g) => g.Objects()
  }

  ghost predicate ValidField(f: FieldRef)
    reads Objects(f)
  {
    match f
    case Flat(x) => !x.Nested? && ValidFlat(x)
    case Repeated(g) => g.Valid()
  }

  /** What the template says of the field. */
  ghost function SpecOf(f: FieldRef): Field {
    match f
    case Flat(x) => FlatSpec(x)
    case Repeated(g) => g.Spec()
  }

  ghost function SlotOf(f: FieldRef): (s: FieldSlot)
    requires ValidField(f)
    reads Objects(f)
    ensures TypedField(SpecOf(f), s)
  {
    match f
    case Flat(x) => FlatSlot(x)
    case Repeated(g) => g.Now()
  }

  /** The switch over the types of fields. */
  method DecodeOne(f: FieldRef, buf: Buffer, pmap: Pmap) returns (status: Status)
    requires ValidField(f) && buf.Valid() && pmap.Valid() && {buf, buf.data, pmap, pmap.bytes} !! Objects(f)
    modifies buf`start, pmap`bit, Objects(f)
    ensures ValidField(f) && buf.Valid() && pmap.Valid()
    ensures FollowsField(DecodeField(SpecOf(f), old(SlotOf(f)), pmap.Map(), old(pmap.bit), Arrived(buf),
                                     old(buf.start)),
                         status, SlotOf(f), pmap.bit, buf.start)
  {
    var start := buf.start;
    match f
    case Flat(x) =>
      status := DecodeElement(x, buf, pmap);
      if status == Partial {
        buf.start := start;
      }
    case Repeated(g) => status := g.Decode(buf, pmap);
  }
}
