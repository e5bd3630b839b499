/** fast_message_encode of lib/proto/fast_message.c as it works: fields that remember what they sent, a presence map
    and two buffers. */
module FastSender {
  import opened Digits
  import opened ByteBuffer
  import opened StopBit
  import opened PresenceMap
  import opened FastField
  import opened FieldEncoder
  import opened FastFlat
  import opened FastMessage
  import opened FastDecoder
  import opened FastEncoder
  import opened FastStream
  import opened FastReader
  import opened FastWriter
  import opened FastOutCell

  // ----- fields ---------------------------------------------------------------------------

  /** `text` is written behind `base`, exactly if there is room. */
  ghost predicate WroteTo(buf: Buffer, base: seq<byte>, text: seq<byte>, ok: bool)
    reads buf, buf.data
  {
    && buf.Valid() && (ok <==> |base| + |text| <= buf.data.Length)
    && (ok ==> buf.data[..buf.end] == base + text)
  }

  /** What encoding a field does to the buffer and to the map. */
  ghost predicate SendsField(buf: Buffer, pmap: Pmap, all: seq<bool>, base: seq<byte>, x: FieldSent, ok: bool,
                             prev: FieldPrev, now: FieldSlot)
    reads buf, buf.data, pmap, pmap.bytes
  {
    && buf.Valid() && pmap.Valid() && (ok ==> x.FieldSent?) && (x.FieldSent? ==> WroteTo(buf, base, x.bytes, ok))
    && (ok ==> prev == x.prev && now == x.now && pmap.Map() == MapOf(all + x.bits) && pmap.bit + 1 == |all| + |x.bits|)
  }

  ghost predicate SendsLeaf(buf: Buffer, pmap: Pmap, all: seq<bool>, base: seq<byte>, leaf: Leaf, x: Sent, ok: bool,
                            prev: Slot, now: Slot)
    reads buf, buf.data, pmap, pmap.bytes
  {
    && buf.Valid() && pmap.Valid() && (ok ==> x.Sent?) && (x.Sent? ==> WroteTo(buf, base, x.bytes, ok))
    && (ok ==> prev == x.prev && now == x.now
               && pmap.Map() == MapOf(all + Bits(leaf, x.bit)) && pmap.bit + 1 == |all| + |Bits(leaf, x.bit)|)
  }

  /** A decimal of two operators. */
  class OutPair {
    const mandatory: bool
    var state: State
    var exp: int
    var mnt: int
    const e: OutCell
    const m: OutCell

    ghost predicate Valid()
      reads this, e, e.text, e.textPrev, m, m.text, m.textPrev
    {
      && e.Valid() && m.Valid() && e.leaf.kind == Int && m.leaf.kind == Int && e != m
      && {e.text, e.textPrev} !! {m.text, m.textPrev}
    }

    ghost function Now(): FieldSlot
      requires Valid()
      reads this, e, e.text, e.textPrev, m, m.text, m.textPrev
    {
      Two(state, exp, mnt, e.Now(), m.Now())
    }

    ghost function Prev(): FieldPrev
      requires Valid()
      reads this, e, e.text, e.textPrev, m, m.text, m.textPrev
    {
      TwoPrev(e.Prev(), m.Prev())
    }

    constructor (mandatory: bool, exponent: Leaf, mantissa: Leaf)
      requires exponent.kind == Int && mantissa.kind == Int && Loadable(exponent) && Loadable(mantissa)
      ensures Valid() && this.mandatory == mandatory && e.leaf == exponent && m.leaf == mantissa
      ensures Now() == Two(Undefined, 0, 0, Loaded(exponent), Loaded(mantissa))
      ensures Prev() == TwoPrev(Loaded(exponent), Loaded(mantissa))
      ensures fresh(e) && fresh(e.text) && fresh(e.textPrev) && fresh(m) && fresh(m.text) && fresh(m.textPrev)
    {
      this.mandatory, state, exp, mnt := mandatory, Undefined, 0, 0;
      e := new OutCell(exponent);
      m := new OutCell(mantissa);
    }

    /** Exponent and mantissa are set to those of the decimal, unless it is empty. */
    method Prepare()
      requires Valid()
      modifies e`num, e`state, m`num, m`state
      ensures Valid() && e.Now() == ExponentOf(old(Now())) && m.Now() == MantissaOf(old(Now()))
      ensures Prev() == old(Prev())
    {
      if state != Empty {
        e.num, m.num := exp, mnt;
      }
      e.state, m.state := state, state;
    }

    method EncodeExponent(buf: Buffer, pmap: Pmap, ghost all: seq<bool>, ghost base: seq<byte>) returns (ok: bool)
      requires Valid() && buf.Valid() && pmap.Valid()
      requires {buf, buf.data, pmap, pmap.bytes} !! {this, e, e.text, e.textPrev, m, m.text, m.textPrev}
      requires buf.data != pmap.bytes
      requires pmap.Map() == MapOf(all) && pmap.bit + 1 == |all| && base == buf.data[..buf.end]
      modifies buf`end, buf.data, pmap`bit, pmap.bytes, e, e.text, e.textPrev
      ensures Valid() && m.Now() == old(m.Now()) && m.Prev() == old(m.Prev())
      ensures SendsLeaf(buf, pmap, all, base, e.leaf, EncodeLeaf(e.leaf, old(e.Prev()), old(e.Now())), ok, e.Prev(),
                        e.Now())
    {
      ok := e.Encode(buf, pmap, all);
    }

    method EncodeMantissa(buf: Buffer, pmap: Pmap, ghost all: seq<bool>, ghost base: seq<byte>) returns (ok: bool)
      requires Valid() && buf.Valid() && pmap.Valid()
      requires {buf, buf.data, pmap, pmap.bytes} !! {this, e, e.text, e.textPrev, m, m.text, m.textPrev}
      requires buf.data != pmap.bytes
      requires pmap.Map() == MapOf(all) && pmap.bit + 1 == |all| && base == buf.data[..buf.end]
      modifies buf`end, buf.data, pmap`bit, pmap.bytes, m, m.text, m.textPrev
      ensures Valid() && e.Now() == old(e.Now()) && e.Prev() == old(e.Prev())
      ensures SendsLeaf(buf, pmap, all, base, m.leaf, EncodeLeaf(m.leaf, old(m.Prev()), old(m.Now())), ok, m.Prev(),
                        m.Now())
    {
      ok := m.Encode(buf, pmap, all);
    }

    /** fast_encode_decimal_individ */
    method Encode(buf: Buffer, pmap: Pmap, ghost all: seq<bool>, ghost base: seq<byte>) returns (ok: bool)
      requires Valid() && buf.Valid() && pmap.Valid()
      requires {buf, buf.data, pmap, pmap.bytes} !! {this, e, e.text, e.textPrev, m, m.text, m.textPrev}
      requires buf.data != pmap.bytes
      requires pmap.Map() == MapOf(all) && pmap.bit + 1 == |all| && base == buf.data[..buf.end]
      modifies buf`end, buf.data, pmap`bit, pmap.bytes, this, e, e.text, e.textPrev, m, m.text, m.textPrev
      ensures Valid()
      ensures SendsField(buf, pmap, all, base, EncodePair(FastFlat.Pair(mandatory, e.leaf, m.leaf), old(Prev()),
                                                          old(Now())), ok, Prev(), Now())
    {
      ghost var f, prev, fs := FastFlat.Pair(mandatory, e.leaf, m.leaf), Prev(), Now();
      Prepare();
      ghost var x := EncodeLeaf(e.leaf, e.Prev(), e.Now());
      ghost var y := EncodeLeaf(m.leaf, m.Prev(), m.Now());
      ok := EncodeExponent(buf, pmap, all, base);
      PairSends(f, prev, fs, x, y);
      if !ok || e.state == Empty {
        return;
      }
      state := Assigned;
      ok := EncodeMantissa(buf, pmap, all + Bits(e.leaf, x.bit), base + x.bytes);
      if y.Sent? {
        BothParts(all, Bits(e.leaf, x.bit), Bits(m.leaf, y.bit));
        BothParts(base, x.bytes, y.bytes);
      }
    }
  }

  lemma BothParts<T>(a: seq<T>, b: seq<T>, c: seq<T>)
    ensures a + b + c == a + (b + c)
  {
  }

  /** The cases of an individual decimal. */
  lemma PairSends(f: Field, prev: FieldPrev, fs: FieldSlot, x: Sent, y: Sent)
    requires f.Pair? && TypedField(f, fs) && TypedPrev(f, prev)
    requires x == EncodeLeaf(f.exp, prev.e, ExponentOf(fs)) && y == EncodeLeaf(f.mnt, prev.m, MantissaOf(fs))
    ensures EncodePair(f, prev, fs) ==
      if x.Refused? then FieldRefused
      else if x.now.state == Empty then
        FieldSent(Bits(f.exp, x.bit), x.bytes, TwoPrev(x.prev, prev.m),
                  Two(fs.state, fs.exp, fs.mnt, x.now, MantissaOf(fs)))
      else if y.Refused? then FieldRefused
      else FieldSent(Bits(f.exp, x.bit) + Bits(f.mnt, y.bit), x.bytes + y.bytes, TwoPrev(x.prev, y.prev),
                     Two(Assigned, fs.exp, fs.mnt, x.now, y.now))
  {
  }

  /** The encoder supports no sequences. */
  datatype OutRef = Whole(cell: OutCell) | Individual(pair: OutPair) | Unsupported(spec: Field, slot: FieldSlot)

  ghost function Objects(f: OutRef): set<object> {
    match f
    case Whole(c) => {c, c.text, c.textPrev}
    case Individual(p) => {p, p.e, p.e.text, p.e.textPrev, p.m, p.m.text, p.m.textPrev}
    case Unsupported(_, _) => {}
  }

  ghost predicate ValidField(f: OutRef)
    reads Objects(f)
  {
    match f
    case Whole(c) => c.Valid()
    case Individual(p) => p.Valid()
    case Unsupported(spec, slot) => spec.Sequence? && TypedField(spec, slot)
  }

  ghost function SpecOf(f: OutRef): Field {
    match f
    case Whole(c) => Single(c.leaf)
    case Individual(p) => FastFlat.Pair(p.mandatory, p.e.leaf, p.m.leaf)
    case Unsupported(spec, _) => spec
  }

  ghost function ValueOf(f: OutRef): (s: FieldSlot)
    requires ValidField(f)
    reads Objects(f)
    ensures TypedField(SpecOf(f), s)
  {
    match f
    case Whole(c) => One(c.Now())
    case Individual(p) => p.Now()
    case Unsupported(_, slot) => slot
  }

  ghost function PrevOf(f: OutRef): (s: FieldPrev)
    requires ValidField(f)
    reads Objects(f)
    ensures TypedPrev(SpecOf(f), s)
  {
    match f
    case Whole(c) => OnePrev(c.Prev())
    case Individual(p) => p.Prev()
    case Unsupported(_, _) => NoPrev
  }

  /** The switch over the types of fields. */
  method EncodeOne(f: OutRef, buf: Buffer, pmap: Pmap, ghost all: seq<bool>, ghost base: seq<byte>) returns (ok: bool)
    requires ValidField(f) && buf.Valid() && pmap.Valid() && {buf, buf.data, pmap, pmap.bytes} !! Objects(f)
    requires buf.data != pmap.bytes
    requires pmap.Map() == MapOf(all) && pmap.bit + 1 == |all| && base == buf.data[..buf.end]
    modifies buf`end, buf.data, pmap`bit, pmap.bytes, Objects(f)
    ensures ValidField(f)
    ensures SendsField(buf, pmap, all, base, EncodeField(SpecOf(f), old(PrevOf(f)), old(ValueOf(f))), ok, PrevOf(f),
                       ValueOf(f))
  {
    match f
    case Whole(c) => ok := c.Encode(buf, pmap, all);
    case Individual(p) => ok := p.Encode(buf, pmap, all, base);
    case Unsupported(_, _) => ok := false;
  }

  /** The map goes out without its trailing zeros, its last byte with the stop bit. */
  method SendMap(buf: Buffer, pmap: Pmap) returns (ok: bool)
    requires buf.Valid() && pmap.Valid() && pmap.nrBytes == MAX_BYTES && Plain(pmap.Map()) && Trimmed(pmap.Map()) > 0
    requires buf.data != pmap.bytes
    modifies buf`end, buf.data, pmap`nrBytes
    ensures buf.Valid() && pmap.Valid() && Wrote(buf, MapText(old(pmap.Map())), ok)
  {
    ghost var map0, base := pmap.Map(), buf.data[..buf.end];
    var n := MAX_BYTES;
    assert map0[..n] == map0;
    while n > 0 && pmap.bytes[n - 1] == 0
      invariant 0 <= n <= MAX_BYTES && pmap.nrBytes == n && Trimmed(map0[..n]) == Trimmed(map0)
      modifies pmap`nrBytes
    {
      assert map0[..n][..n - 1] == map0[..n - 1] && map0[..n][n - 1] == pmap.bytes[n - 1];
      n := n - 1;
      pmap.nrBytes := pmap.nrBytes - 1;
    }
    assert n > 0 && n == Trimmed(map0) by {
      if n > 0 {
        assert map0[..n][n - 1] == pmap.bytes[n - 1];
      }
    }
    if buf.data.Length - buf.end < n {
      return false;
    }
    for i := 0 to n - 1
      invariant buf.Valid() && pmap.Valid() && buf.end == |base| + i && buf.data[..buf.end] == base + map0[..i]
    {
      assert map0[i] == pmap.bytes[i];
      buf.Put(pmap.bytes[i] % 128);
      assert map0[..i + 1] == map0[..i] + [map0[i]];
    }
    assert map0[n - 1] == pmap.bytes[n - 1];
    buf.Put(pmap.bytes[n - 1] + 128);
    BothParts(base, map0[..n - 1], [map0[n - 1] + 128]);
    return true;
  }

  // ----- messages -------------------------------------------------------------------------

  /** If the first `n` fields are sent, so are the first `k`, in no more bytes. */
  ghost predicate Fewer(fields: seq<Field>, prevs: seq<FieldPrev>, values: seq<FieldSlot>, k: nat, n: nat) {
    && TypedPrevs(fields, prevs) && TypedAll(fields, values) && k <= |fields| && n <= |fields|
    && var f, g := EncodeFields(fields, prevs, values, k), EncodeFields(fields, prevs, values, n);
       g.Fields? ==> f.Fields? && |f.bytes| <= |g.bytes|
  }

  lemma {:induction false} FewerBytes(fields: seq<Field>, prevs: seq<FieldPrev>, values: seq<FieldSlot>, k: nat, n: nat)
    requires TypedPrevs(fields, prevs) && TypedAll(fields, values) && k <= n <= |fields|
    ensures Fewer(fields, prevs, values, k, n)
    decreases n
  {
    if k < n {
      FewerBytes(fields, prevs, values, k, n - 1);
      assert EncodeFields(fields, prevs, values, n) == EncodeNext(fields, prevs, values, n);
    }
  }

  /** struct fast_message, to be sent: which field an object is part of, no object having two roles. */
  class Sender {
    const tid: nat
    const fields: seq<OutRef>
    const pmapBuf: Buffer
    const msgBuf: Buffer
    ghost const specs: seq<Field>
    ghost const owner: map<object, nat>

    ghost predicate FieldHolds(k: nat, prev: FieldPrev, value: FieldSlot)
      reads owner.Keys
    {
      && k < |fields| && k < |specs|
      && (forall o | o in Objects(fields[k]) :: o in owner && owner[o] == k)
      && ValidField(fields[k]) && PrevOf(fields[k]) == prev && ValueOf(fields[k]) == value
         && SpecOf(fields[k]) == specs[k]
    }

    /** The fields of the template, what they remember and what they hold. */
    ghost predicate FieldsHold(prevs: seq<FieldPrev>, values: seq<FieldSlot>)
      reads owner.Keys
    {
      && |specs| == |prevs| == |values| == |fields|
      && forall k {:trigger fields[k]} {:trigger prevs[k]} {:trigger values[k]} | 0 <= k < |fields| ::
         FieldHolds(k, prevs[k], values[k])
    }

    ghost predicate Valid()
      reads this, pmapBuf, msgBuf
    {
      && pmapBuf.Valid() && msgBuf.Valid() && pmapBuf != msgBuf && pmapBuf.data != msgBuf.data
      && {this, pmapBuf, pmapBuf.data, msgBuf, msgBuf.data} !! owner.Keys
    }

    constructor (tid: nat, fields: seq<OutRef>, pmapBuf: Buffer, msgBuf: Buffer, ghost specs: seq<Field>,
                 ghost owner: map<object, nat>)
      requires pmapBuf.Valid() && msgBuf.Valid() && pmapBuf != msgBuf && pmapBuf.data != msgBuf.data
      requires {pmapBuf, pmapBuf.data, msgBuf, msgBuf.data} !! owner.Keys
      ensures Valid() && this.tid == tid && this.fields == fields && this.pmapBuf == pmapBuf && this.msgBuf == msgBuf
      ensures this.specs == specs && this.owner == owner
    {
      this.tid, this.fields, this.pmapBuf, this.msgBuf, this.specs, this.owner := tid, fields, pmapBuf, msgBuf, specs,
        owner;
    }

    lemma TypedHere(prevs: seq<FieldPrev>, values: seq<FieldSlot>)
      requires FieldsHold(prevs, values)
      ensures TypedPrevs(specs, prevs) && TypedAll(specs, values)
    {
      forall k | 0 <= k < |specs| ensures TypedPrev(specs[k], prevs[k]) && TypedField(specs[k], values[k]) {
        assert FieldHolds(k, prevs[k], values[k]);
      }
    }

    /** The field with number `k`; the others are left as they are. */
    method EncodeNext(k: nat, pmap: Pmap, ghost all: seq<bool>, ghost base: seq<byte>, ghost prevs: seq<FieldPrev>,
                      ghost values: seq<FieldSlot>)
      returns (ok: bool, ghost prev: FieldPrev, ghost now: FieldSlot)
      requires Valid() && FieldsHold(prevs, values) && k < |fields| && pmap.Valid()
      requires {pmap, pmap.bytes} !! owner.Keys
      requires {pmap, pmap.bytes} !! {this, pmapBuf, pmapBuf.data, msgBuf, msgBuf.data}
      requires pmap.Map() == MapOf(all) && pmap.bit + 1 == |all| && base == msgBuf.data[..msgBuf.end]
      modifies msgBuf`end, msgBuf.data, pmap`bit, pmap.bytes, owner.Keys
      ensures Valid() && FieldsHold(prevs[k := prev], values[k := now])
      ensures TypedField(specs[k], values[k]) && TypedPrev(specs[k], prevs[k])
      ensures SendsField(msgBuf, pmap, all, base, EncodeField(specs[k], prevs[k], values[k]), ok, prev, now)
    {
      hide CoupledField;
      assert FieldHolds(k, prevs[k], values[k]);
      ok := EncodeOne(fields[k], msgBuf, pmap, all, base);
      prev, now := PrevOf(fields[k]), ValueOf(fields[k]);
      forall j {:trigger fields[j]} | 0 <= j < |fields|
        ensures FieldHolds(j, prevs[k := prev][j], values[k := now][j]) {
        assert old(FieldHolds(j, prevs[j], values[j]));
        assert j == k || Objects(fields[j]) !! Objects(fields[k]);
      }
    }

    /** What the first `k` fields send. */
    ghost function SentBy(k: nat, prevs: seq<FieldPrev>, values: seq<FieldSlot>): Fields
      requires TypedPrevs(specs, prevs) && TypedAll(specs, values) && k <= |specs|
    {
      EncodeFields(specs, prevs, values, k)
    }

    /** After `k` fields: what they sent, and fields and memory as the specification has them. */
    ghost predicate Partway(k: nat, pmap: Pmap, base: seq<byte>, prevs: seq<FieldPrev>, values: seq<FieldSlot>)
      reads msgBuf, msgBuf.data, pmap, pmap.bytes, owner.Keys
    {
      && TypedPrevs(specs, prevs) && TypedAll(specs, values) && k <= |specs| && pmap.Valid() && msgBuf.Valid()
      && var f := SentBy(k, prevs, values);
         && f.Fields? && FieldsHold(f.prevs + prevs[k..], f.now + values[k..])
         && msgBuf.data[..msgBuf.end] == base + f.bytes
         && pmap.Map() == MapOf([true] + f.bits) && pmap.bit == |f.bits|
    }

    /** The encoder refuses a field, or there is no room for all of them. */
    ghost predicate Cannot(base: seq<byte>, prevs: seq<FieldPrev>, values: seq<FieldSlot>) {
      && TypedPrevs(specs, prevs) && TypedAll(specs, values)
      && var f := SentBy(|specs|, prevs, values);
         f.Fields? ==> |base| + |f.bytes| > msgBuf.data.Length
    }

    lemma OneMore(k: nat, prevs: seq<FieldPrev>, values: seq<FieldSlot>)
      requires TypedPrevs(specs, prevs) && TypedAll(specs, values) && k < |specs|
      ensures SentBy(k + 1, prevs, values) == Append(SentBy(k, prevs, values),
                                                     EncodeField(specs[k], prevs[k], values[k]))
    {
      assert EncodeFields(specs, prevs, values, k + 1) == FastStream.EncodeNext(specs, prevs, values, k + 1);
    }

    lemma EndsHere(k: nat, prevs: seq<FieldPrev>, values: seq<FieldSlot>, base: seq<byte>)
      requires TypedPrevs(specs, prevs) && TypedAll(specs, values) && k <= |specs|
      ensures var g := SentBy(k, prevs, values);
        (g.Fields? ==> |base| + |g.bytes| > msgBuf.data.Length) ==> Cannot(base, prevs, values)
    {
      FewerBytes(specs, prevs, values, k, |specs|);
    }

    /** Field `k` sends `x`, which makes `g` of what was sent before. */
    ghost predicate SendsNext(k: nat, pmap: Pmap, base: seq<byte>, prevs: seq<FieldPrev>, values: seq<FieldSlot>,
                              x: FieldSent, ok: bool, prev: FieldPrev, now: FieldSlot)
      reads msgBuf, msgBuf.data, pmap, pmap.bytes, owner.Keys
    {
      && TypedPrevs(specs, prevs) && TypedAll(specs, values) && k < |specs|
      && var f := SentBy(k, prevs, values);
         && f.Fields? && SentBy(k + 1, prevs, values) == Append(f, x)
         && SendsField(msgBuf, pmap, [true] + f.bits, base + f.bytes, x, ok, prev, now)
         && FieldsHold((f.prevs + prevs[k..])[k := prev], (f.now + values[k..])[k := now])
    }

    method EncodeKth(k: nat, pmap: Pmap, ghost base: seq<byte>, ghost prevs: seq<FieldPrev>,
                     ghost values: seq<FieldSlot>)
      returns (ok: bool, ghost prev: FieldPrev, ghost now: FieldSlot)
      requires Valid() && k < |fields| && |specs| == |fields| && Partway(k, pmap, base, prevs, values)
      requires {pmap, pmap.bytes} !! owner.Keys
      requires {pmap, pmap.bytes} !! {this, pmapBuf, pmapBuf.data, msgBuf, msgBuf.data}
      modifies msgBuf`end, msgBuf.data, pmap`bit, pmap.bytes, owner.Keys
      ensures Valid() && exists x :: SendsNext(k, pmap, base, prevs, values, x, ok, prev, now)
    {
      ghost var f := SentBy(k, prevs, values);
      ok, prev, now := EncodeNext(k, pmap, [true] + f.bits, base + f.bytes, f.prevs + prevs[k..], f.now + values[k..]);
      OneMore(k, prevs, values);
      assert SendsNext(k, pmap, base, prevs, values, EncodeField(specs[k], prevs[k], values[k]), ok, prev, now);
    }

    lemma SendsMore(k: nat, pmap: Pmap, base: seq<byte>, prevs: seq<FieldPrev>, values: seq<FieldSlot>,
                    x: FieldSent, ok: bool, prev: FieldPrev, now: FieldSlot)
      requires SendsNext(k, pmap, base, prevs, values, x, ok, prev, now)
      ensures if ok then Partway(k + 1, pmap, base, prevs, values) else Cannot(base, prevs, values)
    {
      var f := SentBy(k, prevs, values);
      if ok {
        assert (f.prevs + prevs[k..])[k := prev] == f.prevs + [x.prev] + prevs[k + 1..];
        assert (f.now + values[k..])[k := now] == f.now + [x.now] + values[k + 1..];
        BothParts([true], f.bits, x.bits);
        BothParts(base, f.bytes, x.bytes);
      } else {
        EndsHere(k + 1, prevs, values, base);
      }
    }

    /** One round of the loop over the fields. */
    method EncodeRound(k: nat, pmap: Pmap, ghost base: seq<byte>, ghost prevs: seq<FieldPrev>,
                       ghost values: seq<FieldSlot>)
      returns (ok: bool)
      requires Valid() && k < |fields| && |specs| == |fields| && Partway(k, pmap, base, prevs, values)
      requires {pmap, pmap.bytes} !! owner.Keys
      requires {pmap, pmap.bytes} !! {this, pmapBuf, pmapBuf.data, msgBuf, msgBuf.data}
      modifies msgBuf`end, msgBuf.data, pmap`bit, pmap.bytes, owner.Keys
      ensures Valid() && if ok then Partway(k + 1, pmap, base, prevs, values) else Cannot(base, prevs, values)
    {
      ghost var prev, now;
      ok, prev, now := EncodeKth(k, pmap, base, prevs, values);
      ghost var x :| SendsNext(k, pmap, base, prevs, values, x, ok, prev, now);
      SendsMore(k, pmap, base, prevs, values, x, ok, prev, now);
    }

    /** The presence map of a message of which nothing is encoded yet. */
    method FirstBit() returns (pmap: Pmap)
      ensures fresh(pmap) && fresh(pmap.bytes) && pmap.Valid() && pmap.nrBytes == MAX_BYTES && pmap.bit == 0
      ensures pmap.Map() == MapOf([true])
    {
      pmap := new Pmap();
      pmap.nrBytes := MAX_BYTES;
      assert pmap.Map() == MapOf([]);
      MapMore([], true);
      var _ := pmap.Put(0);
      assert [] + [true] == [true];
    }

    /** The loop over the fields. */
    method EncodeAll(pmap: Pmap, ghost base: seq<byte>, ghost prevs: seq<FieldPrev>, ghost values: seq<FieldSlot>)
        returns (ok: bool)
      requires Valid() && FieldsHold(prevs, values) && pmap.Valid() && pmap.nrBytes == MAX_BYTES && pmap.bit == 0
      requires pmap.Map() == MapOf([true]) && base == msgBuf.data[..msgBuf.end]
      requires {pmap, pmap.bytes} !! owner.Keys
      requires {pmap, pmap.bytes} !! {this, pmapBuf, pmapBuf.data, msgBuf, msgBuf.data}
      modifies msgBuf`end, msgBuf.data, pmap`bit, pmap.bytes, owner.Keys
      ensures Valid() && pmap.nrBytes == MAX_BYTES
      ensures if ok then Partway(|specs|, pmap, base, prevs, values) else Cannot(base, prevs, values)
    {
      TypedHere(prevs, values);
      assert prevs == [] + prevs[0..] && values == [] + values[0..] && base == base + [] && [true] == [true] + [];
      assert SentBy(0, prevs, values) == Fields([], [], [], []);
      for k := 0 to |fields|
        invariant Valid() && pmap.nrBytes == MAX_BYTES && Partway(k, pmap, base, prevs, values)
      {
        ok := EncodeRound(k, pmap, base, prevs, values);
        if !ok {
          return;
        }
      }
      ok := true;
    }

    /** Exactly then a message is sent: no field is refused, and there is room in both buffers. */
    ghost predicate CanSend(f: Fields, pmapBase: seq<byte>, base: seq<byte>) {
      && f.Fields? && |base| + |UintText(tid) + f.bytes| <= msgBuf.data.Length
      && |pmapBase| + |MapPart(f.bits)| <= pmapBuf.data.Length
    }

    /** What is sent, and what the fields then hold and remember. */
    ghost predicate IsSent(f: Fields, pmapBase: seq<byte>, base: seq<byte>)
      reads msgBuf, msgBuf.data, pmapBuf, pmapBuf.data, owner.Keys
    {
      && pmapBuf.Valid() && msgBuf.Valid() && f.Fields? && FieldsHold(f.prevs, f.now)
      && msgBuf.data[..msgBuf.end] == base + (UintText(tid) + f.bytes)
      && pmapBuf.data[..pmapBuf.end] == pmapBase + MapPart(f.bits)
    }

    /** fast_message_encode */
    method Encode(ghost prevs: seq<FieldPrev>, ghost values: seq<FieldSlot>) returns (ok: bool)
      requires Valid() && FieldsHold(prevs, values)
      modifies pmapBuf`end, pmapBuf.data, msgBuf`end, msgBuf.data, owner.Keys
      ensures Valid() && TypedPrevs(specs, prevs) && TypedAll(specs, values)
      ensures var f := SentBy(|specs|, prevs, values);
        && (ok <==> CanSend(f, old(pmapBuf.data[..pmapBuf.end]), old(msgBuf.data[..msgBuf.end])))
        && (ok ==> IsSent(f, old(pmapBuf.data[..pmapBuf.end]), old(msgBuf.data[..msgBuf.end])))
    {
      TypedHere(prevs, values);
      ghost var base, f := msgBuf.data[..msgBuf.end], SentBy(|specs|, prevs, values);
      ok := TransferUint(msgBuf, tid);
      if !ok {
        return;
      }
      var pmap := FirstBit();
      ok := EncodeAll(pmap, base + UintText(tid), prevs, values);
      if !ok {
        return;
      }
      assert f.prevs + prevs[|specs|..] == f.prevs && f.now + values[|specs|..] == f.now;
      BothParts(base, UintText(tid), f.bytes);
      FirstBitIsSet(f.bits);
      ok := SendMap(pmapBuf, pmap);
    }

    /** Both buffers, one after the other, are the message. */
    lemma SentIsMessage(f: Fields)
      requires IsSent(f, [], [])
      ensures pmapBuf.data[..pmapBuf.end] + msgBuf.data[..msgBuf.end] == MessageText(tid, f)
    {
      assert [] + MapPart(f.bits) == MapPart(f.bits) && [] + (UintText(tid) + f.bytes) == UintText(tid) + f.bytes;
    }
  }
}
