/** A field of a FAST message as it is encoded in place: fast_encode_int, fast_encode_uint, fast_encode_string and
    fast_encode_decimal_atomic of lib/proto/fast_message.c, which share their switch over the operators. */
module FastOutCell {
  import opened Digits
  import opened ByteBuffer
  import opened StopBit
  import opened PresenceMap
  import opened FastField
  import opened FieldEncoder
  import opened FastFlat
  import opened FastMessage
  import opened FastEncoder
  import opened FastReader
  import opened FastCell
  import opened FastWriter

  lemma {:induction false} CharsStop(s: seq<byte>, n: nat)
    requires n < |s| && s[n] == 0
    ensures Chars(s) == Chars(s[..n])
  {
    if n > 0 && s[0] != 0 {
      CharsStop(s[1..], n - 1);
      assert s[1..][..n - 1] == s[..n][1..];
    }
  }

  lemma {:induction false} CharsWhole(s: seq<byte>, t: seq<byte>)
    requires 0 !in s
    ensures Chars(s + [0] + t) == s
  {
    var u := s + [0] + t;
    if s != [] {
      CharsWhole(s[1..], t);
      assert u[1..] == s[1..] + [0] + t;
    }
  }

  /** An array that holds a string of C. */
  ghost predicate IsText(a: array<byte>)
    reads a
  {
    a.Length == STRING_BYTES && 0 in a[..]
  }

  /** The string, up to its zero. */
  method TextOf(a: array<byte>) returns (s: seq<byte>)
    requires IsText(a)
    ensures s == Chars(a[..]) && |s| < a.Length && 0 !in s && s == a[..|s|] && a[|s|] == 0
  {
    ghost var n :| 0 <= n < a.Length && a[n] == 0;
    var len := Strlen(a, n);
    CharsStop(a[..], n);
    assert a[..][..n] == a[..n];
    return a[..len];
  }

  /** strcpy */
  method SetText(a: array<byte>, s: seq<byte>)
    requires IsText(a) && 0 !in s && |s| < STRING_BYTES
    modifies a
    ensures IsText(a) && Chars(a[..]) == s
  {
    ghost var tail := a[|s| + 1..];
    CopyInto(a, 0, s + [0]);
    assert a[..] == s + [0] + tail;
    CharsWhole(s, tail);
    assert a[|s|] == 0;
  }

  /** memcpy of a string with its zero */
  method CopyText(to: array<byte>, from: array<byte>)
    requires IsText(to) && IsText(from) && to != from
    modifies to
    ensures IsText(to) && Chars(to[..]) == Chars(from[..])
  {
    var s := TextOf(from);
    SetText(to, s);
  }

  class OutCell {
    const leaf: Leaf
    var state: State
    var num: int
    const text: array<byte>
    var exp: int
    var mnt: int
    /** What was sent last. */
    var statePrev: State
    var numPrev: int
    const textPrev: array<byte>
    var expPrev: int
    var mntPrev: int

    ghost predicate Valid()
      reads this, text, textPrev
    {
      Fits(leaf.reset, leaf.kind) && text != textPrev && IsText(text) && IsText(textPrev)
    }

    ghost function Value(): (v: Value)
      requires Valid()
      reads this, text, textPrev
      ensures Fits(v, leaf.kind)
    {
      match leaf.kind
      case Ascii => Str(Chars(text[..]))
      case Decimal => Dec(exp, mnt)
      case _ => Num(num)
    }

    ghost function Last(): (v: Value)
      requires Valid()
      reads this, text, textPrev
      ensures Fits(v, leaf.kind)
    {
      match leaf.kind
      case Ascii => Str(Chars(textPrev[..]))
      case Decimal => Dec(expPrev, mntPrev)
      case _ => Num(numPrev)
    }

    ghost function Now(): (s: Slot)
      requires Valid()
      reads this, text, textPrev
      ensures Typed(leaf, s)
    {
      Slot(state, Value())
    }

    ghost function Prev(): (s: Slot)
      requires Valid()
      reads this, text, textPrev
      ensures Typed(leaf, s)
    {
      Slot(statePrev, Last())
    }

    /** As fast_reset_init leaves it: a value of the template is there from the start. */
    constructor (leaf: Leaf)
      requires Loadable(leaf)
      ensures Valid() && this.leaf == leaf && fresh(text) && fresh(textPrev) && Now() == Loaded(leaf)
      ensures Prev() == Loaded(leaf)
    {
      this.leaf, state, num, exp, mnt := leaf, Undefined, 0, 0, 0;
      statePrev, numPrev, expPrev, mntPrev := Undefined, 0, 0, 0;
      text := new byte[STRING_BYTES](_ => 0);
      textPrev := new byte[STRING_BYTES](_ => 0);
      new;
      assert text[..][0] == 0 && textPrev[..][0] == 0;
      if leaf.hasReset {
        match leaf.reset {
          case Num(n) => num, numPrev := n, n;
          case Dec(e, m) => exp, mnt, expPrev, mntPrev := e, m, e, m;
          case Str(s) =>
            SetText(text, s);
            SetText(textPrev, s);
        }
      }
    }

    /** Value and state become the previous ones. */
    method Remember()
      requires Valid()
      modifies `statePrev, `numPrev, textPrev, `expPrev, `mntPrev
      ensures Valid() && Now() == old(Now()) && Prev() == Now()
    {
      match leaf.kind {
        case Ascii => CopyText(textPrev, text);
        case Decimal => expPrev, mntPrev := exp, mnt;
        case _ => numPrev := num;
      }
      statePrev := state;
    }

    /** One further from zero, if it may be missing. */
    method Lift(n: int) returns (m: int)
      ensures m == Lifted(leaf, n)
    {
      m := n;
      if !leaf.mandatory && m >= 0 {
        m := m + 1;
      }
    }

    /** The label `transfer`, for a value that is sent as it is. */
    method SendValue(buf: Buffer) returns (ok: bool)
      requires Valid() && buf.Valid() && buf.data != text && buf.data != textPrev
      modifies buf`end, buf.data, `statePrev, `numPrev, textPrev, `expPrev, `mntPrev
      ensures Valid() && buf.Valid() && Now() == old(Now()) && Prev() == Now()
      ensures Wrote(buf, ValueText(leaf, Value()), ok)
    {
      Remember();
      match leaf.kind
      case Ascii =>
        var s := TextOf(text);
        ok := TransferString(buf, s);
      case Decimal =>
        var e := Lift(exp);
        ok := SendDecimal(buf, Wrap(e), mnt);
      case Uint =>
        var n := Lift(num);
        ok := TransferUint(buf, n % 0x1_0000_0000_0000_0000);
      case Int =>
        var n := Lift(num);
        ok := TransferInt(buf, Wrap(n));
    }

    method SendDecimal(buf: Buffer, e: int, m: int) returns (ok: bool)
      requires buf.Valid()
      modifies buf`end, buf.data
      ensures buf.Valid() && Wrote(buf, IntText(e) + IntText(m), ok)
    {
      ghost var base := buf.data[..buf.end];
      ok := TransferInt(buf, e);
      if ok {
        ok := TransferInt(buf, m);
        assert base + IntText(e) + IntText(m) == base + (IntText(e) + IntText(m));
      }
    }

    /** The label `transfer`, for the difference to the previous value. */
    method SendDelta(buf: Buffer) returns (ok: bool)
      requires Valid() && buf.Valid() && buf.data != text && buf.data != textPrev && leaf.kind != Ascii
      modifies buf`end, buf.data, `statePrev, `numPrev, textPrev, `expPrev, `mntPrev
      ensures Valid() && buf.Valid() && Now() == old(Now()) && Prev() == Now()
      ensures Wrote(buf, DeltaText(leaf, old(Last()), Value()), ok)
    {
      if leaf.kind == Decimal {
        var e := Lift(Wrap(exp - expPrev));
        var m := Wrap(mnt - mntPrev);
        Remember();
        ok := SendDecimal(buf, Wrap(e), m);
      } else {
        var n := Lift(Wrap(num - numPrev));
        Remember();
        ok := TransferInt(buf, Wrap(n));
      }
    }

    /** The label `empty` */
    method SendNone(buf: Buffer) returns (ok: bool)
      requires Valid() && buf.Valid() && buf.data != text && buf.data != textPrev && state == Empty
      modifies buf`end, buf.data, `num, text, `statePrev, `numPrev, textPrev, `expPrev, `mntPrev
      ensures Valid() && buf.Valid() && Wrote(buf, NONE, ok)
      ensures Prev() == Slot(Empty, old(Last()))
      ensures Now() == Slot(Empty, if leaf.kind == Decimal then old(Value()) else old(Last()))
    {
      match leaf.kind
      case Decimal =>
        statePrev := state;
        ok := TransferInt(buf, 0);
      case Ascii =>
        CopyText(text, textPrev);
        Remember();
        ok := TransferNull(buf);
      case Int =>
        num := numPrev;
        Remember();
        ok := TransferInt(buf, 0);
      case Uint =>
        num := numPrev;
        Remember();
        if leaf.op == Delta {
          ok := TransferInt(buf, 0);
        } else {
          ok := TransferUint(buf, 0);
        }
    }

    /** The value, or the difference, as the operator demands; `state` becomes assigned. */
    method Send(buf: Buffer) returns (ok: bool)
      requires Valid() && buf.Valid() && buf.data != text && buf.data != textPrev
               && (leaf.op == Delta ==> leaf.kind != Ascii)
      modifies buf`end, buf.data, `state, `statePrev, `numPrev, textPrev, `expPrev, `mntPrev
      ensures Valid() && buf.Valid() && Now() == Slot(Assigned, old(Value())) && Prev() == Now()
      ensures Wrote(buf, if leaf.op == Delta then DeltaText(leaf, old(Last()), old(Value()))
                    else ValueText(leaf, old(Value())), ok)
    {
      state := Assigned;
      if leaf.op == Delta {
        ok := SendDelta(buf);
      } else {
        ok := SendValue(buf);
      }
    }

    /** Whether the decoder can find the value by itself. */
    method IsExpected() returns (yes: bool)
      requires Valid() && (leaf.op == Copy || (leaf.op == Increment && (leaf.kind == Int || leaf.kind == Uint)))
      ensures yes <==>
        (state == Assigned && statePrev != Empty && Value() == if leaf.op == Copy then Last()
         else Num(WrapKind(leaf.kind, numPrev + 1)))
    {
      if state != Assigned || statePrev == Empty {
        return false;
      }
      if leaf.op == Increment {
        return num == WrapKind(leaf.kind, numPrev + 1);
      }
      match leaf.kind
      case Ascii =>
        var s := TextOf(text);
        var t := TextOf(textPrev);
        return s == t;
      case Decimal => return exp == expPrev && mnt == mntPrev;
      case _ => return num == numPrev;
    }

    /** What encoding a field does: bytes, bit and both dictionaries. */
    twostate predicate Sends(buf: Buffer, pmap: Pmap, all: seq<bool>, x: Sent, ok: bool)
      requires old(buf.Valid()) && buf.Valid() && Valid() && pmap.Valid()
      reads this, text, textPrev, buf, buf.data, pmap, pmap.bytes
    {
      && (ok ==> x.Sent?)
      && (x.Sent? ==> Wrote(buf, x.bytes, ok))
      && (ok ==> Prev() == x.prev && Now() == x.now
                 && pmap.Map() == MapOf(all + Bits(leaf, x.bit)) && pmap.bit + 1 == |all| + |Bits(leaf, x.bit)|)
    }

    /** A constant is never sent; if it may be missing, a bit says whether it is there. */
    method EncodeConstant(buf: Buffer, pmap: Pmap, ghost all: seq<bool>) returns (ok: bool)
      requires Valid() && buf.Valid() && pmap.Valid() && pmap.bytes != text && pmap.bytes != textPrev
      requires pmap.bytes != buf.data
      requires leaf.op == Constant && pmap.Map() == MapOf(all) && pmap.bit + 1 == |all|
      modifies pmap`bit, pmap.bytes, `state
      ensures Valid() && buf.Valid() && pmap.Valid() && ok
      ensures Sends(buf, pmap, all, EncodeLeaf(leaf, old(Prev()), old(Now())), ok)
    {
      assert all + [] == all;
      if !leaf.mandatory {
        pmap.bit := pmap.bit + 1;
        MapMore(all, state != Empty);
        if state == Empty {
          return true;
        }
        var _ := pmap.Put(pmap.bit);
      }
      state := Assigned;
      return true;
    }

    /** No operator and delta use no bit. */
    method EncodeAlways(buf: Buffer, pmap: Pmap, ghost all: seq<bool>) returns (ok: bool)
      requires Valid() && buf.Valid() && pmap.Valid() && {buf.data, pmap.bytes} !! {text, textPrev}
      requires buf.data != pmap.bytes
      requires (leaf.op == NoOp || (leaf.op == Delta && leaf.kind != Ascii)) && pmap.Map() == MapOf(all)
               && pmap.bit + 1 == |all|
      modifies buf`end, buf.data, `state, `num, text, `statePrev, `numPrev, textPrev, `expPrev, `mntPrev
      ensures Valid() && buf.Valid() && Sends(buf, pmap, all, EncodeLeaf(leaf, old(Prev()), old(Now())), ok)
    {
      assert all + [] == all;
      if !leaf.mandatory && state == Empty {
        ok := SendNone(buf);
      } else {
        ok := Send(buf);
      }
    }

    /** Copy, increment and default send nothing where the decoder can go on by itself. */
    method SendUnlessExpected(buf: Buffer) returns (ok: bool, sent: bool)
      requires Valid() && buf.Valid() && buf.data != text && buf.data != textPrev
      requires leaf.op == Copy || leaf.op == Default
               || (leaf.op == Increment && (leaf.kind == Int || leaf.kind == Uint))
      modifies buf`end, buf.data, `state, `num, text, `statePrev, `numPrev, textPrev, `expPrev, `mntPrev
      ensures Valid() && buf.Valid()
      ensures var x := EncodeLeaf(leaf, old(Prev()), old(Now()));
        && (ok ==> x.Sent? && sent == x.bit && Prev() == x.prev && Now() == x.now)
           && (x.Sent? ==> Wrote(buf, x.bytes, ok))
    {
      sent := true;
      if state == Empty {
        if leaf.mandatory {
          return false, sent;
        }
        ok := SendNone(buf);
        return;
      }
      if leaf.op != Default {
        var expected := IsExpected();
        if expected {
          if leaf.op == Increment {
            numPrev := WrapKind(leaf.kind, numPrev + 1);
          }
          return true, false;
        }
      }
      ok := Send(buf);
    }

    /** ... and their bit says whether something was sent. */
    method EncodeWithBit(buf: Buffer, pmap: Pmap, ghost all: seq<bool>) returns (ok: bool)
      requires Valid() && buf.Valid() && pmap.Valid() && {buf.data, pmap.bytes} !! {text, textPrev}
      requires buf.data != pmap.bytes
      requires leaf.op == Copy || leaf.op == Default
               || (leaf.op == Increment && (leaf.kind == Int || leaf.kind == Uint))
      requires pmap.Map() == MapOf(all) && pmap.bit + 1 == |all|
      modifies buf`end, buf.data, pmap`bit, pmap.bytes, `state, `num, text, `statePrev, `numPrev, textPrev, `expPrev,
        `mntPrev
      ensures Valid() && buf.Valid() && pmap.Valid()
      ensures Sends(buf, pmap, all, EncodeLeaf(leaf, old(Prev()), old(Now())), ok)
    {
      pmap.bit := pmap.bit + 1;
      var sent;
      ok, sent := SendUnlessExpected(buf);
      MapMore(all, sent);
      if ok && sent {
        var _ := pmap.Put(pmap.bit);
      }
    }

    /** The switch over the operators. */
    method Encode(buf: Buffer, pmap: Pmap, ghost all: seq<bool>) returns (ok: bool)
      requires Valid() && buf.Valid() && pmap.Valid() && {buf.data, pmap.bytes} !! {text, textPrev}
      requires buf.data != pmap.bytes
      requires pmap.Map() == MapOf(all) && pmap.bit + 1 == |all|
      modifies buf`end, buf.data, pmap`bit, pmap.bytes, `state, `num, text, `statePrev, `numPrev, textPrev, `expPrev,
        `mntPrev
      ensures Valid() && buf.Valid() && pmap.Valid()
      ensures Sends(buf, pmap, all, EncodeLeaf(leaf, old(Prev()), old(Now())), ok)
    {
      if leaf.kind == Ascii && (leaf.op == Increment || leaf.op == Delta) {
        return false;
      }
      if leaf.kind == Decimal && leaf.op == Increment {
        assert all + [] == all;
        return true;
      }
      match leaf.op
      case NoOp => ok := EncodeAlways(buf, pmap, all);
      case Delta => ok := EncodeAlways(buf, pmap, all);
      case Constant => ok := EncodeConstant(buf, pmap, all);
      case _ => ok := EncodeWithBit(buf, pmap, all);
    }
  }

  lemma MapMore(all: seq<bool>, b: bool)
    ensures MapOf(all + [b]) == if b then Set(MapOf(all), |all|) else MapOf(all)
  {
    assert (all + [b])[..|all|] == all;
  }
}
