/** A field of a FAST message as it is decoded in place: struct fast_field and the functions fast_decode_int,
    fast_decode_uint, fast_decode_ascii and fast_decode_decimal_atomic of lib/proto/fast_message.c, which share their
    switch over the operators. */
module FastCell {
  import opened Digits
  import opened ByteBuffer
  import opened StopBit
  import opened PresenceMap
  import opened FastField
  import opened FastFlat
  import opened FastMessage
  import opened FastReader

  const STRING_BYTES: nat := STRING_ROOM + 1
  const DELTA_BYTES: nat := DELTA_ROOM + 1

  /** strlen, where there is a zero */
  method Strlen(a: array<byte>, ghost n: nat) returns (len: nat)
    requires n < a.Length && a[n] == 0
    ensures len <= n && len == |Chars(a[..n])| && a[..len] == Chars(a[..n]) && a[len] == 0
  {
    len := 0;
    assert a[0..n] == a[..n];
    while a[len] != 0
      invariant len <= n && Chars(a[..n]) == a[..len] + Chars(a[len..n])
      decreases n - len
    {
      assert a[len..n][1..] == a[len + 1..n] && a[..len + 1] == a[..len] + [a[len]];
      len := len + 1;
    }
    assert Chars(a[len..n]) == [];
  }

  /** memcpy, memmove or strncpy */
  method CopyInto(a: array<byte>, at: nat, s: seq<byte>)
    requires at + |s| <= a.Length
    modifies a
    ensures a[..] == old(a[..at]) + s + old(a[at + |s|..])
  {
    for i := 0 to |s|
      invariant forall k | 0 <= k < a.Length :: a[k] == if at <= k < at + i then s[k - at] else old(a[k])
    {
      a[at + i] := s[i];
    }
  }

  /** The string `with` behind the first `keep` bytes. */
  method ReplaceEnd(a: array<byte>, keep: nat, with: seq<byte>)
    requires keep + |with| < a.Length
    modifies a
    ensures a[..keep + |with|] == old(a[..keep]) + with && a[keep + |with|] == 0
  {
    CopyInto(a, keep, with + [0]);
    ghost var now := old(a[..keep]) + (with + [0]);
    assert now == old(a[..keep]) + with + [0];
    assert a[..][..keep + |with| + 1] == now;
  }

  /** The string `with` in place of the first `gone` bytes of `n`. */
  method ReplaceFront(a: array<byte>, gone: nat, n: nat, with: seq<byte>)
    requires gone <= n < a.Length && a[n] == 0 && n + |with| - gone < a.Length
    modifies a
    ensures a[..n + |with| - gone] == with + old(a[gone..n]) && a[n + |with| - gone] == 0
  {
    ghost var was := a[..];
    var tail := a[gone..n + 1];
    CopyInto(a, |with|, tail);
    CopyInto(a, 0, with);
    FrontReplaced(was, gone, n, with, tail, a[..]);
  }

  lemma FrontReplaced(was: seq<byte>, gone: nat, n: nat, with: seq<byte>, tail: seq<byte>, now: seq<byte>)
    requires gone <= n < |was| && n + |with| - gone < |was| && was[n] == 0 && tail == was[gone..n + 1]
    requires now == with + (was[..|with|] + tail + was[|with| + |tail|..])[|with|..]
    ensures now[..n + |with| - gone] == with + was[gone..n] && now[n + |with| - gone] == 0
  {
    var mid := was[..|with|] + tail + was[|with| + |tail|..];
    TailStands(was[..|with|], tail, was[|with| + |tail|..], mid);
    FrontStands(with, tail, mid, now);
    assert tail[..n - gone] == was[gone..n];
  }

  lemma TailStands(x: seq<byte>, tail: seq<byte>, y: seq<byte>, mid: seq<byte>)
    requires mid == x + tail + y
    ensures mid[|x|..|x| + |tail|] == tail
  {
  }

  lemma FrontStands(with: seq<byte>, tail: seq<byte>, mid: seq<byte>, now: seq<byte>)
    requires tail != [] && |with| + |tail| <= |mid| && mid[|with|..|with| + |tail|] == tail
    requires now == with + mid[|with|..]
    ensures var n := |tail| - 1; now[..|with| + n] == with + tail[..n] && now[|with| + n] == tail[n]
  {
    assert mid[|with|..][..|tail|] == tail;
  }

  lemma OverlayStands(s: seq<byte>, was: seq<byte>, now: seq<byte>, len: nat)
    requires |s| <= |was| && len <= |was| && now == s + was[|s|..]
    ensures now[..if |s| < len then len else |s|] == Overlay(s, was[..len])
  {
    if |s| < len {
      assert was[..len][|s|..] == was[|s|..len];
    }
  }

  /** What a decoding function returns, the slot it leaves, and the cursor if it succeeds. */
  ghost predicate Follows(r: Step<Slot>, status: Status, slot: Slot, start: nat) {
    match r
    case Done(s, n) => status == Success && slot == s && start == n
    case Wait(s) => status == Partial && slot == s
    case Garbled => status == Invalid
  }

  class Cell {
    const leaf: Leaf
    var state: State
    var num: int
    const text: array<byte>
    /** So many bytes of `text` are the string as it was read, which the source knows by its zero. */
    var len: nat
    var exp: int
    var mnt: int

    ghost predicate Valid()
      reads this, text
    {
      && Fits(leaf.reset, leaf.kind) && (leaf.reset.Str? ==> |leaf.reset.s| < STRING_BYTES)
      && len < text.Length == STRING_BYTES
      && (leaf.kind == Ascii && leaf.op == Delta ==> text[len] == 0)
    }

    ghost function Value(): (v: Value)
      requires Valid()
      reads this, text
      ensures Fits(v, leaf.kind)
    {
      match leaf.kind
      case Ascii => Str(text[..len])
      case Decimal => Dec(exp, mnt)
      case _ => Num(num)
    }

    ghost function Now(): (s: Slot)
      requires Valid()
      reads this, text
      ensures Typed(leaf, s)
    {
      Slot(state, Value())
    }

    /** As fast_reset_init leaves it: a value of the template is there from the start. */
    constructor (leaf: Leaf)
      requires Fits(leaf.reset, leaf.kind) && (leaf.reset.Str? ==> |leaf.reset.s| < STRING_BYTES)
      ensures Valid() && this.leaf == leaf && fresh(text) && Now() == Loaded(leaf)
    {
      this.leaf, state, num, len, exp, mnt := leaf, Undefined, 0, 0, 0, 0;
      text := new byte[STRING_BYTES](_ => 0);
      new;
      if leaf.hasReset {
        Reset();
      }
      assert text[..0] == [];
    }

    /** A number from the wire. */
    method ReadNumber(buf: Buffer) returns (status: Status)
      requires Valid() && buf.Valid() && (leaf.kind == Int || leaf.kind == Uint)
      modifies buf`start, `state, `num
      ensures Valid() && buf.Valid()
      ensures Follows(FastField.ReadNumber(leaf, old(Now()), Arrived(buf), old(buf.start)), status, Now(), buf.start)
    {
      var n: int;
      if leaf.kind == Uint {
        status, n := ParseUint(buf);
      } else {
        status, n := ParseInt(buf);
      }
      if status != Success {
        return;
      }
      num := n;
      state := Assigned;
      if !leaf.mandatory {
        if num == 0 {
          state := Empty;
        } else if num > 0 {
          num := num - 1;
        }
      }
    }

    /** A string from the wire. */
    method ReadText(buf: Buffer) returns (status: Status)
      requires Valid() && buf.Valid() && leaf.kind == Ascii && leaf.op != Delta && buf.data != text
      modifies buf`start, `state, `len, text
      ensures Valid() && buf.Valid()
      ensures Follows(FastField.ReadString(leaf, old(Now()), Arrived(buf), old(buf.start)), status, Now(), buf.start)
    {
      ghost var t, was := TextFrom(Arrived(buf), buf.start, STRING_ROOM, []), text[..];
      var n;
      status, n := ParseString(buf, text);
      if status == Partial {
        len := if n < len then len else n;
        OverlayStands(t.s, was, text[..], old(len));
        assert text[..][..len] == text[..len];
      }
      if status != Success {
        return;
      }
      len := n;
      state := Assigned;
      if !leaf.mandatory && n == 1 && text[0] == 0 {
        state := Empty;
      }
    }

    /** Exponent and mantissa from the wire, in place of the old ones or added to them. */
    method ReadDecimal(buf: Buffer, add: bool) returns (status: Status)
      requires Valid() && buf.Valid() && leaf.kind == Decimal
      modifies buf`start, `state, `exp, `mnt
      ensures Valid() && buf.Valid()
      ensures Follows(FastField.ReadDecimal(leaf, old(Now()), if add then old(Value()) else Dec(0, 0),
                                            Arrived(buf), old(buf.start)),
                      status, Now(), buf.start)
    {
      var e;
      status, e := ParseInt(buf);
      if status == Success {
        status := AfterExponent(buf, e, add);
      }
    }

    method AfterExponent(buf: Buffer, read: int, add: bool) returns (status: Status)
      requires Valid() && buf.Valid() && leaf.kind == Decimal
      modifies buf`start, `state, `exp, `mnt
      ensures Valid() && buf.Valid()
      ensures Follows(DecimalOn(leaf, old(Now()), if add then old(Value()) else Dec(0, 0),
                                Got(read, old(buf.start)), Arrived(buf)),
                      status, Now(), buf.start)
    {
      var e := read;
      state := Assigned;
      if !leaf.mandatory {
        if e == 0 {
          state := Empty;
          return Success;
        } else if e > 0 {
          e := e - 1;
        }
      }
      if add {
        e := exp + e;
      }
      if e > 63 || e < -63 {
        return Invalid;
      }
      status := ReadMantissa(buf, e, if add then mnt else 0);
    }

    method ReadMantissa(buf: Buffer, e: int, base: int) returns (status: Status)
      requires Valid() && buf.Valid() && leaf.kind == Decimal && state == Assigned
      modifies buf`start, `exp, `mnt
      ensures Valid() && buf.Valid()
      ensures Follows(FastField.ReadMantissa(old(Now()), e, base, Arrived(buf), old(buf.start)), status, Now(),
                      buf.start)
    {
      var m;
      status, m := ParseInt(buf);
      if status == Success {
        exp, mnt := e, Wrap(base + m);
      }
    }

    /** A number that is the difference to the old one. */
    method AddNumber(buf: Buffer) returns (status: Status)
      requires Valid() && buf.Valid() && (leaf.kind == Int || leaf.kind == Uint)
      modifies buf`start, `state, `num
      ensures Valid() && buf.Valid()
      ensures Follows(DeltaNumber(leaf, old(Now()), Arrived(buf), old(buf.start)), status, Now(), buf.start)
    {
      var t;
      status, t := ParseInt(buf);
      if status == Success {
        AddTo(t);
      }
    }

    method AddTo(t: int)
      requires Valid() && (leaf.kind == Int || leaf.kind == Uint)
      modifies `state, `num
      ensures Valid() && Now() == Added(leaf, old(Now()), t)
    {
      state := Assigned;
      num := WrapKind(leaf.kind, num + t);
      if !leaf.mandatory {
        if t == 0 {
          state := Empty;
        } else if t > 0 {
          num := WrapKind(leaf.kind, num - 1);
        }
      }
    }

    /** A string that replaces so many characters at one end of the old one. */
    method SpliceText(buf: Buffer) returns (status: Status)
      requires Valid() && buf.Valid() && leaf.kind == Ascii && leaf.op == Delta && buf.data != text
      modifies buf`start, `state, `len, text
      ensures Valid() && buf.Valid()
      ensures Follows(DeltaString(leaf, old(Now()), Arrived(buf), old(buf.start)), status, Now(), buf.start)
    {
      var length;
      status, length := ParseInt(buf);
      if status != Success {
        return;
      }
      state := Assigned;
      if !leaf.mandatory {
        if length == 0 {
          state := Empty;
          return;
        } else if length > 0 {
          length := length - 1;
        }
      }
      status := SpliceNext(buf, length);
    }

    method SpliceNext(buf: Buffer, length: int) returns (status: Status)
      requires Valid() && buf.Valid() && leaf.kind == Ascii && leaf.op == Delta && buf.data != text && state == Assigned
      modifies buf`start, `len, text
      ensures Valid() && buf.Valid()
      ensures Follows(SpliceAt(old(Now()), length, Arrived(buf), old(buf.start)), status, Now(), buf.start)
    {
      var delta := new byte[DELTA_BYTES](_ => 0);
      var n;
      status, n := ParseString(buf, delta);
      if status != Success {
        return;
      }
      var lend := Strlen(delta, n);
      status := Splice(length, delta[..lend]);
    }

    method Splice(length: int, with: seq<byte>) returns (status: Status)
      requires Valid() && leaf.kind == Ascii && leaf.op == Delta
      modifies `len, text
      ensures Valid()
      ensures var was, gone := Chars(old(text[..len])), if length >= 0 then length else -(length + 1);
        if |was| < gone || |was| + |with| - gone + 1 > STRING_BYTES then status == Invalid
        else status == Success && text[..len] == Spliced(was, length, with)
    {
      var lenb := Strlen(text, len);
      ghost var was := text[..lenb];
      var gone := if length >= 0 then length else -(length + 1);
      if lenb < gone || lenb + |with| - gone + 1 > STRING_BYTES {
        return Invalid;
      }
      if length >= 0 {
        assert text[..lenb - length] == was[..lenb - length];
        ReplaceEnd(text, lenb - length, with);
      } else {
        assert text[gone..lenb] == was[gone..];
        ReplaceFront(text, gone, lenb, with);
      }
      len := lenb + |with| - gone;
      return Success;
    }

    /** The value of the template. */
    method Reset()
      requires Valid()
      modifies `num, `len, text, `exp, `mnt
      ensures Valid() && Value() == leaf.reset
    {
      match leaf.reset
      case Num(n) => num := n;
      case Dec(e, m) => exp, mnt := e, m;
      case Str(s) =>
        CopyInto(text, 0, s + [0]);
        len := |s|;
        assert text[..len] == s;
    }

    /** The bit is not set. */
    method Skip(ghost p: nat) returns (status: Status)
      requires Valid() && leaf.op != NoOp && leaf.op != Delta && leaf.op != Constant && Known(leaf)
      modifies `state, `num, `len, text, `exp, `mnt
      ensures Valid() && Follows(Absent(leaf, old(Now()), p), status, Now(), p)
    {
      if leaf.op == Default || state == Undefined {
        if leaf.hasReset {
          state := Assigned;
          Reset();
        } else if leaf.mandatory {
          return Invalid;
        } else {
          state := Empty;
        }
      } else if state == Empty {
        if leaf.mandatory {
          return Invalid;
        }
      } else if leaf.op == Increment {
        num := WrapKind(leaf.kind, num + 1);
      }
      return Success;
    }

    method Read(buf: Buffer) returns (status: Status)
      requires Valid() && buf.Valid() && buf.data != text && leaf.op != Delta
      modifies buf`start, `state, `num, `len, text, `exp, `mnt
      ensures Valid() && buf.Valid()
      ensures Follows(ReadValue(leaf, old(Now()), Arrived(buf), old(buf.start)), status, Now(), buf.start)
    {
      match leaf.kind
      case Ascii => status := ReadText(buf);
      case Decimal => status := ReadDecimal(buf, false);
      case _ => status := ReadNumber(buf);
    }

    method Add(buf: Buffer) returns (status: Status)
      requires Valid() && buf.Valid() && buf.data != text && leaf.op == Delta
      modifies buf`start, `state, `num, `len, text, `exp, `mnt
      ensures Valid() && buf.Valid()
      ensures Follows(ReadDelta(leaf, old(Now()), Arrived(buf), old(buf.start)), status, Now(), buf.start)
    {
      match leaf.kind
      case Ascii => status := SpliceText(buf);
      case Decimal => status := ReadDecimal(buf, true);
      case _ => status := AddNumber(buf);
    }

    /** A constant. */
    method Keep(pmap: Pmap, ghost p: nat) returns (status: Status)
      requires Valid() && pmap.Valid() && pmap.bytes != text && leaf.op == Constant
      modifies pmap`bit, `state, `num, `len, text, `exp, `mnt
      ensures Valid() && status == Success
      ensures var bit := BitOf(leaf, pmap.Map(), old(pmap.bit));
        Now() == Slot(if leaf.mandatory || bit then Assigned else Empty, if old(state) == Assigned then old(Value())
                      else leaf.reset)
      ensures pmap.bit == BitAfter(leaf, old(pmap.bit))
    {
      if state != Assigned {
        Reset();
      }
      state := Assigned;
      if !leaf.mandatory {
        pmap.bit := pmap.bit + 1;
        var found := pmap.Has(pmap.bit);
        if !found {
          state := Empty;
        }
      }
      return Success;
    }

    /** Copy, increment and default look at their bit. */
    method ReadOrSkip(buf: Buffer, pmap: Pmap) returns (status: Status)
      requires Valid() && buf.Valid() && pmap.Valid() && buf.data != text && pmap.bytes != text
      requires leaf.op != NoOp && leaf.op != Delta && leaf.op != Constant && Known(leaf)
      modifies buf`start, pmap`bit, `state, `num, `len, text, `exp, `mnt
      ensures Valid() && buf.Valid() && pmap.bit == old(pmap.bit) + 1
      ensures Follows(if IsSet(pmap.Map(), pmap.bit) then ReadValue(leaf, old(Now()), Arrived(buf), old(buf.start))
                      else Absent(leaf, old(Now()), old(buf.start)), status, Now(), buf.start)
    {
      pmap.bit := pmap.bit + 1;
      var found := pmap.Has(pmap.bit);
      if found {
        status := Read(buf);
      } else {
        status := Skip(buf.start);
      }
    }

    /** The switch over the operators. */
    method Decode(buf: Buffer, pmap: Pmap) returns (status: Status)
      requires Valid() && buf.Valid() && pmap.Valid() && buf.data != text && pmap.bytes != text
      modifies buf`start, pmap`bit, `state, `num, `len, text, `exp, `mnt
      ensures Valid() && buf.Valid()
      ensures Follows(DecodeLeaf(leaf, old(Now()), BitOf(leaf, pmap.Map(), old(pmap.bit)), Arrived(buf),
                                 old(buf.start)),
                      status, Now(), buf.start)
      ensures status == Success ==> pmap.bit == BitAfter(leaf, old(pmap.bit))
    {
      hide Arrived;
      ghost var bit := BitOf(leaf, pmap.Map(), pmap.bit);
      ghost var r := DecodeLeaf(leaf, Now(), bit, Arrived(buf), buf.start);
      if !Known(leaf) {
        return Invalid;
      }
      match leaf.op
      case NoOp => status := Read(buf);
      case Delta => status := Add(buf);
      case Constant => status := Keep(pmap, buf.start);
      case _ => status := ReadOrSkip(buf, pmap);
    }
  }
}
