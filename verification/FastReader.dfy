/** The readers of lib/proto/fast_message.c as they work: the buffer's cursor moves, and a map and a string are
    overwritten byte by byte. */
module FastReader {
  import opened Digits
  import opened ByteBuffer
  import opened StopBit
  import opened PresenceMap
  import opened FastField

  datatype Status = Success | Partial | Invalid

  /** What a reader returns, and where it leaves the cursor: anywhere unless it succeeds. */
  ghost predicate Says<T>(r: Read<T>, status: Status, value: T, start: nat) {
    match r
    case Got(v, n) => status == Success && value == v && start == n
    case Short => status == Partial
    case Bad => status == Invalid
  }

  /** parse_uint */
  method ParseUint(buf: Buffer) returns (status: Status, value: nat)
    requires buf.Valid()
    modifies buf`start
    ensures buf.Valid() && Says(UintAt(Arrived(buf), old(buf.start)), status, value, buf.start)
  {
    value := 0;
    ghost var d, p := Arrived(buf), buf.start;
    for i := 0 to 9
      invariant buf.Valid() && UintLeads(d, p, 0, 0, buf.start, i, value)
    {
      assert UintFrom(d, buf.start, i, value) == UintRound(d, buf.start, i, value);
      if buf.start == buf.end {
        return Partial, value;
      }
      var c := buf.Get8();
      if c >= 128 {
        return Success, value * 128 + (c - 128);
      }
      value := value * 128 + c;
    }
    assert UintFrom(d, buf.start, 9, value) == UintRound(d, buf.start, 9, value);
    return Invalid, value;
  }

  /** parse_int */
  method ParseInt(buf: Buffer) returns (status: Status, value: int)
    requires buf.Valid()
    modifies buf`start
    ensures buf.Valid() && Says(IntAt(Arrived(buf), old(buf.start)), status, value, buf.start)
  {
    hide Wrap;
    value := 0;
    if buf.start == buf.end {
      return Partial, value;
    }
    if buf.data[buf.start] % 128 >= 64 {
      value := -1;
    }
    ghost var d, p, sign := Arrived(buf), buf.start, value;
    for i := 0 to 10
      invariant buf.Valid() && IntLeads(d, p, 0, sign, buf.start, i, value)
    {
      assert IntFrom(d, buf.start, i, value) == IntRound(d, buf.start, i, value);
      if buf.start == buf.end {
        return Partial, value;
      }
      var c := buf.Get8();
      if c >= 128 {
        return Success, Wrap(value * 128 + (c - 128));
      }
      value := Wrap(value * 128 + c);
    }
    assert IntFrom(d, buf.start, 10, value) == IntRound(d, buf.start, 10, value);
    return Invalid, value;
  }

  ghost predicate TextLeads(d: seq<byte>, p: nat, room: nat, q: nat, left: nat, read: seq<byte>) {
    p <= |d| && q <= |d| && TextFrom(d, p, room, []) == TextFrom(d, q, left, read)
  }

  /** What stands in the array after parse_string: the string and a zero, or the beginning of one over the old one. */
  ghost predicate Stored(t: Text, was: seq<byte>, now: seq<byte>, status: Status, len: nat, start: nat)
    requires |was| == |now|
  {
    match t
    case Whole(s, n) =>
      && status == Success && start == n && len == |s| < |now| && now[..len] == s && now[len] == 0
    case Cut(s) => status == Partial && len == |s| < |now| && now == s + was[|s|..]
    case Long => status == Invalid
  }

  /** parse_string */
  method ParseString(buf: Buffer, text: array<byte>) returns (status: Status, len: nat)
    requires buf.Valid() && text.Length > 0 && text != buf.data
    modifies buf`start, text
    ensures buf.Valid()
    ensures Stored(TextFrom(Arrived(buf), old(buf.start), text.Length - 1, []), old(text[..]), text[..], status, len,
                   buf.start)
  {
    len := 0;
    ghost var d, p, room, was := Arrived(buf), buf.start, text.Length - 1, text[..];
    while len < text.Length - 1
      invariant buf.Valid() && Arrived(buf) == d && len < text.Length
      invariant text[len..] == was[len..]
      invariant TextLeads(d, p, room, buf.start, room - len, text[..len])
    {
      assert TextFrom(d, buf.start, room - len, text[..len]) == TextRound(d, buf.start, room - len, text[..len]);
      if buf.start == buf.end {
        assert text[..] == text[..len] + text[len..];
        return Partial, len;
      }
      var c := buf.Get8();
      ghost var read := text[..len];
      if c >= 128 {
        text[len] := c - 128;
        assert text[..len + 1] == read + [c - 128];
        len := len + 1;
        text[len] := 0;
        return Success, len;
      }
      text[len] := c;
      assert text[len + 1..] == was[len..][1..];
      len := len + 1;
      assert text[..len] == read + [c];
    }
    assert TextFrom(d, buf.start, 0, text[..len]) == TextRound(d, buf.start, 0, text[..len]);
    return Invalid, len;
  }

  /** struct fast_pmap */
  class Pmap {
    var valid: bool
    var bit: Bit
    var nrBytes: nat
    const bytes: array<byte>

    ghost predicate Valid()
      reads this
    {
      nrBytes <= bytes.Length == MAX_BYTES
    }

    ghost function Map(): (m: seq<byte>)
      requires Valid()
      reads this, bytes
      ensures |m| == nrBytes
    {
      bytes[..nrBytes]
    }

    constructor ()
      ensures Valid() && !valid && bit == 0 && nrBytes == 0 && fresh(bytes) && forall i | 0 <= i < bytes.Length ::
        bytes[i] == 0
    {
      valid, bit, nrBytes := false, 0, 0;
      bytes := new byte[MAX_BYTES](_ => 0);
    }

    /** pmap_is_set */
    method Has(k: nat) returns (found: bool)
      requires Valid()
      ensures found <==> IsSet(Map(), k)
    {
      if k / 7 >= nrBytes {
        return false;
      }
      return BitAt(bytes[k / 7], 6 - k % 7);
    }

    /** pmap_set */
    method Put(k: nat) returns (inside: bool)
      requires Valid() && Plain(Map())
      modifies bytes
      ensures Map() == Set(old(Map()), k) && (inside <==> k / 7 < nrBytes)
    {
      if k / 7 >= nrBytes {
        return false;
      }
      assert Map()[k / 7] == bytes[k / 7];
      WithBitFits(bytes[k / 7], 6 - k % 7);
      bytes[k / 7] := WithBit(bytes[k / 7], 6 - k % 7);
      return true;
    }

    /** parse_pmap */
    method Parse(buf: Buffer) returns (status: Status)
      requires Valid() && buf.Valid() && buf.data != bytes
      modifies buf`start, `nrBytes, bytes
      ensures Valid() && buf.Valid() && Says(MapAt(Arrived(buf), old(buf.start)), status, Map(), buf.start)
    {
      nrBytes := 0;
      ghost var d, p := Arrived(buf), buf.start;
      while nrBytes < MAX_BYTES
        invariant Valid() && buf.Valid() && Arrived(buf) == d
        invariant MapLeads(d, p, buf.start, Map())
      {
        assert MapFrom(d, buf.start, Map()) == MapRound(d, buf.start, Map());
        if buf.start == buf.end {
          return Partial;
        }
        var c := buf.Get8();
        ghost var read := Map();
        bytes[nrBytes] := c;
        nrBytes := nrBytes + 1;
        assert Map() == read + [c];
        if c >= 128 {
          return Success;
        }
      }
      assert MapFrom(d, buf.start, Map()) == MapRound(d, buf.start, Map());
      return Invalid;
    }
  }

  ghost predicate MapLeads(d: seq<byte>, p: nat, q: nat, read: seq<byte>) {
    p <= |d| && q <= |d| && |read| <= MAX_BYTES && MapAt(d, p) == MapFrom(d, q, read)
  }
}
