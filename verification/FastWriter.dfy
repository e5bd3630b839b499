/** The writers of lib/proto/fast_message.c: transfer_uint, transfer_int and transfer_string, which put bytes into a
    buffer if there is room for them. */
module FastWriter {
  import opened Digits
  import opened ByteBuffer
  import opened StopBit
  import opened FastField
  import opened FieldEncoder
  import opened FastCell

  /** A writer that succeeds exactly if there is room. */
  twostate predicate Wrote(buf: Buffer, text: seq<byte>, ok: bool)
    requires old(buf.Valid()) && buf.Valid()
    reads buf, buf.data
  {
    && (ok <==> old(buf.end) + |text| <= buf.data.Length)
    && (ok ==> buf.data[..buf.end] == old(buf.data[..buf.end]) + text)
  }

  /** The groups of a number of `size` groups down to the one with number `j`. */
  function Upper(v: int, size: nat, j: nat): (s: seq<byte>)
    ensures |s| == if size > j then size - j else 0
  {
    if size > j then Groups(High(v, j), size - j) else []
  }

  lemma {:induction false} HighOnce(v: int, k: nat)
    ensures High(v, k + 1) == High(v, k) / 128
    decreases k
  {
    if k > 0 {
      HighOnce(v / 128, k - 1);
    }
  }

  /** One case of the switch: the group with number `j`, if the number has it. */
  method PutGroup(buf: Buffer, v: int, size: nat, j: nat, ghost base: seq<byte>)
    requires buf.Valid() && j > 0 && |base| + size <= buf.data.Length
    requires buf.data[..buf.end] == base + Upper(v, size, j + 1)
    modifies buf`end, buf.data
    ensures buf.Valid() && buf.data[..buf.end] == base + Upper(v, size, j)
  {
    assert buf.end == |base + Upper(v, size, j + 1)|;
    if size > j {
      HighOnce(v, j);
      buf.Put(High(v, j) % 128);
      assert Upper(v, size, j) == Upper(v, size, j + 1) + [High(v, j) % 128];
    }
  }

  /** The switch of both writers, which falls through from the highest group to the last. */
  method PutNumber(buf: Buffer, v: int, size: nat)
    requires buf.Valid() && 1 <= size <= 9 && buf.end + size <= buf.data.Length
    modifies buf`end, buf.data
    ensures buf.Valid() && buf.data[..buf.end] == old(buf.data[..buf.end]) + Stopped(v, size)
  {
    ghost var base := buf.data[..buf.end];
    assert base == base + Upper(v, size, 9);
    PutGroup(buf, v, size, 8, base);
    PutGroup(buf, v, size, 7, base);
    PutGroup(buf, v, size, 6, base);
    PutGroup(buf, v, size, 5, base);
    PutGroup(buf, v, size, 4, base);
    PutGroup(buf, v, size, 3, base);
    PutGroup(buf, v, size, 2, base);
    PutGroup(buf, v, size, 1, base);
    assert buf.end == |base + Upper(v, size, 1)|;
    assert Upper(v, size, 1) == Groups(v / 128, size - 1);
    buf.Put(v % 128 + 128);
  }

  /** transfer_uint */
  method TransferUint(buf: Buffer, v: nat) returns (ok: bool)
    requires buf.Valid()
    modifies buf`end, buf.data
    ensures buf.Valid() && Wrote(buf, UintText(v), ok)
  {
    var size := SizeUint(v);
    if buf.data.Length - buf.end < size {
      return false;
    }
    PutNumber(buf, v, size);
    return true;
  }

  /** transfer_int */
  method TransferInt(buf: Buffer, v: int) returns (ok: bool)
    requires buf.Valid()
    modifies buf`end, buf.data
    ensures buf.Valid() && Wrote(buf, IntText(v), ok)
  {
    var size := SizeInt(v);
    if buf.data.Length - buf.end < size {
      return false;
    }
    PutNumber(buf, v, size);
    return true;
  }

  /** transfer_string without a string */
  method TransferNull(buf: Buffer) returns (ok: bool)
    requires buf.Valid()
    modifies buf`end, buf.data
    ensures buf.Valid() && Wrote(buf, NONE, ok)
  {
    if buf.data.Length - buf.end < 1 {
      return false;
    }
    buf.Put(128);
    return true;
  }

  /** transfer_string */
  method TransferString(buf: Buffer, s: seq<byte>) returns (ok: bool)
    requires buf.Valid()
    modifies buf`end, buf.data
    ensures buf.Valid() && Wrote(buf, StringText(s), ok)
  {
    var text := if s == [] then [0] else s;
    if buf.data.Length - buf.end < |text| {
      return false;
    }
    ghost var base := buf.data[..buf.end];
    buf.PutAll(text);
    ok := TransferNull(buf);
    assert base + text + NONE == base + StringText(s);
  }
}
