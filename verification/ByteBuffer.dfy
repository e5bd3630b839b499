/** The byte buffer of include/libtrading/buffer.h and lib/buffer.c: a fixed block of bytes with a read cursor
    `start` and a write cursor `end`. */
module ByteBuffer {
  import opened Digits

  function Total(s: seq<byte>): nat {
    if s == [] then 0 else Total(s[..|s| - 1]) + s[|s| - 1]
  }

  /** The 8-bit sum of some bytes. */
  function Sum8(s: seq<byte>): nat {
    Total(s) % 256
  }

  lemma {:induction false} TotalConcat(s: seq<byte>, t: seq<byte>)
    ensures Total(s + t) == Total(s) + Total(t)
    decreases |t|
  {
    if t == [] {
      assert s + t == s;
    } else {
      assert (s + t)[..|s + t| - 1] == s + t[..|t| - 1];
      TotalConcat(s, t[..|t| - 1]);
    }
  }

  lemma Sum8Concat(s: seq<byte>, t: seq<byte>)
    ensures Sum8(s + t) == (Sum8(s) + Sum8(t)) % 256
  {
    TotalConcat(s, t);
  }

  /** The first position of `c` at or after `p`, or the end. */
  function FindFrom(d: seq<byte>, p: nat, c: byte): (r: nat)
    requires p <= |d|
    ensures p <= r <= |d|
    decreases |d| - p
  {
    if p == |d| || d[p] == c then p else FindFrom(d, p + 1, c)
  }

  lemma {:induction false} FindStops(d: seq<byte>, p: nat, c: byte)
    requires p <= |d|
    ensures var r := FindFrom(d, p, c);
      (r < |d| ==> d[r] == c) && forall i | p <= i < r :: d[i] != c
    decreases |d| - p
  {
    if p < |d| && d[p] != c {
      FindStops(d, p + 1, c);
    }
  }

  class Buffer {
    const data: array<byte>
    var start: nat
    var end: nat

    ghost predicate Valid()
      reads this
    {
      start <= end <= data.Length
    }

    /** The bytes that were put and not yet taken. */
    ghost function Unread(): seq<byte>
      reads this, data
      requires Valid()
    {
      data[start..end]
    }

    constructor (capacity: nat)
      ensures Valid() && data.Length == capacity && start == 0 && end == 0 && fresh(data)
    {
      data := new byte[capacity](_ => 0);
      start, end := 0, 0;
    }

    /** buffer_put: the caller must know that there is room. */
    method Put(b: byte)
      requires Valid() && end < data.Length
      modifies this`end, data
      ensures Valid() && end == old(end) + 1
      ensures data[..end] == old(data[..end]) + [b]
    {
      data[end] := b;
      end := end + 1;
    }

    method PutAll(s: seq<byte>)
      requires Valid() && end + |s| <= data.Length
      modifies this`end, data
      ensures Valid() && end == old(end) + |s|
      ensures data[..end] == old(data[..end]) + s
    {
      for i := 0 to |s|
        invariant Valid() && end == old(end) + i
        invariant data[..end] == old(data[..end]) + s[..i]
      {
        Put(s[i]);
        assert s[..i + 1] == s[..i] + [s[i]];
      }
      assert s[..|s|] == s;
    }

    /** buffer_get_8 */
    method Get8() returns (b: byte)
      requires Valid() && start < end
      modifies this`start
      ensures Valid() && start == old(start) + 1
      ensures Unread() == old(Unread())[1..] && b == old(Unread())[0]
    {
      b := data[start];
      start := start + 1;
    }

    /** buffer_find: stop at the byte, or at the end of what there is. */
    method Find(c: byte) returns (found: bool)
      requires Valid()
      modifies this`start
      ensures Valid() && start == FindFrom(data[..end], old(start), c)
      ensures found <==> start < end
    {
      while start < end
        invariant Valid()
        invariant FindFrom(data[..end], start, c) == FindFrom(data[..end], old(start), c)
        decreases end - start
      {
        if data[start] == c {
          return true;
        }
        start := start + 1;
      }
      return false;
    }

    /** buffer_recv: as many of the bytes that are there as are wanted and fit. */
    method Recv(offered: seq<byte>, size: nat) returns (n: nat)
      requires Valid()
      modifies this`end, data
      ensures Valid() && end == old(end) + n && n <= |offered| && n <= size
      ensures n == |offered| || n == size || end == data.Length
      ensures data[..end] == old(data[..end]) + offered[..n]
    {
      n := if |offered| < size then |offered| else size;
      if data.Length - end < n {
        n := data.Length - end;
      }
      PutAll(offered[..n]);
    }

    /** buffer_compact: the unread bytes move to the front. */
    method Compact()
      requires Valid()
      modifies this, data
      ensures Valid() && start == 0 && Unread() == old(Unread())
    {
      var count := end - start;
      for i := 0 to count
        invariant forall k | 0 <= k < i :: data[k] == old(data[start + k])
        invariant forall k | i <= k < data.Length :: data[k] == old(data[k])
        invariant start == old(start) && end == old(end)
      {
        data[i] := data[start + i];
      }
      start, end := 0, count;
    }
  }

  /** The bytes that have arrived. */
  ghost function Arrived(buf: Buffer): (d: seq<byte>)
    requires buf.Valid()
    reads buf, buf.data
    ensures |d| == buf.end
  {
    buf.data[..buf.end]
  }

  /** buffer_sum_range */
  method SumRange(data: array<byte>, start: nat, end: nat) returns (sum: nat)
    requires start <= end <= data.Length
    ensures sum == Sum8(data[start..end])
  {
    sum := 0;
    for ptr := start to end
      invariant sum == Total(data[start..ptr])
    {
      assert data[start..ptr + 1][..ptr - start] == data[start..ptr];
      sum := sum + data[ptr];
    }
    sum := sum % 256;
  }
}
