/** Presence maps (FAST 1.1, section 10.5): pmap_is_set and pmap_set of include/libtrading/proto/fast_message.h, and
    how fast_message_encode sends them and parse_pmap reads them. */
module PresenceMap {
  import opened Digits
  import opened StopBit

  const MAX_BYTES: nat := 8

  /** pmap_bit: the bit that was looked at last, -1 before the first. */
  type Bit = x: int | -1 <= x witness 0

  /** b & (1 << n) */
  predicate BitAt(b: nat, n: nat) {
    if n == 0 then b % 2 == 1 else BitAt(b / 2, n - 1)
  }

  /** b | (1 << n) */
  function WithBit(b: nat, n: nat): nat {
    if n == 0 then b / 2 * 2 + 1 else 2 * WithBit(b / 2, n - 1) + b % 2
  }

  lemma {:induction false} WithBitFits(b: nat, n: nat)
    requires n < 7 && b < 128
    ensures WithBit(b, n) < 128
  {
    WithBitBound(b, n, 7);
    assert Two(7) == 8 * Two(4);
    assert Two(4) == 8 * Two(1);
  }

  function Two(n: nat): (r: nat)
    ensures r > 0
  {
    if n == 0 then 1 else 2 * Two(n - 1)
  }

  lemma {:induction false} WithBitBound(b: nat, n: nat, m: nat)
    requires n < m && b < Two(m)
    ensures WithBit(b, n) < Two(m)
  {
    if n > 0 {
      WithBitBound(b / 2, n - 1, m - 1);
    }
  }

  /** Setting a bit sets that bit and no other. */
  lemma {:induction false} WithBitIs(b: nat, n: nat, m: nat)
    ensures BitAt(WithBit(b, n), m) <==> m == n || BitAt(b, m)
    decreases n
  {
    if n > 0 && m > 0 {
      WithBitIs(b / 2, n - 1, m - 1);
      assert WithBit(b, n) / 2 == WithBit(b / 2, n - 1);
    } else if m > 0 {
      assert WithBit(b, 0) / 2 == b / 2;
    }
  }

  /** A bit further up does not matter. */
  lemma {:induction false} LowerBits(b: nat, k: nat, n: nat, m: nat)
    requires n < m
    ensures BitAt(b + k * Two(m), n) <==> BitAt(b, n)
    decreases n
  {
    var h := k * Two(m - 1);
    assert k * Two(m) == 2 * h;
    assert (b + 2 * h) / 2 == b / 2 + h && (b + 2 * h) % 2 == b % 2;
    if n > 0 {
      LowerBits(b / 2, k, n - 1, m - 1);
    }
  }

  /** pmap_is_set */
  predicate IsSet(bytes: seq<byte>, k: nat) {
    k / 7 < |bytes| && BitAt(bytes[k / 7], 6 - k % 7)
  }

  /** pmap_set: bits beyond the map are lost. */
  function Set(bytes: seq<byte>, k: nat): (r: seq<byte>)
    requires Plain(bytes)
    ensures |r| == |bytes| && Plain(r)
  {
    if k / 7 >= |bytes| then bytes
    else
      WithBitFits(bytes[k / 7], 6 - k % 7);
      bytes[k / 7 := WithBit(bytes[k / 7], 6 - k % 7)]
  }

  /** The map of a message after its bits, the first of which says that the template is identified. */
  function MapOf(bits: seq<bool>): (r: seq<byte>)
    ensures |r| == MAX_BYTES && Plain(r)
  {
    if bits == [] then [0, 0, 0, 0, 0, 0, 0, 0]
    else
      var n := |bits| - 1;
      if bits[n] then Set(MapOf(bits[..n]), n) else MapOf(bits[..n])
  }

  /** The number of bytes up to the last that is not zero. */
  function Trimmed(bytes: seq<byte>): (n: nat)
    ensures n <= |bytes|
  {
    if bytes == [] || bytes[|bytes| - 1] != 0 then |bytes| else Trimmed(bytes[..|bytes| - 1])
  }

  /** What fast_message_encode sends. */
  function MapText(bytes: seq<byte>): seq<byte>
    requires Trimmed(bytes) > 0 && Plain(bytes)
  {
    var n := Trimmed(bytes);
    bytes[..n - 1] + [bytes[n - 1] + 128]
  }

  /** The loop of parse_pmap: at most eight bytes. */
  function MapFrom(d: seq<byte>, p: nat, read: seq<byte>): (r: Read<seq<byte>>)
    requires p <= |d| && |read| <= MAX_BYTES
    ensures r.Got? ==> p < r.next <= |d| && |r.value| <= MAX_BYTES
    decreases MAX_BYTES - |read|, 1
  {
    MapRound(d, p, read)
  }

  function MapRound(d: seq<byte>, p: nat, read: seq<byte>): (r: Read<seq<byte>>)
    requires p <= |d| && |read| <= MAX_BYTES
    ensures r.Got? ==> p < r.next <= |d| && |r.value| <= MAX_BYTES
    decreases MAX_BYTES - |read|, 0
  {
    if |read| == MAX_BYTES then Bad
    else if p == |d| then Short
    else if d[p] >= 128 then Got(read + [d[p]], p + 1)
    else MapFrom(d, p + 1, read + [d[p]])
  }

  /** parse_pmap */
  function MapAt(d: seq<byte>, p: nat): (r: Read<seq<byte>>)
    requires p <= |d|
    ensures r.Got? ==> p < r.next <= |d|
  {
    MapFrom(d, p, [])
  }

  // ----- laws -----------------------------------------------------------------------------

  lemma SetIs(bytes: seq<byte>, k: nat, i: nat)
    requires Plain(bytes)
    ensures IsSet(Set(bytes, k), i) <==> (i == k && k / 7 < |bytes|) || IsSet(bytes, i)
  {
    if k / 7 < |bytes| && i / 7 == k / 7 {
      WithBitIs(bytes[k / 7], 6 - k % 7, 6 - i % 7);
    }
  }

  lemma NothingSet(n: nat)
    ensures !BitAt(0, n)
  {
  }

  /** The map holds exactly the first 56 bits. */
  lemma {:induction false} MapHolds(bits: seq<bool>, i: nat)
    ensures IsSet(MapOf(bits), i) <==> i < |bits| && i < 56 && bits[i]
    decreases |bits|
  {
    if bits == [] {
      NothingSet(6 - i % 7);
    } else {
      var n := |bits| - 1;
      MapHolds(bits[..n], i);
      SetIs(MapOf(bits[..n]), n, i);
    }
  }

  /** The first bit is in the first byte, so there is a byte to send. */
  lemma {:induction false} TrimmedKeeps(bytes: seq<byte>, i: nat)
    requires IsSet(bytes, i)
    ensures i / 7 < Trimmed(bytes)
    decreases |bytes|
  {
    if bytes[|bytes| - 1] == 0 {
      NothingSet(6 - i % 7);
      TrimmedKeeps(bytes[..|bytes| - 1], i);
    }
  }

  lemma StopBitKeeps(b: nat, n: nat)
    requires n < 7
    ensures BitAt(b + 128, n) <==> BitAt(b, n)
  {
    assert Two(7) == 8 * Two(4);
    assert Two(4) == 8 * Two(1);
    LowerBits(b, 1, n, 7);
  }

  lemma {:induction false} MapReads(d: seq<byte>, p: nat, s: seq<byte>, b: byte, read: seq<byte>)
    requires StandsAt(d, p, s + [b]) && Plain(s) && b >= 128 && |read| + |s| < MAX_BYTES
    ensures MapFrom(d, p, read) == Got(read + s + [b], p + |s| + 1)
    decreases |s|
  {
    assert MapFrom(d, p, read) == MapRound(d, p, read);
    var t := s + [b];
    if s == [] {
      assert d[p] == t[0];
      assert read + s == read;
    } else {
      assert d[p + 0] == t[0] == s[0];
      assert t == [s[0]] + (s[1..] + [b]);
      StandsParts(d, p, [s[0]], s[1..] + [b]);
      MapReads(d, p + 1, s[1..], b, read + [s[0]]);
      assert read + [s[0]] + s[1..] == read + s;
    }
  }

  /** Cutting off the bytes that are zero and adding the stop bit changes no bit of the map. */
  lemma MapSurvives(d: seq<byte>, p: nat, bytes: seq<byte>, k: nat)
    requires Plain(bytes) && |bytes| <= MAX_BYTES && Trimmed(bytes) > 0 && StandsAt(d, p, MapText(bytes))
    ensures var r := MapAt(d, p);
      r.Got? && r.next == p + |MapText(bytes)| && (IsSet(r.value, k) <==> IsSet(bytes, k))
  {
    var n := Trimmed(bytes);
    var t := bytes[..n - 1];
    MapReads(d, p, t, bytes[n - 1] + 128, []);
    assert [] + t + [bytes[n - 1] + 128] == MapText(bytes);
    if k / 7 == n - 1 {
      StopBitKeeps(bytes[n - 1], 6 - k % 7);
    } else if k / 7 >= n && IsSet(bytes, k) {
      TrimmedKeeps(bytes, k);
    }
  }

  /** What has been decided stays decided when more bytes arrive. */
  lemma {:induction false} MapGrows(d: seq<byte>, e: seq<byte>, p: nat, read: seq<byte>)
    requires p <= |d| && |read| <= MAX_BYTES
    ensures MapFrom(d, p, read).Short? || MapFrom(d + e, p, read) == MapFrom(d, p, read)
    decreases MAX_BYTES - |read|
  {
    assert MapFrom(d, p, read) == MapRound(d, p, read);
    assert MapFrom(d + e, p, read) == MapRound(d + e, p, read);
    if |read| < MAX_BYTES && p < |d| && d[p] < 128 {
      MapGrows(d, e, p + 1, read + [d[p]]);
    }
  }
}
