/** Stop-bit encoded numbers and strings: parse_uint, parse_int, parse_string and their writers in
    lib/proto/fast_message.c (FAST 1.1, section 10.6.1). */
module StopBit {
  import opened Digits

  /** What is read and where it ends, or that bytes are missing, or that there are too many of them. */
  datatype Read<T> = Got(value: T, next: nat) | Short | Bad

  // ----- reading --------------------------------------------------------------------------


  /** Signed 64-bit wrap-around. */
  function Wrap(n: int): (r: int)
    ensures -0x8000_0000_0000_0000 <= r < 0x8000_0000_0000_0000
    ensures -0x8000_0000_0000_0000 <= n < 0x8000_0000_0000_0000 ==> r == n
  {
    if -0x8000_0000_0000_0000 <= n < 0x8000_0000_0000_0000 then n
    else (n + 0x8000_0000_0000_0000) % 0x1_0000_0000_0000_0000 - 0x8000_0000_0000_0000
  }

  /** The loop of parse_uint after `i` bytes: at most nine. */
  function UintFrom(d: seq<byte>, p: nat, i: nat, acc: nat): (r: Read<nat>)
    requires p <= |d| && i <= 9
    ensures r.Got? ==> p < r.next <= |d|
    decreases 9 - i, 1
  {
    UintRound(d, p, i, acc)
  }

  function UintRound(d: seq<byte>, p: nat, i: nat, acc: nat): (r: Read<nat>)
    requires p <= |d| && i <= 9
    ensures r.Got? ==> p < r.next <= |d|
    decreases 9 - i, 0
  {
    if i == 9 then Bad
    else if p == |d| then Short
    else if d[p] >= 128 then Got(acc * 128 + (d[p] - 128), p + 1)
    else UintFrom(d, p + 1, i + 1, acc * 128 + d[p])
  }

  /** parse_uint */
  function UintAt(d: seq<byte>, p: nat): (r: Read<nat>)
    requires p <= |d|
    ensures r.Got? ==> p < r.next <= |d|
  {
    UintFrom(d, p, 0, 0)
  }

  /** The loop of parse_int after `i` bytes: at most ten, in 64 bits. */
  function IntFrom(d: seq<byte>, p: nat, i: nat, acc: int): (r: Read<int>)
    requires p <= |d| && i <= 10
    ensures r.Got? ==> p < r.next <= |d|
    decreases 10 - i, 1
  {
    IntRound(d, p, i, acc)
  }

  function IntRound(d: seq<byte>, p: nat, i: nat, acc: int): (r: Read<int>)
    requires p <= |d| && i <= 10
    ensures r.Got? ==> p < r.next <= |d|
    decreases 10 - i, 0
  {
    if i == 10 then Bad
    else if p == |d| then Short
    else if d[p] >= 128 then Got(Wrap(acc * 128 + (d[p] - 128)), p + 1)
    else IntFrom(d, p + 1, i + 1, Wrap(acc * 128 + d[p]))
  }

  /** The second bit of the first byte is the sign. */
  function SignOf(b: byte): int {
    if b % 128 >= 64 then -1 else 0
  }

  /** parse_int */
  function IntAt(d: seq<byte>, p: nat): (r: Read<int>)
    requires p <= |d|
    ensures r.Got? ==> p < r.next <= |d|
  {
    if p == |d| then Short else IntFrom(d, p, 0, SignOf(d[p]))
  }

  // ----- writing --------------------------------------------------------------------------

  function Pow128(n: nat): (r: int)
    ensures r > 0
  {
    if n == 0 then 1 else 128 * Pow128(n - 1)
  }

  /** transfer_size_uint */
  function SizeUint(v: nat): (k: nat)
    ensures 1 <= k <= 9
  {
    if v < 0x80 then 1
    else if v < 0x4000 then 2
    else if v < 0x20_0000 then 3
    else if v < 0x1000_0000 then 4
    else if v < 0x8_0000_0000 then 5
    else if v < 0x400_0000_0000 then 6
    else if v < 0x2_0000_0000_0000 then 7
    else if v < 0x100_0000_0000_0000 then 8
    else 9
  }

  /** transfer_size_int */
  function SizeInt(v: int): (k: nat)
    ensures 1 <= k <= 9
  {
    var t := if v >= 0 then v else -v - 1;
    if t < 0x40 then 1
    else if t < 0x2000 then 2
    else if t < 0x10_0000 then 3
    else if t < 0x800_0000 then 4
    else if t < 0x4_0000_0000 then 5
    else if t < 0x200_0000_0000 then 6
    else if t < 0x1_0000_0000_0000 then 7
    else if t < 0x80_0000_0000_0000 then 8
    else 9
  }

  /** The low `k` groups of seven bits, the highest first. */
  function Groups(v: int, k: nat): (s: seq<byte>)
    ensures |s| == k && forall i | 0 <= i < k :: s[i] < 128
    decreases k
  {
    if k == 0 then [] else Groups(v / 128, k - 1) + [v % 128]
  }

  /** `k` groups, the last one with the stop bit. */
  function Stopped(v: int, k: nat): (s: seq<byte>)
    requires k > 0
    ensures |s| == k
  {
    Groups(v / 128, k - 1) + [v % 128 + 128]
  }

  /** transfer_uint */
  function UintText(v: nat): seq<byte> {
    Stopped(v, SizeUint(v))
  }

  /** transfer_int */
  function IntText(v: int): seq<byte> {
    Stopped(v, SizeInt(v))
  }

  // ----- laws -----------------------------------------------------------------------------

  ghost predicate StandsAt(d: seq<byte>, p: nat, s: seq<byte>) {
    p + |s| <= |d| && forall i {:trigger s[i]} | 0 <= i < |s| :: d[p + i] == s[i]
  }

  lemma StandsParts(d: seq<byte>, p: nat, s: seq<byte>, t: seq<byte>)
    ensures StandsAt(d, p, s + t) <==> StandsAt(d, p, s) && StandsAt(d, p + |s|, t)
  {
    var u := s + t;
    if StandsAt(d, p, u) {
      assert forall i | 0 <= i < |s| :: u[i] == s[i];
      assert forall i | 0 <= i < |t| :: u[|s| + i] == t[i];
    }
  }

  /** A number without its `k` low groups. */
  function High(v: int, k: nat): int
    decreases k
  {
    if k == 0 then v else High(v / 128, k - 1)
  }

  /** Nothing but the sign is left of a number that fits. */
  lemma {:induction false} HighIsSign(v: int, k: nat)
    requires -Pow128(k) <= v < Pow128(k)
    ensures High(v, k) == if v < 0 then -1 else 0
    decreases k
  {
    if k > 0 {
      HighIsSign(v / 128, k - 1);
    }
  }

  /** Reading on with one accumulator is reading on from a later place with another. */
  ghost predicate UintLeads(d: seq<byte>, p: nat, i: nat, acc: nat, q: nat, j: nat, to: nat) {
    p <= |d| && q <= |d| && i <= 9 && j <= 9 && UintFrom(d, p, i, acc) == UintFrom(d, q, j, to)
  }

  ghost predicate IntLeads(d: seq<byte>, p: nat, i: nat, acc: int, q: nat, j: nat, to: int) {
    p <= |d| && q <= |d| && i <= 10 && j <= 10 && IntFrom(d, p, i, acc) == IntFrom(d, q, j, to)
  }

  lemma UintStep(d: seq<byte>, p: nat, i: nat, acc: nat)
    requires p < |d| && d[p] < 128 && i < 9
    ensures UintLeads(d, p, i, acc, p + 1, i + 1, acc * 128 + d[p])
  {
    assert UintFrom(d, p, i, acc) == UintRound(d, p, i, acc);
  }

  lemma IntStep(d: seq<byte>, p: nat, i: nat, acc: int)
    requires p < |d| && d[p] < 128 && i < 10
    ensures IntLeads(d, p, i, acc, p + 1, i + 1, Wrap(acc * 128 + d[p]))
  {
    assert IntFrom(d, p, i, acc) == IntRound(d, p, i, acc);
  }

  /** The byte with the stop bit ends the number. */
  lemma UintStops(d: seq<byte>, p: nat, i: nat, acc: nat)
    requires p < |d| && d[p] >= 128 && i < 9
    ensures UintFrom(d, p, i, acc) == Got(acc * 128 + (d[p] - 128), p + 1)
  {
    assert UintFrom(d, p, i, acc) == UintRound(d, p, i, acc);
  }

  lemma IntStops(d: seq<byte>, p: nat, i: nat, acc: int)
    requires p < |d| && d[p] >= 128 && i < 10
    ensures IntFrom(d, p, i, acc) == Got(Wrap(acc * 128 + (d[p] - 128)), p + 1)
  {
    assert IntFrom(d, p, i, acc) == IntRound(d, p, i, acc);
  }

  /** What the loops of the readers make of bytes without a stop bit. */
  function UintFold(acc: nat, s: seq<byte>): nat {
    if s == [] then acc else UintFold(acc, s[..|s| - 1]) * 128 + s[|s| - 1]
  }

  function IntFold(acc: int, s: seq<byte>): int {
    if s == [] then acc else Wrap(IntFold(acc, s[..|s| - 1]) * 128 + s[|s| - 1])
  }

  ghost predicate Plain(s: seq<byte>) {
    forall i | 0 <= i < |s| :: s[i] < 128
  }

  lemma StandsFront(d: seq<byte>, p: nat, s: seq<byte>)
    requires s != [] && StandsAt(d, p, s)
    ensures StandsAt(d, p, s[..|s| - 1]) && p + |s| <= |d| && d[p + |s| - 1] == s[|s| - 1]
  {
    assert d[p + (|s| - 1)] == s[|s| - 1];
  }

  lemma {:induction false} UintFolds(d: seq<byte>, p: nat, i: nat, acc: nat, s: seq<byte>)
    requires StandsAt(d, p, s) && Plain(s) && i + |s| <= 9
    ensures UintLeads(d, p, i, acc, p + |s|, i + |s|, UintFold(acc, s))
    decreases |s|
  {
    if s != [] {
      var t := s[..|s| - 1];
      StandsFront(d, p, s);
      UintFolds(d, p, i, acc, t);
      UintStep(d, p + |t|, i + |t|, UintFold(acc, t));
    }
  }

  lemma {:induction false} IntFolds(d: seq<byte>, p: nat, i: nat, acc: int, s: seq<byte>)
    requires StandsAt(d, p, s) && Plain(s) && i + |s| <= 10
    ensures IntLeads(d, p, i, acc, p + |s|, i + |s|, IntFold(acc, s))
    decreases |s|
  {
    if s != [] {
      var t := s[..|s| - 1];
      StandsFront(d, p, s);
      IntFolds(d, p, i, acc, t);
      IntStep(d, p + |t|, i + |t|, IntFold(acc, t));
    }
  }

  /** Folding the groups of a number over the rest of it gives the number back. */
  lemma {:induction false} FoldsGroups(v: nat, k: nat)
    ensures High(v, k) >= 0 && UintFold(High(v, k), Groups(v, k)) == v
    decreases k
  {
    if k > 0 {
      FoldsGroups(v / 128, k - 1);
      assert Groups(v, k)[..k - 1] == Groups(v / 128, k - 1);
    }
  }

  lemma {:induction false} FoldsIntGroups(v: int, k: nat)
    requires -0x8000_0000_0000_0000 <= v < 0x8000_0000_0000_0000
    ensures IntFold(High(v, k), Groups(v, k)) == v
    decreases k
  {
    if k > 0 {
      FoldsIntGroups(v / 128, k - 1);
      assert Groups(v, k)[..k - 1] == Groups(v / 128, k - 1);
    }
  }

  lemma Pow128Values()
    ensures Pow128(1) == 0x80 && Pow128(2) == 0x4000 && Pow128(3) == 0x20_0000 && Pow128(4) == 0x1000_0000
    ensures Pow128(5) == 0x8_0000_0000 && Pow128(6) == 0x400_0000_0000 && Pow128(7) == 0x2_0000_0000_0000
    ensures Pow128(8) == 0x100_0000_0000_0000 && Pow128(9) == 0x8000_0000_0000_0000
  {
    assert Pow128(2) == 128 * Pow128(1);
    assert Pow128(4) == 128 * Pow128(3);
    assert Pow128(6) == 128 * Pow128(5);
    assert Pow128(8) == 128 * Pow128(7);
  }

  /** The size is the least number of groups that hold the number. */
  lemma SizeUintLeast(v: nat)
    requires v < 0x8000_0000_0000_0000
    ensures v < Pow128(SizeUint(v)) && (SizeUint(v) > 1 ==> Pow128(SizeUint(v) - 1) <= v)
  {
    Pow128Values();
  }

  lemma SizeIntLeast(v: int)
    requires -0x4000_0000_0000_0000 <= v < 0x4000_0000_0000_0000
    ensures -Pow128(SizeInt(v)) <= 2 * v < Pow128(SizeInt(v))
    ensures SizeInt(v) > 1 ==> 2 * v < -Pow128(SizeInt(v) - 1) || Pow128(SizeInt(v) - 1) <= 2 * v
  {
    Pow128Values();
  }

  lemma StoppedParts(d: seq<byte>, p: nat, v: int, k: nat)
    requires k > 0 && StandsAt(d, p, Stopped(v, k))
    ensures StandsAt(d, p, Groups(v / 128, k - 1)) && p + k <= |d| && d[p + k - 1] == v % 128 + 128
  {
    StandsParts(d, p, Groups(v / 128, k - 1), [v % 128 + 128]);
    assert d[p + k - 1] == [v % 128 + 128][0];
  }

  lemma UintReadsStopped(d: seq<byte>, p: nat, s: seq<byte>)
    requires StandsAt(d, p, s) && Plain(s) && |s| <= 8 && p + |s| < |d| && d[p + |s|] >= 128
    ensures UintAt(d, p) == Got(UintFold(0, s) * 128 + (d[p + |s|] - 128), p + |s| + 1)
  {
    UintFolds(d, p, 0, 0, s);
    UintStops(d, p + |s|, |s|, UintFold(0, s));
  }

  /** What transfer_uint wrote is read back by parse_uint, and nothing behind it is touched. */
  lemma UintReadsBack(d: seq<byte>, p: nat, v: nat)
    requires v < 0x8000_0000_0000_0000 && StandsAt(d, p, UintText(v))
    ensures UintAt(d, p) == Got(v, p + |UintText(v)|)
  {
    var k, w := SizeUint(v), v / 128;
    SizeUintLeast(v);
    StoppedParts(d, p, v, k);
    HighIsSign(w, k - 1);
    FoldsGroups(w, k - 1);
    UintReadsStopped(d, p, Groups(w, k - 1));
  }

  lemma IntReadsStopped(d: seq<byte>, p: nat, acc: int, s: seq<byte>)
    requires StandsAt(d, p, s) && Plain(s) && |s| <= 9 && p + |s| < |d| && d[p + |s|] >= 128
    ensures IntFrom(d, p, 0, acc) == Got(Wrap(IntFold(acc, s) * 128 + (d[p + |s|] - 128)), p + |s| + 1)
  {
    IntFolds(d, p, 0, acc, s);
    IntStops(d, p + |s|, |s|, IntFold(acc, s));
  }

  /** What transfer_int wrote is read back by parse_int. */
  lemma IntReadsBack(d: seq<byte>, p: nat, v: int)
    requires -0x4000_0000_0000_0000 <= v < 0x4000_0000_0000_0000 && StandsAt(d, p, IntText(v))
    ensures IntAt(d, p) == Got(v, p + |IntText(v)|)
  {
    var k, w := SizeInt(v), v / 128;
    SizeIntLeast(v);
    StoppedParts(d, p, v, k);
    TopBit(d, p, v, k);
    FoldsIntGroups(w, k - 1);
    Rejoin(v, w, d[p + k - 1]);
    IntReadsGroups(d, p, v, Groups(w, k - 1), High(w, k - 1), w);
  }

  lemma IntReadsGroups(d: seq<byte>, p: nat, v: int, s: seq<byte>, acc: int, w: int)
    requires |s| <= 9 && Plain(s) && p + |s| < |d| && StandsAt(d, p, s) && d[p + |s|] >= 128
    requires IntFold(acc, s) == w && Wrap(w * 128 + (d[p + |s|] - 128)) == v
    ensures IntFrom(d, p, 0, acc) == Got(v, p + |s| + 1)
  {
    IntReadsStopped(d, p, acc, s);
  }

  lemma Rejoin(v: int, w: int, b: int)
    requires w == v / 128 && b == v % 128 + 128 && -0x8000_0000_0000_0000 <= v < 0x8000_0000_0000_0000
    ensures Wrap(w * 128 + (b - 128)) == v
  {
  }

  lemma TopBit(d: seq<byte>, p: nat, v: int, k: nat)
    requires k > 0 && StandsAt(d, p, Stopped(v, k)) && -Pow128(k) <= 2 * v < Pow128(k)
    ensures p < |d| && SignOf(d[p]) == High(v / 128, k - 1)
  {
    StoppedParts(d, p, v, k);
    HalfFits(v, k);
    var top := High(v, k - 1);
    assert High(v, k) == High(v / 128, k - 1);
    if k > 1 {
      FirstGroup(v / 128, k - 1);
      assert d[p] == Groups(v / 128, k - 1)[0] == High(v / 128, k - 2) % 128;
      assert High(v / 128, k - 2) == top;
    } else {
      assert top == v;
    }
    SignIs(d[p], top);
    HighSign(v, k - 1);
  }

  lemma SignIs(b: byte, top: int)
    requires -64 <= top < 64 && b % 128 == top % 128
    ensures SignOf(b) == if top < 0 then -1 else 0
  {
  }

  lemma {:induction false} HighSign(v: int, k: nat)
    ensures High(v, k) < 0 <==> v < 0
    decreases k
  {
    if k > 0 {
      HighSign(v / 128, k - 1);
    }
  }

  /** The first group holds the highest bits. */
  lemma {:induction false} FirstGroup(v: int, k: nat)
    requires k > 0
    ensures Groups(v, k)[0] == High(v, k - 1) % 128
    decreases k
  {
    if k > 1 {
      FirstGroup(v / 128, k - 1);
    }
  }

  /** A number that fits with its sign: the highest group repeats the sign. */
  lemma {:induction false} HalfFits(v: int, k: nat)
    requires k > 0 && -Pow128(k) <= 2 * v < Pow128(k)
    ensures -64 <= High(v, k - 1) < 64 && High(v, k) == if v < 0 then -1 else 0
    decreases k
  {
    if k > 1 {
      HalfStep(v, Pow128(k - 2));
      assert Pow128(k) == 128 * Pow128(k - 1) && Pow128(k - 1) == 128 * Pow128(k - 2);
      HalfFits(v / 128, k - 1);
    }
  }

  lemma HalfStep(v: int, m: int)
    requires -16384 * m <= 2 * v < 16384 * m
    ensures -128 * m <= 2 * (v / 128) < 128 * m
  {
    var w, r := v / 128, v % 128;
    var x := w + 64 * m;
    assert 256 * x + 2 * r == 2 * v + 16384 * m;
    assert x >= 0;
  }

  // ----- exactly which numbers, and in how few bytes ---------------------------------------

  lemma {:induction false} UintBound(d: seq<byte>, p: nat, i: nat, acc: nat)
    requires p <= |d| && i <= 9
    ensures var r := UintFrom(d, p, i, acc);
      r.Got? ==> r.next - p <= 9 - i && r.value < (acc + 1) * Pow128(r.next - p)
    decreases 9 - i
  {
    assert UintFrom(d, p, i, acc) == UintRound(d, p, i, acc);
    if i < 9 && p < |d| {
      if d[p] < 128 {
        UintBound(d, p + 1, i + 1, acc * 128 + d[p]);
        var r := UintFrom(d, p + 1, i + 1, acc * 128 + d[p]);
        if r.Got? {
          GrowBound(r.value, acc, d[p], Pow128(r.next - p - 1));
        }
      } else {
        assert Pow128(1) == 128;
      }
    }
  }

  lemma GrowBound(v: int, acc: nat, b: nat, m: int)
    requires m > 0 && b < 128 && v < (acc * 128 + b + 1) * m
    ensures v < (acc + 1) * (128 * m)
  {
    assert (acc * 128 + b + 1) * m <= (acc * 128 + 128) * m;
    assert (acc * 128 + 128) * m == (acc + 1) * (128 * m);
  }

  lemma {:induction false} Pow128Grows(a: nat, b: nat)
    requires a <= b
    ensures Pow128(a) <= Pow128(b)
    decreases b
  {
    if a < b {
      Pow128Grows(a, b - 1);
    }
  }

  lemma StandsWhole(s: seq<byte>)
    ensures StandsAt(s, 0, s)
  {
  }

  /** The unsigned numbers that survive the way are those below 2^63. */
  lemma UintExactly(v: nat)
    ensures UintAt(UintText(v), 0) == Got(v, |UintText(v)|) <==> v < 0x8000_0000_0000_0000
  {
    var t := UintText(v);
    UintBound(t, 0, 0, 0);
    Pow128Values();
    Pow128Grows(|t|, 9);
    if v < 0x8000_0000_0000_0000 {
      StandsWhole(t);
      UintReadsBack(t, 0, v);
    }
  }

  /** No bytes shorter than those of transfer_uint read as the number. */
  lemma UintShortest(t: seq<byte>, v: nat)
    requires UintAt(t, 0) == Got(v, |t|)
    ensures v < 0x8000_0000_0000_0000 && |UintText(v)| <= |t|
  {
    UintBound(t, 0, 0, 0);
    Pow128Values();
    Pow128Grows(|t|, 9);
    SizeUintLeast(v);
    if SizeUint(v) > |t| {
      Pow128Grows(|t|, SizeUint(v) - 1);
    }
  }

  lemma IntUnroll(d: seq<byte>, p: nat, i: nat, acc: int, v: int, k: nat)
    requires p <= |d| && i <= 10 && IntFrom(d, p, i, acc) == Got(v, p + k)
    ensures i < 10 && p < |d| && k > 0
    ensures d[p] < 128 ==> IntFrom(d, p + 1, i + 1, Wrap(acc * 128 + d[p])) == Got(v, p + k)
    ensures d[p] >= 128 ==> v == Wrap(acc * 128 + (d[p] - 128)) && k == 1
  {
    assert IntFrom(d, p, i, acc) == IntRound(d, p, i, acc);
  }

  /** Each further byte multiplies the range by 128. */
  lemma {:induction false} IntBound(d: seq<byte>, p: nat, i: nat, acc: int, bound: int, v: int, k: nat)
    requires p <= |d| && i <= 10 && IntFrom(d, p, i, acc) == Got(v, p + k)
    requires -bound <= acc < bound && bound * Pow128(k) <= 0x8000_0000_0000_0000
    ensures -(bound * Pow128(k)) <= v < bound * Pow128(k)
    decreases 10 - i
  {
    IntUnroll(d, p, i, acc, v, k);
    if d[p] < 128 {
      IntGrow(acc, d[p], bound, k - 1);
      IntBound(d, p + 1, i + 1, acc * 128 + d[p], 128 * bound, v, k - 1);
    } else {
      IntGrow(acc, d[p] - 128, bound, 0);
      assert Pow128(0) == 1;
    }
  }

  lemma IntGrow(acc: int, b: nat, bound: int, k: nat)
    requires -bound <= acc < bound && b < 128 && bound * Pow128(k + 1) <= 0x8000_0000_0000_0000
    ensures -(128 * bound) <= acc * 128 + b < 128 * bound && Wrap(acc * 128 + b) == acc * 128 + b
    ensures 128 * bound * Pow128(k) == bound * Pow128(k + 1)
  {
    var m := Pow128(k);
    Regroup(bound, m);
    AtLeast(128 * bound, m);
  }

  lemma Regroup(x: int, m: int)
    ensures x * (128 * m) == 128 * x * m
  {
  }

  lemma AtLeast(x: int, m: int)
    requires x >= 0 && m > 0
    ensures x <= x * m
  {
  }

  lemma FirstByte(b: byte)
    ensures -64 <= SignOf(b) * 128 + b % 128 < 64
  {
  }

  lemma SixtyFour(m: nat)
    requires m <= 8
    ensures Pow128(m + 1) == 128 * Pow128(m) && 64 * Pow128(m) <= 0x8000_0000_0000_0000
  {
    Pow128Values();
    Pow128Grows(m, 8);
  }

  lemma IntBehindFirst(d: seq<byte>, p: nat, acc: int, v: int, k: nat)
    requires p < |d| && -64 <= acc < 64 && k <= 8 && IntFrom(d, p + 1, 1, acc) == Got(v, p + 1 + k)
    ensures -Pow128(k + 1) <= 2 * v < Pow128(k + 1)
  {
    SixtyFour(k);
    IntBound(d, p + 1, 1, acc, 64, v, k);
  }

  /** After the first byte the accumulator is the signed value of its seven bits. */
  lemma IntFirst(d: seq<byte>, p: nat)
    requires p < |d|
    ensures var r := IntAt(d, p);
      r.Got? && r.next - p <= 9 ==> -Pow128(r.next - p) <= 2 * r.value < Pow128(r.next - p)
  {
    var r, acc := IntAt(d, p), SignOf(d[p]) * 128 + d[p] % 128;
    FirstByte(d[p]);
    AfterFirst(d, p);
    if d[p] >= 128 {
      assert Pow128(1) == 128;
    } else if r.Got? && r.next - p <= 9 {
      IntBehindFirst(d, p, acc, r.value, r.next - p - 1);
    }
  }

  lemma AfterFirst(d: seq<byte>, p: nat)
    requires p < |d|
    ensures var acc := SignOf(d[p]) * 128 + d[p] % 128;
      IntAt(d, p) == if d[p] < 128 then IntFrom(d, p + 1, 1, acc) else Got(acc, p + 1)
  {
    var b: byte := d[p];
    FirstByte(b);
    SevenBits(b);
    if b < 128 {
      IntStep(d, p, 0, SignOf(b));
    } else {
      IntStops(d, p, 0, SignOf(b));
    }
  }

  lemma SevenBits(b: byte)
    ensures b % 128 == if b < 128 then b else b - 128
  {
  }

  /** The signed numbers that survive the way are those of 63 bits. */
  lemma IntExactly(v: int)
    ensures IntAt(IntText(v), 0) == Got(v, |IntText(v)|) <==> -0x4000_0000_0000_0000 <= v < 0x4000_0000_0000_0000
  {
    var t := IntText(v);
    IntFirst(t, 0);
    Pow128Values();
    Pow128Grows(|t|, 9);
    if -0x4000_0000_0000_0000 <= v < 0x4000_0000_0000_0000 {
      StandsWhole(t);
      IntReadsBack(t, 0, v);
    }
  }

  /** No bytes shorter than those of transfer_int read as the number. */
  lemma IntShortest(t: seq<byte>, v: int)
    requires IntAt(t, 0) == Got(v, |t|)
    ensures |IntText(v)| <= |t|
  {
    if |t| <= 8 {
      IntFirst(t, 0);
      Pow128Values();
      Pow128Grows(|t|, 9);
      SizeIntLeast(v);
      if SizeInt(v) > |t| {
        Pow128Grows(|t|, SizeInt(v) - 1);
      }
    }
  }

  // ----- more bytes -----------------------------------------------------------------------

  /** What has been decided stays decided when more bytes arrive. */
  lemma {:induction false} UintGrows(d: seq<byte>, e: seq<byte>, p: nat, i: nat, acc: nat)
    requires p <= |d| && i <= 9
    ensures UintFrom(d, p, i, acc).Short? || UintFrom(d + e, p, i, acc) == UintFrom(d, p, i, acc)
    decreases 9 - i
  {
    assert UintFrom(d, p, i, acc) == UintRound(d, p, i, acc);
    assert UintFrom(d + e, p, i, acc) == UintRound(d + e, p, i, acc);
    if i < 9 && p < |d| && d[p] < 128 {
      UintGrows(d, e, p + 1, i + 1, acc * 128 + d[p]);
    }
  }

  lemma {:induction false} IntGrows(d: seq<byte>, e: seq<byte>, p: nat, i: nat, acc: int)
    requires p <= |d| && i <= 10
    ensures IntFrom(d, p, i, acc).Short? || IntFrom(d + e, p, i, acc) == IntFrom(d, p, i, acc)
    decreases 10 - i
  {
    assert IntFrom(d, p, i, acc) == IntRound(d, p, i, acc);
    assert IntFrom(d + e, p, i, acc) == IntRound(d + e, p, i, acc);
    if i < 10 && p < |d| && d[p] < 128 {
      IntGrows(d, e, p + 1, i + 1, Wrap(acc * 128 + d[p]));
    }
  }

  lemma MoreBytes(d: seq<byte>, e: seq<byte>, p: nat)
    requires p <= |d|
    ensures UintAt(d, p).Short? || UintAt(d + e, p) == UintAt(d, p)
    ensures IntAt(d, p).Short? || IntAt(d + e, p) == IntAt(d, p)
  {
    UintGrows(d, e, p, 0, 0);
    if p < |d| {
      IntGrows(d, e, p, 0, SignOf(d[p]));
    }
  }
}
