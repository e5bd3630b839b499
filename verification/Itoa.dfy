/** The number printers of lib/itoa.c, writing into a byte buffer in place. */
module Itoa {
  import opened Digits

  /** `s` with `t` written over it from position `off` on. */
  function Splice(s: seq<byte>, off: nat, t: seq<byte>): (r: seq<byte>)
    requires off + |t| <= |s|
    ensures |r| == |s|
    ensures r[..off] == s[..off] && r[off..off + |t|] == t && r[off + |t|..] == s[off + |t|..]
  {
    s[..off] + t + s[off + |t|..]
  }

  /** Entry `i` of itoa_tab: the numerals 00 to 99, two bytes each. */
  function Tab(i: nat): byte
    requires i < 200
  {
    if i % 2 == 0 then ZERO + i / 2 / 10 else ZERO + i / 2 % 10
  }

  /** uilog_10 */
  function Log10(n: nat): nat {
    if n <= 9 then 1
    else if n <= 99 then 2
    else if n <= 999 then 3
    else if n <= 9999 then 4
    else if n <= 99999 then 5
    else if n <= 999999 then 6
    else if n <= 9999999 then 7
    else if n <= 99999999 then 8
    else if n <= 999999999 then 9
    else 10
  }

  /** For every 32-bit number uilog_10 is the length of its numeral. */
  lemma LogIsLength(n: nat)
    requires n < 0x1_0000_0000
    ensures Log10(n) == |Numeral(n)|
  {
    assert Pow10(1) == 10 && Pow10(2) == 100 && Pow10(3) == 1000 && Pow10(4) == 10000 && Pow10(5) == 100000;
    assert Pow10(6) == 1000000 && Pow10(7) == 10000000 && Pow10(8) == 100000000 && Pow10(9) == 1000000000;
    assert Pow10(10) == 10000000000;
    NumeralLength(n, Log10(n));
  }

  lemma TwoDigits(n: nat)
    requires n >= 100
    ensures Numeral(n) == Numeral(n / 100) + [Tab(2 * (n % 100)), Tab(2 * (n % 100) + 1)]
  {
    assert n / 10 / 10 == n / 100 && n / 10 % 10 == n % 100 / 10 && n % 10 == n % 100 % 10;
    assert Numeral(n / 10) == Numeral(n / 100) + [ZERO + n / 10 % 10];
    assert Numeral(n) == Numeral(n / 10) + [ZERO + n % 10];
  }

  /** The leading one or two digits, which end right before position `end`. */
  method LeadingDigits(m: nat, a: array<byte>, end: nat)
    requires m < 100 && |Numeral(m)| <= end <= a.Length
    modifies a
    ensures a[..] == Splice(old(a[..]), end - |Numeral(m)|, Numeral(m))
  {
    var src: nat := (m + 1) * 2 - 1;
    var p := end - 1;
    a[p] := Tab(src);
    if m > 9 {
      a[p - 1] := Tab(src - 1);
    }
    assert Numeral(m) == if m > 9 then [Tab(src - 1), Tab(src)] else [Tab(src)];
    assert a[end - |Numeral(m)|..end] == Numeral(m);
    assert a[..] == a[..end - |Numeral(m)|] + a[end - |Numeral(m)|..end] + a[end..];
  }

  /** Writing right in front of a splice extends it. */
  lemma SpliceInFront(s: seq<byte>, p: nat, t: seq<byte>, u: seq<byte>)
    requires |t| <= p && p + |u| <= |s|
    ensures Splice(Splice(s, p, u), p - |t|, t) == Splice(s, p - |t|, t + u)
  {
  }

  /** The memcpy of uitoa_general. */
  method PutTwo(a: array<byte>, p: nat, src: nat)
    requires p + 2 <= a.Length && src < 199
    modifies a
    ensures a[..] == Splice(old(a[..]), p, [Tab(src), Tab(src + 1)])
  {
    a[p], a[p + 1] := Tab(src), Tab(src + 1);
  }

  /** The digits of `n` in front of `end` that remain when `m` is left to print. */
  ghost predicate Printed(was: seq<byte>, now: seq<byte>, n: nat, m: nat, p: nat, end: nat, done: seq<byte>) {
    && |Numeral(m)| <= p && p + |done| == end <= |was|
    && Numeral(n) == Numeral(m) + done
    && now == Splice(was, p, done)
  }

  /** One turn of the loop of uitoa_general: the last two digits of `m`. */
  method PrintTwo(a: array<byte>, n: nat, m: nat, p: nat, ghost was: seq<byte>, ghost end: nat, ghost done: seq<byte>)
      returns (ghost more: seq<byte>)
    requires m >= 100 && Printed(was, a[..], n, m, p, end, done)
    modifies a
    ensures p >= 2 && Printed(was, a[..], n, m / 100, p - 2, end, more)
    ensures |Numeral(m)| == |Numeral(m / 100)| + 2
  {
    TwoDigits(m);
    var src := 2 * (m % 100);
    PutTwo(a, p - 2, src);
    SpliceInFront(was, p, [Tab(src), Tab(src + 1)], done);
    more := [Tab(src), Tab(src + 1)] + done;
    assert Numeral(m / 100) + more == Numeral(m) + done;
  }

  /** uitoa_general */
  method UitoaGeneral(n: nat, a: array<byte>, off: nat) returns (len: nat)
    requires n < 0x1_0000_0000 && off + |Numeral(n)| <= a.Length
    modifies a
    ensures len == |Numeral(n)| && a[..] == Splice(old(a[..]), off, Numeral(n))
  {
    LogIsLength(n);
    var log := Log10(n);
    var p, m: nat := off + log, n;
    ghost var done: seq<byte> := [];
    assert Numeral(n) + [] == Numeral(n);
    assert a[..] == Splice(a[..], p, []);
    while m >= 100
      invariant m <= n && p == off + |Numeral(m)|
      invariant Printed(old(a[..]), a[..], n, m, p, off + log, done)
    {
      done := PrintTwo(a, n, m, p, old(a[..]), off + log, done);
      p, m := p - 2, m / 100;
    }
    LeadingDigits(m, a, p);
    SpliceInFront(old(a[..]), p, Numeral(m), done);
    return log;
  }

  /** uitoa */
  method Uitoa(n: nat, a: array<byte>, off: nat) returns (len: nat)
    requires n < 0x1_0000_0000 && off + |Numeral(n)| <= a.Length
    modifies a
    ensures len == |Numeral(n)| && a[..] == Splice(old(a[..]), off, Numeral(n))
  {
    if n <= 99 {
      var src, p := 2 * n, off;
      if n >= 10 {
        a[p] := Tab(src);
        p := p + 1;
      }
      a[p] := Tab(src + 1);
      assert a[off..p + 1] == Numeral(n);
      assert a[..] == a[..off] + a[off..p + 1] + a[p + 1..];
      return p + 1 - off;
    }
    len := UitoaGeneral(n, a, off);
  }

  /** itoa; i64toa calls it for every number of 32 bits */
  method Itoa(n: int, a: array<byte>, off: nat) returns (len: nat)
    requires -0x8000_0000 <= n < 0x8000_0000 && off + |Signed(n)| <= a.Length
    modifies a
    ensures len == |Signed(n)| && a[..] == Splice(old(a[..]), off, Signed(n))
  {
    hide Numeral;
    if n < 0 {
      a[off] := MINUS;
      ghost var mid := a[..];
      len := Uitoa(-n, a, off + 1);
      assert Signed(n) == [MINUS] + Numeral(-n);
      assert Splice(mid, off + 1, Numeral(-n)) == Splice(old(a[..]), off, Signed(n));
      return len + 1;
    }
    assert Signed(n) == Numeral(n);
    len := Uitoa(n, a, off);
  }

  /** checksumtoa: three digits for every checksum. */
  method ChecksumToA(n: nat, a: array<byte>, off: nat) returns (len: nat)
    requires n < 256 && off + 3 <= a.Length
    modifies a
    ensures len == 3 == |Padded(n, 3)| && a[..] == Splice(old(a[..]), off, Padded(n, 3))
  {
    if n <= 99 {
      a[off], a[off + 1], a[off + 2] := ZERO, Tab(2 * n), Tab(2 * n + 1);
      assert Padded(n, 3) == [ZERO, Tab(2 * n), Tab(2 * n + 1)];
      assert a[..] == a[..off] + a[off..off + 3] + a[off + 3..];
      return 3;
    }
    assert Pow10(2) == 100 && Pow10(3) == 1000;
    NumeralLength(n, 3);
    assert Padded(n, 3) == Numeral(n);
    len := UitoaGeneral(n, a, off);
  }

  function Reverse(s: seq<byte>): (r: seq<byte>)
    ensures |r| == |s| && forall i | 0 <= i < |s| :: r[i] == s[|s| - 1 - i]
  {
    if s == [] then [] else Reverse(s[1..]) + [s[0]]
  }

  /** strreverse */
  method StrReverse(a: array<byte>, begin: nat, end: nat)
    requires begin <= end <= a.Length
    modifies a
    ensures a[..] == Splice(old(a[..]), begin, Reverse(old(a[begin..end])))
  {
    var lo: nat, hi: int := begin, end - 1;
    while lo < hi
      invariant begin <= lo && hi < end && lo - begin == end - 1 - hi && lo <= hi + 1
      invariant forall k | begin <= k < lo || hi < k < end :: a[k] == old(a[begin + end - 1 - k])
      invariant forall k | 0 <= k < begin || lo <= k <= hi || end <= k < a.Length :: a[k] == old(a[k])
    {
      a[lo], a[hi] := a[hi], a[lo];
      lo := lo + 1;
      hi := hi - 1;
    }
    SpliceIs(old(a[..]), begin, Reverse(old(a[begin..end])), a[..]);
  }

  lemma SpliceIs(s: seq<byte>, off: nat, t: seq<byte>, r: seq<byte>)
    requires off + |t| <= |s| == |r|
    requires forall k | 0 <= k < |s| :: r[k] == if off <= k < off + |t| then t[k - off] else s[k]
    ensures r == Splice(s, off, t)
  {
  }

  lemma SpliceBehind(s: seq<byte>, off: nat, t: seq<byte>, u: seq<byte>)
    requires off + |t| + |u| <= |s|
    ensures Splice(Splice(s, off, t), off + |t|, u) == Splice(s, off, t + u)
  {
  }

  /** Digits from the last to the first. */
  function Backwards(n: nat): (s: seq<byte>)
    ensures s != []
  {
    [ZERO + n % 10] + if n < 10 then [] else Backwards(n / 10)
  }

  lemma {:induction false} BackwardsReversed(n: nat)
    ensures |Backwards(n)| == |Numeral(n)| && Reverse(Backwards(n)) == Numeral(n)
  {
    if n >= 10 {
      BackwardsReversed(n / 10);
      assert Backwards(n)[1..] == Backwards(n / 10);
    }
  }

  method PutByte(a: array<byte>, p: nat, b: byte)
    requires p < a.Length
    modifies a
    ensures a[..] == Splice(old(a[..]), p, [b])
  {
    a[p] := b;
  }

  lemma BackwardsStep(done: seq<byte>, u: nat, all: seq<byte>)
    requires u >= 10 && done + Backwards(u) == all
    ensures done + [ZERO + u % 10] + Backwards(u / 10) == all
  {
    assert done + ([ZERO + u % 10] + Backwards(u / 10)) == done + [ZERO + u % 10] + Backwards(u / 10);
  }

  /** The do-while loop of modp_litoa10_zpad. */
  method PutBackwards(n: nat, a: array<byte>, off: nat) returns (end: nat)
    requires off + |Backwards(n)| <= a.Length
    modifies a
    ensures end == off + |Backwards(n)| && a[..] == Splice(old(a[..]), off, Backwards(n))
  {
    var u: nat := n;
    ghost var done: seq<byte>, all: seq<byte> := [], Backwards(n);
    end := off;
    assert a[..] == Splice(a[..], off, []);
    assert done + Backwards(u) == all;
    while u >= 10
      invariant end == off + |done| && done + Backwards(u) == all
      invariant off + |done| <= a.Length && a[..] == Splice(old(a[..]), off, done)
    {
      BackwardsStep(done, u, all);
      assert |all| == |done| + |Backwards(u)|;
      PutByte(a, end, ZERO + u % 10);
      SpliceBehind(old(a[..]), off, done, [ZERO + u % 10]);
      done := done + [ZERO + u % 10];
      u := u / 10;
      end := end + 1;
    }
    assert Backwards(u) == [ZERO + u % 10] && |all| == |done| + 1;
    PutByte(a, end, ZERO + u % 10);
    SpliceBehind(old(a[..]), off, done, [ZERO + u % 10]);
    end := end + 1;
  }

  /** Append zeros, as the padding loop does. */
  method PutZeros(k: int, a: array<byte>, off: nat) returns (end: nat)
    requires off + (if k > 0 then k else 0) <= a.Length
    modifies a
    ensures end == off + (if k > 0 then k else 0)
    ensures a[..] == Splice(old(a[..]), off, Zeros(end - off))
  {
    end := off;
    var left := k;
    assert a[..] == Splice(a[..], off, Zeros(0));
    while left > 0
      invariant left <= k && end == off + (if k > 0 then k - left else 0)
      invariant k > 0 ==> left >= 0
      invariant a[..] == Splice(old(a[..]), off, Zeros(end - off))
    {
      PutByte(a, end, ZERO);
      SpliceBehind(old(a[..]), off, Zeros(end - off), [ZERO]);
      assert Zeros(end - off) + [ZERO] == Zeros(end + 1 - off);
      end := end + 1;
      left := left - 1;
    }
  }

  /** The padding the source computes after the digits. */
  function Fill(v: int, width: int): nat {
    var fill := width - |Backwards(if v < 0 then -v else v)| - if v < 0 then 1 else 0;
    if fill > 0 then fill else 0
  }

  function Tail(v: int, width: int): seq<byte> {
    Zeros(Fill(v, width)) + Sign(v < 0)
  }

  lemma PaddedBackwards(v: int, width: int)
    ensures |Back(v, width)| == |Padded(v, width)| && Reverse(Back(v, width)) == Padded(v, width)
  {
    BackwardsReversed(if v < 0 then -v else v);
  }

  method PutSign(neg: bool, a: array<byte>, off: nat) returns (end: nat)
    requires off + |Sign(neg)| <= a.Length
    modifies a
    ensures end == off + |Sign(neg)| && a[..] == Splice(old(a[..]), off, Sign(neg))
  {
    if neg {
      PutByte(a, off, MINUS);
      return off + 1;
    }
    assert a[..] == Splice(a[..], off, []);
    return off;
  }

  function Sign(neg: bool): seq<byte> {
    if neg then [MINUS] else []
  }

  /** The padding and the sign that follow the digits. */
  method PutTail(value: int, zpad: int, a: array<byte>, off: nat, digits: nat) returns (end: nat)
    requires digits == |Backwards(if value < 0 then -value else value)|
    requires off + |Tail(value, zpad)| <= a.Length
    modifies a
    ensures end == off + |Tail(value, zpad)| && a[..] == Splice(old(a[..]), off, Tail(value, zpad))
  {
    var fill := zpad - (digits + if value < 0 then 1 else 0);
    end := PutZeros(fill, a, off);
    end := PutSign(value < 0, a, end);
    SpliceBehind(old(a[..]), off, Zeros(Fill(value, zpad)), Sign(value < 0));
  }

  function Back(value: int, zpad: int): seq<byte> {
    Backwards(if value < 0 then -value else value) + Tail(value, zpad)
  }

  /** modp_litoa10_zpad before the reversal. */
  method PutBack(value: int, zpad: int, a: array<byte>, off: nat) returns (end: nat)
    requires off + |Back(value, zpad)| <= a.Length
    modifies a
    ensures end == off + |Back(value, zpad)| && a[..] == Splice(old(a[..]), off, Back(value, zpad))
  {
    var uvalue: nat := if value < 0 then -value else value;
    var wstr := PutBackwards(uvalue, a, off);
    end := PutTail(value, zpad, a, wstr, wstr - off);
    SpliceBehind(old(a[..]), off, Backwards(uvalue), Tail(value, zpad));
  }

  /** modp_litoa10_zpad */
  method LitoaZpad(value: int, zpad: int, a: array<byte>, off: nat) returns (len: nat)
    requires off + |Padded(value, zpad)| <= a.Length
    modifies a
    ensures len == |Padded(value, zpad)| && a[..] == Splice(old(a[..]), off, Padded(value, zpad))
  {
    PaddedBackwards(value, zpad);
    ghost var back := Back(value, zpad);
    var wstr := PutBack(value, zpad, a, off);
    assert a[off..wstr] == back by {
      assert a[off..wstr] == a[..][off..wstr];
    }
    StrReverse(a, off, wstr);
    SpliceTwice(old(a[..]), off, back, Padded(value, zpad));
    return wstr - off;
  }

  lemma SpliceTwice(s: seq<byte>, off: nat, t: seq<byte>, u: seq<byte>)
    requires off + |t| <= |s| && |u| == |t|
    ensures Splice(Splice(s, off, t), off, u) == Splice(s, off, u)
  {
  }
}
