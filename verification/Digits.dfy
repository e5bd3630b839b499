/** Decimal numerals as bytes: the specification behind lib/itoa.c and the readers of lib/proto/fix_message.c. */
module Digits {

  type byte = x: int | 0 <= x < 256

  const ZERO: byte := 48
  const MINUS: byte := 45

  predicate IsDigit(b: byte) { 48 <= b <= 57 }

  predicate AllDigits(s: seq<byte>) {
    forall i | 0 <= i < |s| :: IsDigit(s[i])
  }

  function Pow10(n: nat): (r: nat)
    ensures r > 0
  {
    if n == 0 then 1 else 10 * Pow10(n - 1)
  }

  /** The canonical numeral of `n`: no leading zero unless `n` is 0. */
  function Numeral(n: nat): (s: seq<byte>)
    ensures s != []
    ensures AllDigits(s)
  {
    if n < 10 then [ZERO + n] else Numeral(n / 10) + [ZERO + n % 10]
  }

  /** The number a string of digits denotes. */
  function Value(s: seq<byte>): nat
    requires AllDigits(s)
  {
    if s == [] then 0
    else
      assert IsDigit(s[|s| - 1]);
      10 * Value(s[..|s| - 1]) + (s[|s| - 1] - ZERO)
  }

  function Zeros(n: nat): (s: seq<byte>)
    ensures |s| == n && forall i | 0 <= i < n :: s[i] == ZERO
  {
    if n == 0 then [] else [ZERO] + Zeros(n - 1)
  }

  /** Sign, zeros up to `width` characters in all, digits. */
  function Padded(v: int, width: int): seq<byte> {
    var digits := Numeral(if v < 0 then -v else v);
    var fill := width - |digits| - if v < 0 then 1 else 0;
    (if v < 0 then [MINUS] else []) + Zeros(if fill > 0 then fill else 0) + digits
  }

  /** A plain signed numeral. */
  function Signed(v: int): seq<byte> {
    Padded(v, 0)
  }

  // ----- laws -----------------------------------------------------------------------------

  lemma {:induction false} NumeralDenotes(n: nat)
    ensures Value(Numeral(n)) == n
    ensures n > 0 ==> Numeral(n)[0] != ZERO
  {
    if n >= 10 {
      NumeralDenotes(n / 10);
      assert Numeral(n)[..|Numeral(n)| - 1] == Numeral(n / 10);
    }
  }

  lemma {:induction false} ZerosDenoteNothing(k: nat, s: seq<byte>)
    requires AllDigits(s)
    ensures Value(Zeros(k) + s) == Value(s)
    decreases |s|, k
  {
    if s != [] {
      assert (Zeros(k) + s)[..k + |s| - 1] == Zeros(k) + s[..|s| - 1];
      ZerosDenoteNothing(k, s[..|s| - 1]);
    } else if k > 0 {
      assert Zeros(k) == Zeros(k - 1) + [ZERO] by {
        assert forall i | 0 <= i < k :: Zeros(k)[i] == (Zeros(k - 1) + [ZERO])[i];
      }
      assert (Zeros(k) + s)[..k - 1] == Zeros(k - 1) + s;
      ZerosDenoteNothing(k - 1, s);
    }
  }

  /** A numeral has as many digits as the number needs. */
  lemma {:induction false} NumeralLength(n: nat, k: nat)
    requires k > 0 && n < Pow10(k) && (k > 1 ==> Pow10(k - 1) <= n)
    ensures |Numeral(n)| == k
  {
    if k > 1 {
      assert Pow10(k - 1) == 10 * Pow10(k - 2);
      NumeralLength(n / 10, k - 1);
    }
  }

  lemma {:induction false} NumeralFits(n: nat, k: nat)
    requires k > 0 && n < Pow10(k)
    ensures |Numeral(n)| <= k
  {
    if n >= 10 {
      NumeralFits(n / 10, k - 1);
    }
  }

  /** A padded number that fits has exactly the width asked for. */
  lemma PaddedWidth(v: nat, width: nat)
    requires width > 0 && v < Pow10(width)
    ensures |Padded(v, width)| == width
    ensures forall i | 0 <= i < width :: IsDigit(Padded(v, width)[i])
    ensures Value(Padded(v, width)) == v
  {
    NumeralFits(v, width);
    NumeralDenotes(v);
    var fill := width - |Numeral(v)|;
    assert Padded(v, width) == Zeros(fill) + Numeral(v);
    ZerosDenoteNothing(fill, Numeral(v));
  }

  /** Any padded number: a minus if it is negative, zeros in front of its digits, as long as was asked or as it has
      to be. */
  lemma PaddedShape(v: int, width: nat)
    ensures var s, digits := Padded(v, width), Numeral(if v < 0 then -v else v);
      && |s| == (var least := |digits| + if v < 0 then 1 else 0; if width > least then width else least)
      && s[|s| - |digits|..] == digits && (v < 0 <==> s[0] == MINUS)
      && forall i | (if v < 0 then 1 else 0) <= i < |s| - |digits| :: s[i] == ZERO
  {
    var s, digits := Padded(v, width), Numeral(if v < 0 then -v else v);
    var sign: seq<byte> := if v < 0 then [MINUS] else [];
    var zeros := Zeros(|s| - |digits| - |sign|);
    assert s == sign + zeros + digits;
    assert s[|s| - |digits|..] == digits;
  }

  // ----- reading --------------------------------------------------------------------------

  /** fix_uatoi: the number at `p`, continuing from `acc`, and where its digits end. */
  function ReadNat(d: seq<byte>, p: nat, acc: nat): (r: (nat, nat))
    requires p <= |d|
    ensures p <= r.1 <= |d|
    decreases |d| - p
  {
    if p < |d| && IsDigit(d[p]) then ReadNat(d, p + 1, 10 * acc + (d[p] - ZERO)) else (acc, p)
  }

  /** fix_atoi64 */
  function ReadInt(d: seq<byte>, p: nat): (int, nat)
    requires p <= |d|
  {
    var neg := p < |d| && d[p] == MINUS;
    var (n, end) := ReadNat(d, if neg then p + 1 else p, 0);
    (if neg then 0 - n else n, end)
  }

  ghost predicate DigitsAt(d: seq<byte>, p: nat, s: seq<byte>) {
    && p + |s| <= |d| && d[p..p + |s|] == s
    && AllDigits(s)
    && (p + |s| < |d| ==> !IsDigit(d[p + |s|]))
  }

  lemma Shift(acc: nat, digit: nat, k: nat)
    requires k > 0
    ensures (10 * acc + digit) * Pow10(k - 1) == acc * Pow10(k) + digit * Pow10(k - 1)
  {
  }

  lemma {:induction false} ReadsDigits(d: seq<byte>, p: nat, s: seq<byte>, acc: nat)
    requires DigitsAt(d, p, s)
    ensures ReadNat(d, p, acc) == (acc * Pow10(|s|) + Value(s), p + |s|)
    decreases |s|
  {
    if s != [] {
      assert d[p] == s[0];
      assert d[p + 1..p + 1 + |s[1..]|] == s[1..];
      ReadsDigits(d, p + 1, s[1..], 10 * acc + (s[0] - ZERO));
      ValueFromFront(s);
      Shift(acc, s[0] - ZERO, |s|);
    }
  }

  lemma TenTimes(digit: nat, k: nat)
    ensures 10 * (digit * Pow10(k)) == digit * Pow10(k + 1)
  {
    assert Pow10(k + 1) == 10 * Pow10(k);
  }

  lemma {:induction false} ValueFromFront(s: seq<byte>)
    requires s != [] && AllDigits(s)
    ensures Value(s) == (s[0] - ZERO) * Pow10(|s| - 1) + Value(s[1..])
    decreases |s|
  {
    if |s| > 1 {
      var t := s[..|s| - 1];
      ValueFromFront(t);
      assert t[1..] == s[1..][..|s| - 2];
      assert Value(s[1..]) == 10 * Value(t[1..]) + (s[|s| - 1] - ZERO);
      TenTimes(s[0] - ZERO, |s| - 2);
    } else {
      assert Value(s) == 10 * Value(s[..0]) + (s[0] - ZERO);
    }
  }

  /** A printed number is an optional minus and a string of digits. */
  lemma PrintedShape(v: int, width: int) returns (t: seq<byte>)
    ensures AllDigits(t) && t != [] && Value(t) == if v < 0 then -v else v
    ensures Padded(v, width) == (if v < 0 then [MINUS] else []) + t
  {
    var digits := Numeral(if v < 0 then -v else v);
    var fill := width - |digits| - if v < 0 then 1 else 0;
    var n := if fill > 0 then fill else 0;
    t := Zeros(n) + digits;
    NumeralDenotes(if v < 0 then -v else v);
    ZerosDenoteNothing(n, digits);
    assert (if v < 0 then [MINUS] else []) + Zeros(n) + digits == (if v < 0 then [MINUS] else []) + t;
  }

  lemma ReadsSigned(d: seq<byte>, p: nat, neg: bool, t: seq<byte>)
    requires AllDigits(t) && t != []
    requires var s := (if neg then [MINUS] else []) + t;
      p + |s| <= |d| && d[p..p + |s|] == s && (p + |s| < |d| ==> !IsDigit(d[p + |s|]))
    ensures ReadInt(d, p) == (if neg then 0 - Value(t) else Value(t), p + |t| + if neg then 1 else 0)
    ensures !neg ==> ReadNat(d, p, 0) == (Value(t), p + |t|)
  {
    var s := (if neg then [MINUS] else []) + t;
    assert d[p] == d[p..p + |s|][0] == s[0];
    if neg {
      assert s[1..] == t;
      assert d[p + 1..p + 1 + |t|] == d[p..p + |s|][1..];
      ReadsDigits(d, p + 1, t, 0);
    } else {
      assert s == t && IsDigit(t[0]);
      ReadsDigits(d, p, t, 0);
    }
  }

  /** Whatever was printed, signed or padded, is read back. */
  lemma ReadsPrinted(d: seq<byte>, p: nat, v: int, width: int)
    requires var s := Padded(v, width);
      p + |s| <= |d| && d[p..p + |s|] == s && (p + |s| < |d| ==> !IsDigit(d[p + |s|]))
    ensures ReadInt(d, p) == (v, p + |Padded(v, width)|)
    ensures v >= 0 ==> ReadNat(d, p, 0) == (v, p + |Padded(v, width)|)
  {
    var t := PrintedShape(v, width);
    ReadsSigned(d, p, v < 0, t);
  }
}
