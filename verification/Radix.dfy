/**
 * Numbers as digit strings in any radix, with and without leading zeros, and byte strings as
 * numbers in either byte order.
 */
module Radix {
  import opened Common

  // ---- Numbers and digit strings in any radix -----------------------------------

  /** The value of a digit string, most significant first: `n = n * base + d`. */
  function Value(s: seq<nat>, base: nat): nat
  {
    if s == [] then 0 else Value(s[..|s| - 1], base) * base + s[|s| - 1]
  }

  /** The digits of n with no leading zero; none at all for 0. */
  function Digits(n: nat, base: nat): (d: seq<nat>)
    requires base >= 2
    ensures forall k :: 0 <= k < |d| ==> d[k] < base
    ensures |d| > 0 <==> n > 0
    ensures |d| > 0 ==> d[0] > 0
  {
    if n == 0 then [] else
      assert n / base < n by { QuotientSmaller(n, base); }
      Digits(n / base, base) + [n % base]
  }

  lemma QuotientSmaller(n: nat, base: nat)
    requires base >= 2 && n > 0
    ensures 0 <= n / base < n
  {
    MulMonotone(2, base, n / base);
    assert n == base * (n / base) + n % base;
  }

  lemma MulMonotone(a: int, b: int, c: nat)
    requires a <= b
    ensures a * c <= b * c
  {
    assert (b - a) * c >= 0;
  }

  lemma ValueOfSnoc(s: seq<nat>, d: nat, base: nat)
    ensures Value(s + [d], base) == Value(s, base) * base + d
  {
    assert (s + [d])[..|s|] == s;
  }

  lemma LastDigit(n: nat, base: nat) returns (q: nat, r: nat)
    requires base >= 2 && n > 0
    ensures q < n && r < base && n == q * base + r
    ensures Digits(n, base) == Digits(q, base) + [r]
  {
    QuotientSmaller(n, base);
    q, r := n / base, n % base;
  }

  lemma {:induction false} ValueOfDigits(n: nat, base: nat)
    requires base >= 2
    ensures Value(Digits(n, base), base) == n
    decreases n
  {
    if n > 0 {
      var q, r := LastDigit(n, base);
      ValueOfDigits(q, base);
      ValueOfSnoc(Digits(q, base), r, base);
    }
  }

  ghost predicate IsDigits(s: seq<nat>, base: nat)
  {
    forall k :: 0 <= k < |s| ==> s[k] < base
  }

  lemma DivideBack(q: nat, base: nat, r: nat)
    requires r < base
    ensures (q * base + r) / base == q && (q * base + r) % base == r
  {
    var n := q * base + r;
    assert n == (n / base) * base + n % base;
    var e := n / base - q;
    assert e * base == r - n % base;
    if e > 0 {
      MulMonotone(1, e, base);
    } else if e < 0 {
      MulMonotone(e, -1, base);
    }
  }

  lemma {:induction false} DigitsSnoc(v: nat, base: nat, d: nat)
    requires base >= 2 && d < base && (v > 0 || d > 0)
    ensures Digits(v * base + d, base) == Digits(v, base) + [d]
  {
    DivideBack(v, base, d);
    if v > 0 {
      MulMonotone(1, v, base);
    }
  }

  lemma {:induction false} DigitsOfValue(s: seq<nat>, base: nat)
    requires base >= 2 && IsDigits(s, base)
    requires |s| > 0 ==> s[0] > 0
    ensures Digits(Value(s, base), base) == s
  {
    if s != [] {
      var init, last := s[..|s| - 1], s[|s| - 1];
      DigitsOfValue(init, base);
      DigitsSnoc(Value(init, base), base, last);
      assert s == init + [last];
    }
  }

  // ---- Leading zeros ------------------------------------------------------------

  function LeadingZeros(s: seq<nat>): (z: nat)
    ensures z <= |s|
  {
    if s == [] || s[0] != 0 then 0 else 1 + LeadingZeros(s[1..])
  }

  function Zeros(k: nat): (z: seq<nat>)
    ensures |z| == k && forall i :: 0 <= i < k ==> z[i] == 0
  {
    seq(k, _ => 0)
  }

  lemma {:induction false} ZeroAt(s: seq<nat>, i: nat)
    requires i < LeadingZeros(s)
    ensures s[i] == 0
  {
    if i > 0 {
      ZeroAt(s[1..], i - 1);
    }
  }

  lemma {:induction false} NonZeroAfter(s: seq<nat>)
    requires LeadingZeros(s) < |s|
    ensures s[LeadingZeros(s)] != 0
  {
    if s[0] == 0 {
      NonZeroAfter(s[1..]);
    }
  }

  lemma ZerosSplit(s: seq<nat>, z: nat)
    requires z <= |s| && forall i :: 0 <= i < z ==> s[i] == 0
    ensures s == Zeros(z) + s[z..]
  {
  }

  lemma LeadingZerosSplit(s: seq<nat>)
    ensures s == Zeros(LeadingZeros(s)) + s[LeadingZeros(s)..]
    ensures LeadingZeros(s) < |s| ==> s[LeadingZeros(s)] != 0
  {
    var z := LeadingZeros(s);
    forall i | 0 <= i < z ensures s[i] == 0 {
      ZeroAt(s, i);
    }
    ZerosSplit(s, z);
    if z < |s| {
      NonZeroAfter(s);
    }
  }

  lemma {:induction false} LeadingZerosOf(k: nat, d: seq<nat>)
    requires |d| > 0 ==> d[0] != 0
    ensures LeadingZeros(Zeros(k) + d) == k
  {
    if k > 0 {
      LeadingZerosOf(k - 1, d);
      assert (Zeros(k) + d)[1..] == Zeros(k - 1) + d;
    } else {
      assert Zeros(k) + d == d;
    }
  }

  lemma {:induction false} ZerosAddNothing(k: nat, d: seq<nat>, base: nat)
    ensures Value(Zeros(k) + d, base) == Value(d, base)
    decreases k + |d|
  {
    var s := Zeros(k) + d;
    if d != [] {
      assert s[..|s| - 1] == Zeros(k) + d[..|d| - 1];
      ZerosAddNothing(k, d[..|d| - 1], base);
    } else if k > 0 {
      assert s[..|s| - 1] == Zeros(k - 1) + d;
      ZerosAddNothing(k - 1, d, base);
    }
  }

  // ---- Change of radix, keeping the leading zeros -------------------------------

  function Convert(s: seq<nat>, from: nat, to: nat): (r: seq<nat>)
    requires to >= 2
    ensures IsDigits(r, to)
  {
    Zeros(LeadingZeros(s)) + Digits(Value(s, from), to)
  }

  lemma ConvertBack(s: seq<nat>, from: nat, to: nat)
    requires from >= 2 && to >= 2 && IsDigits(s, from)
    ensures Convert(Convert(s, from, to), to, from) == s
  {
    var z := LeadingZeros(s);
    LeadingZerosSplit(s);
    ZerosAddNothing(z, s[z..], from);
    DigitsOfValue(s[z..], from);
    var n := Value(s, from);
    LeadingZerosOf(z, Digits(n, to));
    ZerosAddNothing(z, Digits(n, to), to);
    ValueOfDigits(n, to);
  }

  // ---- Byte strings as numbers --------------------------------------------------

  /** `n` as exactly `len` big-endian bytes: int.to_bytes(len, "big"). */
  function BigEndian(n: nat, len: nat): (r: seq<byte>)
    ensures |r| == len
  {
    if len == 0 then [] else BigEndian(n / 256, len - 1) + [n % 256]
  }

  function Pow256(k: nat): (p: nat)
    ensures p > 0
  {
    if k == 0 then 1 else 256 * Pow256(k - 1)
  }

  lemma {:induction false} BigEndianRoundTrip(n: nat, len: nat)
    requires n < Pow256(len)
    ensures Value(BigEndian(n, len), 256) == n
  {
    if len > 0 {
      BigEndianRoundTrip(n / 256, len - 1);
      var b := BigEndian(n, len);
      assert b[..|b| - 1] == BigEndian(n / 256, len - 1);
    }
  }

  /** `n` as exactly `len` little-endian bytes: int.to_bytes(len, "little"). */
  function LittleEndian(n: nat, len: nat): (r: seq<byte>)
    ensures |r| == len
  {
    if len == 0 then [] else [n % 256] + LittleEndian(n / 256, len - 1)
  }

  /** int.from_bytes(b, "little"). */
  function LittleEndianValue(b: seq<byte>): (n: nat)
    ensures n < Pow256(|b|)
  {
    if b == [] then 0 else b[0] + 256 * LittleEndianValue(b[1..])
  }

  lemma {:induction false} LittleEndianRoundTrip(n: nat, len: nat)
    requires n < Pow256(len)
    ensures LittleEndianValue(LittleEndian(n, len)) == n
  {
    if len > 0 {
      LittleEndianRoundTrip(n / 256, len - 1);
      assert LittleEndian(n, len)[1..] == LittleEndian(n / 256, len - 1);
    }
  }

  /** int.bit_length(). */
  function BitLength(n: nat): nat
  {
    if n == 0 then 0 else 1 + BitLength(n / 2)
  }

  lemma {:induction false} BytesOfBits(n: nat)
    ensures |Digits(n, 256)| == (BitLength(n) + 7) / 8
    decreases n
  {
    if n < 256 {
      assert Digits(n, 256) == if n == 0 then [] else Digits(0, 256) + [n];
      ShiftEight(n);
    } else {
      BytesOfBits(n / 256);
      ShiftEight(n);
    }
  }

  lemma ShiftFour(n: nat)
    ensures n >= 16 ==> BitLength(n) == 4 + BitLength(n / 16)
    ensures 0 < n < 16 ==> 1 <= BitLength(n) <= 4
  {
    assert n / 2 / 2 / 2 / 2 == n / 16;
    assert BitLength(n / 2 / 2) == if n < 4 then 0 else 1 + BitLength(n / 2 / 2 / 2);
  }

  lemma ShiftEight(n: nat)
    ensures n >= 256 ==> BitLength(n) == 8 + BitLength(n / 256)
    ensures 0 < n < 256 ==> 1 <= BitLength(n) <= 8
  {
    ShiftFour(n);
    ShiftFour(n / 16);
    assert n / 16 / 16 == n / 256;
  }

  /** n.to_bytes((n.bit_length() + 7) // 8, "big") has no leading zero and loses nothing. */
  lemma {:induction false} MinimalBytes(n: nat)
    ensures BigEndian(n, (BitLength(n) + 7) / 8) == Digits(n, 256)
  {
    BytesOfBits(n);
    PaddingIsDigits(n);
  }

  lemma {:induction false} PaddingIsDigits(n: nat)
    ensures BigEndian(n, |Digits(n, 256)|) == Digits(n, 256)
    decreases n
  {
    if n > 0 {
      PaddingIsDigits(n / 256);
    }
  }

  // ---- Numbers in groups of seven bits, least significant first ------------------

  function Pow128(i: nat): (p: nat)
    ensures p > 0
  {
    if i == 0 then 1 else 128 * Pow128(i - 1)
  }

  /** `n << (7 * i)` */
  function Shifted(n: nat, i: nat): nat
  {
    n * Pow128(i)
  }

  lemma ShiftedByNothing(n: nat)
    ensures Shifted(n, 0) == n
  {
  }

  lemma ShiftedSum(low: nat, high: nat, i: nat)
    ensures Shifted(low + 128 * high, i) == Shifted(low, i) + Shifted(high, i + 1)
  {
    Distribute(Pow128(i), low, high);
  }

  lemma Distribute(p: nat, low: nat, high: nat)
    ensures (low + 128 * high) * p == low * p + high * (128 * p)
  {
  }
}
