/**
 * Numbers of JSON documents: their decimal digits, the values these stand for, and the normal form
 * that RFC 8785 prints.
 */
module Numbers {
  import opened Radix

  /** A code point, surrogates included, as in a Python string. */
  type Code = c: int | 0 <= c < 0x11_0000

  type Text = seq<Code>

  function T(s: string): (t: Text)
    ensures |t| == |s| && forall i :: 0 <= i < |s| ==> t[i] == s[i] as int
  {
    seq(|s|, i requires 0 <= i < |s| => s[i] as int)
  }

  /**
   * An integer as Python reads it, a double by sign, digits and exponent as `Decimal(repr(x))`
   * gives them, or a double that is not finite.
   */
  datatype Number =
    | Whole(i: int)
    | Double(neg: bool, digits: seq<nat>, exp: int)
    | Infinite(neg: bool)
    | NaN

  const ZERO := Double(false, [], 0)

  /** 2 ** 53 */
  const EXACT := 9007199254740992

  predicate ProperNumber(x: Number)
  {
    x.Double? ==> forall k :: 0 <= k < |x.digits| ==> x.digits[k] < 10
  }

  // ---- Values -------------------------------------------------------------------

  /** v times ten to the power of e. */
  function Scale(v: int, e: int): real
    decreases if e >= 0 then e else -e
  {
    if e == 0 then v as real else if e > 0 then Scale(10 * v, e - 1) else Scale(v, e + 1) / 10.0
  }

  function Signed(neg: bool, v: int): int
  {
    if neg then -v else v
  }

  predicate Finite(x: Number)
  {
    x.Whole? || x.Double?
  }

  /** The number a finite x stands for. */
  function Amount(x: Number): real
    requires Finite(x)
  {
    match x
    case Whole(i) => i as real
    case Double(neg, digits, exp) => Scale(Signed(neg, Value(digits, 10)), exp)
  }

  lemma {:induction false} ScaleTen(v: int, e: int)
    ensures Scale(10 * v, e) == Scale(v, e + 1)
    decreases if e >= 0 then e else -e
  {
    if e < -1 {
      ScaleTen(v, e + 1);
    }
  }

  // ---- Normal form --------------------------------------------------------------

  function TrailingZeros(s: seq<nat>): (z: nat)
    ensures z <= |s|
  {
    if s == [] || s[|s| - 1] != 0 then 0 else 1 + TrailingZeros(s[..|s| - 1])
  }

  /** No zero at either end, and zero has no digits and no sign. */
  predicate IsNormal(x: Number)
  {
    && x.Double? && ProperNumber(x)
    && (if x.digits == [] then x == ZERO else x.digits[0] != 0 && x.digits[|x.digits| - 1] != 0)
  }

  /** The `rstrip` and `lstrip` of `_jcs_number`. */
  function Stripped(neg: bool, digits: seq<nat>, exp: int): Number
  {
    var front := WithoutTrailing(digits);
    MakeDouble(neg, front[LeadingZeros(front)..], exp + TrailingZeros(digits))
  }

  function WithoutTrailing(digits: seq<nat>): seq<nat>
  {
    digits[..|digits| - TrailingZeros(digits)]
  }

  function MakeDouble(neg: bool, s: seq<nat>, exp: int): Number
  {
    if s == [] then ZERO else Double(neg, s, exp)
  }

  /** The one normal form of a finite number; others stay as they are. */
  function Normal(x: Number): Number
  {
    match x
    case Whole(i) => Stripped(i < 0, Digits(if i < 0 then -i else i, 10), 0)
    case Double(neg, digits, exp) => Stripped(neg, digits, exp)
    case _ => x
  }

  lemma {:induction false} TrailingZerosSplit(s: seq<nat>)
    ensures s == s[..|s| - TrailingZeros(s)] + Zeros(TrailingZeros(s))
    ensures TrailingZeros(s) < |s| ==> s[|s| - TrailingZeros(s) - 1] != 0
  {
    if s != [] && s[|s| - 1] == 0 {
      var front := s[..|s| - 1];
      TrailingZerosSplit(front);
      assert s == front + [0];
      assert Zeros(TrailingZeros(front)) + [0] == Zeros(TrailingZeros(s));
    }
  }

  /** What is left when zeros are taken off at both ends. */
  function Core(digits: seq<nat>): seq<nat>
  {
    var front := WithoutTrailing(digits);
    front[LeadingZeros(front)..]
  }

  lemma CoreEnds(digits: seq<nat>)
    requires Core(digits) != []
    ensures Core(digits)[0] != 0 && Core(digits)[|Core(digits)| - 1] != 0
  {
    var front := WithoutTrailing(digits);
    LeadingZerosSplit(front);
    TrailingZerosSplit(digits);
    assert front[|front| - 1] == digits[|digits| - TrailingZeros(digits) - 1];
  }

  /** The digits are those that are kept between two runs of zeros. */
  lemma Parts(digits: seq<nat>) returns (a: nat, s: seq<nat>, b: nat)
    ensures digits == Zeros(a) + s + Zeros(b) && s == Core(digits) && b == TrailingZeros(digits)
    ensures s != [] ==> s[0] != 0 && s[|s| - 1] != 0
  {
    var front := WithoutTrailing(digits);
    TrailingZerosSplit(digits);
    LeadingZerosSplit(front);
    a, s, b := LeadingZeros(front), Core(digits), TrailingZeros(digits);
    if s != [] {
      CoreEnds(digits);
    }
  }

  lemma StrippedTo(neg: bool, digits: seq<nat>, exp: int)
    ensures Stripped(neg, digits, exp) == MakeDouble(neg, Core(digits), exp + TrailingZeros(digits))
  {
  }

  lemma StrippedIsNormal(neg: bool, digits: seq<nat>, exp: int)
    requires forall k :: 0 <= k < |digits| ==> digits[k] < 10
    ensures IsNormal(Stripped(neg, digits, exp))
  {
    var a, s, b := Parts(digits);
    StrippedTo(neg, digits, exp);
    forall k | 0 <= k < |s| ensures s[k] < 10 {
      assert s[k] == digits[a + k];
    }
  }

  lemma {:induction false} ScaleZeros(s: seq<nat>, neg: bool, k: nat, e: int)
    ensures Scale(Signed(neg, Value(s + Zeros(k), 10)), e) == Scale(Signed(neg, Value(s, 10)), e + k)
  {
    if k == 0 {
      assert s + Zeros(0) == s;
    } else {
      assert s + Zeros(k) == (s + Zeros(k - 1)) + [0];
      ValueOfSnoc(s + Zeros(k - 1), 0, 10);
      ScaleTen(Signed(neg, Value(s + Zeros(k - 1), 10)), e);
      ScaleZeros(s, neg, k - 1, e + 1);
    }
  }

  lemma AmountOf(neg: bool, s: seq<nat>, e: int)
    ensures Amount(MakeDouble(neg, s, e)) == Scale(Signed(neg, Value(s, 10)), e)
  {
    if s == [] {
      ScaleOfZero(e);
    }
  }

  lemma BetweenZeros(neg: bool, a: nat, s: seq<nat>, b: nat, e: int)
    ensures Scale(Signed(neg, Value(Zeros(a) + s + Zeros(b), 10)), e) == Scale(Signed(neg, Value(s, 10)), e + b)
  {
    ScaleZeros(Zeros(a) + s, neg, b, e);
    ZerosAddNothing(a, s, 10);
  }

  /** Stripping zeros does not change the number. */
  lemma StrippedKeepsAmount(neg: bool, digits: seq<nat>, exp: int)
    ensures Amount(Stripped(neg, digits, exp)) == Scale(Signed(neg, Value(digits, 10)), exp)
  {
    var a, s, b := Parts(digits);
    StrippedTo(neg, digits, exp);
    BetweenZeros(neg, a, s, b, exp);
    AmountOf(neg, s, exp + b);
  }

  lemma {:induction false} ScaleOfZero(e: int)
    ensures Scale(0, e) == 0.0
    decreases if e >= 0 then e else -e
  {
    if e > 0 {
      ScaleOfZero(e - 1);
    } else if e < 0 {
      ScaleOfZero(e + 1);
    }
  }

  lemma NormalKeepsAmount(x: Number)
    requires Finite(x) && ProperNumber(x)
    ensures IsNormal(Normal(x)) && Amount(Normal(x)) == Amount(x)
  {
    if x.Whole? {
      WholeKeepsAmount(x.i);
    } else {
      StrippedKeepsAmount(x.neg, x.digits, x.exp);
      StrippedIsNormal(x.neg, x.digits, x.exp);
    }
  }

  lemma WholeKeepsAmount(i: int)
    ensures IsNormal(Normal(Whole(i))) && Amount(Normal(Whole(i))) == i as real
  {
    var n := if i < 0 then -i else i;
    var d := Digits(n, 10);
    ValueOfDigits(n, 10);
    StrippedKeepsAmount(i < 0, d, 0);
    StrippedIsNormal(i < 0, d, 0);
    assert Signed(i < 0, Value(d, 10)) == i;
  }

  // ---- The normal form is unique --------------------------------------------------

  lemma {:induction false} ScaleInjective(v: int, w: int, e: int)
    requires Scale(v, e) == Scale(w, e)
    ensures v == w
    decreases if e >= 0 then e else -e
  {
    if e > 0 {
      ScaleInjective(10 * v, 10 * w, e - 1);
    } else if e < 0 {
      ScaleInjective(v, w, e + 1);
    }
  }

  /** A number of at least one digit, the last of which is not zero, is no multiple of ten. */
  lemma LastDigitCounts(x: Number)
    requires IsNormal(x) && x.digits != []
    ensures Value(x.digits, 10) % 10 != 0 && Value(x.digits, 10) > 0
  {
    var s := x.digits;
    var front, last := s[..|s| - 1], s[|s| - 1];
    assert s == front + [last];
    ValueOfSnoc(front, last, 10);
  }

  /** The same number at a lower exponent is a multiple of ten. */
  lemma {:induction false} Lowered(v: int, e: int, d: nat) returns (w: int)
    ensures Scale(w, e) == Scale(v, e + d)
    ensures d > 0 ==> w % 10 == 0
    ensures d == 0 ==> w == v
    ensures v > 0 ==> w > 0
    ensures v < 0 ==> w < 0
    decreases d
  {
    w := v;
    if d > 0 {
      var u := Lowered(v, e + 1, d - 1);
      w := 10 * u;
      ScaleTen(u, e);
    }
  }

  /** Two normal forms of one number are the same. */
  lemma NormalIsUnique(x: Number, y: Number)
    requires IsNormal(x) && IsNormal(y) && Amount(x) == Amount(y)
    ensures x == y
  {
    if x.exp > y.exp {
      NormalIsUniqueOrdered(y, x);
    } else {
      NormalIsUniqueOrdered(x, y);
    }
  }

  lemma NormalIsUniqueOrdered(x: Number, y: Number)
    requires IsNormal(x) && IsNormal(y) && Amount(x) == Amount(y) && x.exp <= y.exp
    ensures x == y
  {
    var v, w := Value(x.digits, 10), Value(y.digits, 10);
    var lowered := Lowered(Signed(y.neg, w), x.exp, y.exp - x.exp);
    ScaleInjective(Signed(x.neg, v), lowered, x.exp);
    if x.digits == [] {
      if y.digits != [] {
        LastDigitCounts(y);
        assert false;
      }
    } else {
      LastDigitCounts(x);
      if y.digits != [] {
        LastDigitCounts(y);
        assert x.exp == y.exp && v == w && x.neg == y.neg;
        DigitsOfValue(x.digits, 10);
        DigitsOfValue(y.digits, 10);
      }
    }
  }

  /** Two finite numbers have the same normal form exactly if they are the same number. */
  lemma SameNormal(x: Number, y: Number)
    requires Finite(x) && Finite(y) && ProperNumber(x) && ProperNumber(y)
    ensures Normal(x) == Normal(y) <==> Amount(x) == Amount(y)
  {
    NormalKeepsAmount(x);
    NormalKeepsAmount(y);
    if Amount(x) == Amount(y) {
      NormalIsUnique(Normal(x), Normal(y));
    }
  }
}
