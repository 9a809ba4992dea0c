/**
 * How RFC 8785 (section 3.2.2.3) writes numbers in one of four forms, what the text denotes, and a
 * reader that recovers it.
 */
module NumberText {
  import opened Common
  import opened Radix
  import opened Numbers

  // ---- Writing ------------------------------------------------------------------

  /** The parts of a written number: sign, digits before and after the point, exponent if not 0. */
  datatype Written = Written(neg: bool, whole: seq<nat>, frac: seq<nat>, exp: int)

  function DigitText(d: seq<nat>): (t: Text)
    requires IsDigits(d, 10)
    ensures |t| == |d| && forall i :: 0 <= i < |d| ==> t[i] == '0' as int + d[i]
  {
    seq(|d|, i requires 0 <= i < |d| => '0' as int + d[i])
  }

  /** A decimal integer that is not negative. */
  function NatText(n: nat): Text
  {
    if n == 0 then T("0") else DigitText(Digits(n, 10))
  }

  function FracText(d: seq<nat>): Text
    requires IsDigits(d, 10)
  {
    if d == [] then [] else ['.' as int] + DigitText(d)
  }

  function ExpText(e: int): Text
  {
    if e == 0 then []
    else ['e' as int, if e > 0 then '+' as int else '-' as int] + DigitText(Digits(if e > 0 then e else -e, 10))
  }

  function SignText(neg: bool): Text
  {
    if neg then ['-' as int] else []
  }

  predicate Spellable(w: Written)
  {
    && w.whole != []
    && (forall k :: 0 <= k < |w.whole| ==> w.whole[k] < 10)
    && forall k :: 0 <= k < |w.frac| ==> w.frac[k] < 10
  }

  function Spell(w: Written): Text
    requires Spellable(w)
  {
    SignText(w.neg) + DigitText(w.whole) + FracText(w.frac) + ExpText(w.exp)
  }

  /**
   * The four forms of ECMAScript's Number::toString (section 6.1.6.1.20 of ECMA-262) for the
   * digits s with the decimal point after the first n.
   */
  function Layout(neg: bool, s: seq<nat>, n: int): Written
    requires s != []
  {
    var k := |s|;
    if k <= n <= 21 then Written(neg, s + Zeros(n - k), [], 0)
    else if 0 < n <= 21 then Written(neg, s[..n], s[n..], 0)
    else if -6 < n <= 0 then Written(neg, [0], Zeros(-n) + s, 0)
    else Written(neg, s[..1], s[1..], n - 1)
  }

  function WrittenForm(x: Number): (w: Written)
    requires IsNormal(x)
    ensures Spellable(w)
  {
    if x.digits == [] then Written(false, [0], [], 0) else Layout(x.neg, x.digits, |x.digits| + x.exp)
  }

  /** The text of a finite number. */
  function NumberToText(x: Number): Text
    requires Finite(x) && ProperNumber(x)
  {
    NormalKeepsAmount(x);
    Spell(WrittenForm(Normal(x)))
  }

  /** `_jcs_number`; None where it raises NotComputable. */
  function JcsNumber(x: Number): Option<Text>
    requires ProperNumber(x)
  {
    if !Finite(x) || (x.Whole? && (x.i >= EXACT || x.i <= -EXACT)) then None else Some(NumberToText(x))
  }

  // ---- What the text denotes ------------------------------------------------------

  /** The number a reader takes the parts for: all digits, times ten to the exponent less the places after the point. */
  function Denoted(w: Written): Number
  {
    Stripped(w.neg, w.whole + w.frac, w.exp - |w.frac|)
  }

  lemma {:induction false} TrailingZerosOf(s: seq<nat>, b: nat)
    requires s != [] && s[|s| - 1] != 0
    ensures TrailingZeros(s + Zeros(b)) == b
  {
    var t := s + Zeros(b);
    if b > 0 {
      assert t[..|t| - 1] == s + Zeros(b - 1);
      TrailingZerosOf(s, b - 1);
    } else {
      assert t == s;
    }
  }

  /** Zeros at both ends are stripped, and nothing else. */
  lemma StrippedOf(neg: bool, a: nat, s: seq<nat>, b: nat, exp: int)
    requires s != [] && s[0] != 0 && s[|s| - 1] != 0
    ensures Stripped(neg, Zeros(a) + s + Zeros(b), exp) == Double(neg, s, exp + b)
  {
    var padded := Zeros(a) + s;
    TrailingZerosOf(padded, b);
    assert WithoutTrailing(padded + Zeros(b)) == padded;
    LeadingZerosOf(a, s);
    assert padded[a..] == s;
  }

  lemma DenotesPadded(w: Written, a: nat, s: seq<nat>, b: nat)
    requires s != [] && s[0] != 0 && s[|s| - 1] != 0 && w.whole + w.frac == Zeros(a) + s + Zeros(b)
    ensures Denoted(w) == Double(w.neg, s, w.exp - |w.frac| + b)
  {
    StrippedOf(w.neg, a, s, b, w.exp - |w.frac|);
  }

  lemma NoPadding(s: seq<nat>)
    ensures s == Zeros(0) + s + Zeros(0)
  {
  }

  lemma DenotesExactly(w: Written, s: seq<nat>)
    requires s != [] && s[0] != 0 && s[|s| - 1] != 0 && w.whole + w.frac == s
    ensures Denoted(w) == Double(w.neg, s, w.exp - |w.frac|)
  {
    NoPadding(s);
    DenotesPadded(w, 0, s, 0);
  }

  lemma WholeDenotes(w: Written, neg: bool, s: seq<nat>, b: nat)
    requires s != [] && s[0] != 0 && s[|s| - 1] != 0 && w == Written(neg, s + Zeros(b), [], 0)
    ensures Denoted(w) == Double(neg, s, b)
  {
    assert s + Zeros(b) + [] == Zeros(0) + s + Zeros(b);
    DenotesPadded(w, 0, s, b);
  }

  lemma SplitDenotes(w: Written, neg: bool, s: seq<nat>, n: nat, e: int)
    requires s != [] && s[0] != 0 && s[|s| - 1] != 0 && n <= |s| && w.neg == neg && w.whole == s[..n]
    requires w.frac == s[n..]
    requires e == w.exp - (|s| - n)
    ensures Denoted(w) == Double(neg, s, e)
  {
    assert w.whole + w.frac == s;
    DenotesExactly(w, s);
  }

  lemma FracDenotes(w: Written, neg: bool, s: seq<nat>, z: nat, e: int)
    requires s != [] && s[0] != 0 && s[|s| - 1] != 0 && w == Written(neg, [0], Zeros(z) + s, 0)
    requires e + z + |s| == 0
    ensures Denoted(w) == Double(neg, s, e)
  {
    assert [0] + (Zeros(z) + s) == Zeros(1 + z) + s + Zeros(0);
    DenotesPadded(w, 1 + z, s, 0);
  }

  lemma LayoutDenotes(neg: bool, s: seq<nat>, e: int, w: Written)
    requires s != [] && s[0] != 0 && s[|s| - 1] != 0 && w == Layout(neg, s, |s| + e)
    ensures Denoted(w) == Double(neg, s, e)
  {
    var n, k: int := |s| + e, |s|;
    if k <= n <= 21 {
      WholeDenotes(w, neg, s, n - k);
    } else if 0 < n <= 21 {
      SplitDenotes(w, neg, s, n, e);
    } else if -6 < n <= 0 {
      FracDenotes(w, neg, s, -n, e);
    } else {
      SplitDenotes(w, neg, s, 1, e);
    }
  }

  /** In each of the four forms the text denotes exactly the number that was written. */
  lemma WrittenFormDenotes(x: Number)
    requires IsNormal(x)
    ensures Denoted(WrittenForm(x)) == x
  {
    if x.digits == [] {
      assert [0] + [] == Zeros(0) + [0];
      assert WithoutTrailing([0] + []) == [];
    } else {
      LayoutDenotes(x.neg, x.digits, x.exp, WrittenForm(x));
    }
  }

  /** Read as a decimal, the printed digits with point and exponent have the value of the number itself. */
  lemma TextHasTheValue(x: Number)
    requires Finite(x) && ProperNumber(x)
    ensures IsNormal(Normal(x)) && WrittenValue(WrittenForm(Normal(x))) == Amount(x)
  {
    NormalKeepsAmount(x);
    NormalHasTheValue(Normal(x));
  }

  /** All digits as one number, times ten to the exponent less the places after the point. */
  function WrittenValue(w: Written): real
  {
    Scale(Signed(w.neg, Value(w.whole + w.frac, 10)), w.exp - |w.frac|)
  }

  lemma NormalHasTheValue(x: Number)
    requires IsNormal(x)
    ensures WrittenValue(WrittenForm(x)) == Amount(x)
  {
    WrittenFormDenotes(x);
    DenotedValue(WrittenForm(x), x);
  }

  lemma DenotedValue(w: Written, x: Number)
    requires IsNormal(x) && Denoted(w) == x
    ensures WrittenValue(w) == Amount(x)
  {
    StrippedKeepsAmount(w.neg, w.whole + w.frac, w.exp - |w.frac|);
  }

  // ---- Reading ------------------------------------------------------------------

  /** A value read from the front of a text, and the rest. */
  datatype Got<+A> = Got(value: A, rest: Text)

  predicate IsDigit(c: Code)
  {
    '0' as int <= c <= '9' as int
  }

  function DigitRun(t: Text): (n: nat)
    ensures n <= |t| && forall i :: 0 <= i < n ==> IsDigit(t[i])
  {
    if t != [] && IsDigit(t[0]) then 1 + DigitRun(t[1..]) else 0
  }

  function ReadDigits(t: Text): (g: Got<seq<nat>>)
    ensures |g.value| + |g.rest| == |t|
    ensures forall k :: 0 <= k < |g.value| ==> g.value[k] < 10
  {
    var n := DigitRun(t);
    Got(seq(n, i requires 0 <= i < n => t[i] - '0' as int), t[n..])
  }

  predicate Starts(t: Text, c: Code)
  {
    t != [] && t[0] == c
  }

  function ReadFrac(t: Text): (g: Got<seq<nat>>)
    ensures |g.rest| <= |t|
  {
    if Starts(t, '.' as int) then ReadDigits(t[1..]) else Got([], t)
  }

  function ReadExp(t: Text): (g: Got<int>)
    ensures |g.rest| <= |t|
  {
    if Starts(t, 'e' as int) && |t| > 1 then
      var g := ReadDigits(t[2..]);
      Got(Signed(t[1] == '-' as int, Value(g.value, 10)), g.rest)
    else Got(0, t)
  }

  /** A number at the front of t, in normal form. */
  function ReadNumber(t: Text): (g: Option<Got<Number>>)
    ensures g.Some? ==> |g.value.rest| < |t|
  {
    var neg := Starts(t, '-' as int);
    var whole := ReadDigits(if neg then t[1..] else t);
    if whole.value == [] then None
    else
      var frac := ReadFrac(whole.rest);
      var exp := ReadExp(frac.rest);
      Some(Got(Denoted(Written(neg, whole.value, frac.value, exp.value)), exp.rest))
  }

  /** Nothing that could continue a number. */
  predicate Ends(r: Text)
  {
    r != [] ==> !IsDigit(r[0]) && r[0] != '.' as int && r[0] != 'e' as int
  }

  lemma {:induction false} ReadsDigitsBack(d: seq<nat>, r: Text)
    requires IsDigits(d, 10) && (r != [] ==> !IsDigit(r[0]))
    ensures ReadDigits(DigitText(d) + r) == Got(d, r)
  {
    DigitRunOf(d, r);
    var t := DigitText(d) + r;
    assert t[|d|..] == r;
    var v := ReadDigits(t).value;
    assert |v| == |d|;
    forall i | 0 <= i < |d| ensures v[i] == d[i] {
      assert t[i] == DigitText(d)[i];
    }
    assert v == d;
  }

  lemma {:induction false} DigitRunOf(d: seq<nat>, r: Text)
    requires IsDigits(d, 10) && (r != [] ==> !IsDigit(r[0]))
    ensures DigitRun(DigitText(d) + r) == |d|
  {
    var t := DigitText(d) + r;
    if d != [] {
      assert t[1..] == DigitText(d[1..]) + r;
      DigitRunOf(d[1..], r);
    } else {
      assert t == r;
    }
  }

  lemma ReadExpFrom(t: Text, d: seq<nat>, r: Text)
    requires Starts(t, 'e' as int) && |t| > 1 && ReadDigits(t[2..]) == Got(d, r)
    ensures ReadExp(t) == Got(Signed(t[1] == '-' as int, Value(d, 10)), r)
  {
  }

  lemma ReadsExpDigits(sign: Code, d: seq<nat>, r: Text)
    requires IsDigits(d, 10) && Ends(r)
    ensures ReadExp(['e' as int, sign] + DigitText(d) + r) == Got(Signed(sign == '-' as int, Value(d, 10)), r)
  {
    var t := ['e' as int, sign] + DigitText(d) + r;
    assert t[2..] == DigitText(d) + r;
    ReadsDigitsBack(d, r);
    ReadExpFrom(t, d, r);
  }

  lemma ReadsExpNumber(sign: Code, n: nat, r: Text)
    requires Ends(r)
    ensures ReadExp(['e' as int, sign] + DigitText(Digits(n, 10)) + r) == Got(Signed(sign == '-' as int, n), r)
  {
    ReadsExpDigits(sign, Digits(n, 10), r);
    ValueOfDigits(n, 10);
  }

  lemma ExpTextOf(sign: Code, n: nat, e: int)
    requires n > 0 && (if sign == '-' as int then e + n == 0 else sign == '+' as int && e == n)
    ensures ExpText(e) == ['e' as int, sign] + DigitText(Digits(n, 10)) && Signed(sign == '-' as int, n) == e
  {
  }

  lemma ReadsExpSigned(sign: Code, n: nat, e: int, r: Text)
    requires n > 0 && (if sign == '-' as int then e + n == 0 else sign == '+' as int && e == n) && Ends(r)
    ensures ReadExp(ExpText(e) + r) == Got(e, r)
  {
    ExpTextOf(sign, n, e);
    ReadsExpNumber(sign, n, r);
  }

  lemma ReadsExpBack(e: int, r: Text)
    requires Ends(r)
    ensures ReadExp(ExpText(e) + r) == Got(e, r)
  {
    if e == 0 {
      assert ExpText(e) + r == r;
    } else if e > 0 {
      ReadsExpSigned('+' as int, e, e, r);
    } else {
      ReadsExpSigned('-' as int, -e, e, r);
    }
  }

  lemma ReadsFracBack(d: seq<nat>, r: Text)
    requires IsDigits(d, 10) && (r != [] ==> !IsDigit(r[0]) && r[0] != '.' as int)
    ensures ReadFrac(FracText(d) + r) == Got(d, r)
  {
    var t := FracText(d) + r;
    if d == [] {
      assert t == r;
    } else {
      assert t[1..] == DigitText(d) + r;
      ReadsDigitsBack(d, r);
      assert Starts(t, '.' as int);
    }
  }

  /** What follows the digits cannot continue them. */
  lemma TailStops(e: int, frac: seq<nat>, r: Text)
    requires IsDigits(frac, 10) && Ends(r)
    ensures var t := ExpText(e) + r; t != [] ==> !IsDigit(t[0]) && t[0] != '.' as int
    ensures var t := FracText(frac) + (ExpText(e) + r); t != [] ==> !IsDigit(t[0])
  {
  }

  lemma ReadsSign(neg: bool, t: Text)
    requires t != [] && t[0] != '-' as int
    ensures var u := SignText(neg) + t;
            Starts(u, '-' as int) == neg && (if neg then u[1..] else u) == t
  {
    if !neg {
      assert SignText(neg) + t == t;
    }
  }

  /** What comes after the sign. */
  function Unsigned(w: Written): Text
    requires Spellable(w)
  {
    DigitText(w.whole) + FracText(w.frac) + ExpText(w.exp)
  }

  lemma RegroupFour(a: Text, b: Text, c: Text, d: Text)
    ensures a + b + c + d == a + (b + (c + d))
  {
  }

  lemma ReadsUnsigned(w: Written, r: Text, t: Text)
    requires Spellable(w) && Ends(r) && t == Unsigned(w) + r
    ensures var whole := ReadDigits(t);
            var frac := ReadFrac(whole.rest);
            whole.value == w.whole && frac.value == w.frac && ReadExp(frac.rest) == Got(w.exp, r)
  {
    var afterFrac := ExpText(w.exp) + r;
    var afterWhole := FracText(w.frac) + afterFrac;
    RegroupFour(DigitText(w.whole), FracText(w.frac), ExpText(w.exp), r);
    TailStops(w.exp, w.frac, r);
    ReadsDigitsBack(w.whole, afterWhole);
    ReadsFracBack(w.frac, afterFrac);
    ReadsExpBack(w.exp, r);
  }

  /** A written number followed by anything that cannot continue it reads back. */
  lemma ReadsSpelled(w: Written, r: Text)
    requires Spellable(w) && Ends(r)
    ensures ReadNumber(Spell(w) + r) == Some(Got(Denoted(w), r))
  {
    var t := Unsigned(w) + r;
    SpelledParts(w, r);
    ReadsSign(w.neg, t);
    ReadsUnsigned(w, r, t);
  }

  lemma SpelledParts(w: Written, r: Text)
    requires Spellable(w)
    ensures Spell(w) + r == SignText(w.neg) + (Unsigned(w) + r)
    ensures (Unsigned(w) + r)[0] != '-' as int
  {
    assert (Unsigned(w) + r)[0] == DigitText(w.whole)[0];
  }

  /** The printed text of a number reads back as its normal form. */
  lemma ReadsNumberBack(x: Number, r: Text)
    requires Finite(x) && ProperNumber(x) && Ends(r)
    ensures ReadNumber(NumberToText(x) + r) == Some(Got(Normal(x), r))
  {
    NormalKeepsAmount(x);
    ReadsSpelled(WrittenForm(Normal(x)), r);
    WrittenFormDenotes(Normal(x));
  }
}
