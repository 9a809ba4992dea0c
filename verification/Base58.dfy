/** Base58 of byte strings (scripts/p2p-dht-v1-reference.py). */
module Base58 {
  import opened Common
  import opened Radix

  // ---- The Bitcoin alphabet -----------------------------------------------------

  /** B58[d]: digits and letters in ASCII order, without 0, I, O and l. */
  function Letter(d: nat): char
    requires d < 58
  {
    if d < 9 then '1' + d as char
    else if d < 17 then 'A' + (d - 9) as char
    else if d < 22 then 'J' + (d - 17) as char
    else if d < 33 then 'P' + (d - 22) as char
    else if d < 44 then 'a' + (d - 33) as char
    else 'm' + (d - 44) as char
  }

  /** B58.index(c), or 58 for a character outside the alphabet. */
  function IndexOf(c: char): (i: nat)
    ensures i <= 58
  {
    if '1' <= c <= '9' then c as int - '1' as int
    else if 'A' <= c <= 'H' then c as int - 'A' as int + 9
    else if 'J' <= c <= 'N' then c as int - 'J' as int + 17
    else if 'P' <= c <= 'Z' then c as int - 'P' as int + 22
    else if 'a' <= c <= 'k' then c as int - 'a' as int + 33
    else if 'm' <= c <= 'z' then c as int - 'm' as int + 44
    else 58
  }

  lemma IndexOfLetter(d: nat)
    requires d < 58
    ensures IndexOf(Letter(d)) == d
  {
  }

  lemma LetterOfIndex(c: char)
    requires IndexOf(c) < 58
    ensures Letter(IndexOf(c)) == c
  {
  }

  function Spell(d: seq<nat>): (t: string)
    requires IsDigits(d, 58)
    ensures |t| == |d|
  {
    seq(|d|, i requires 0 <= i < |d| => Letter(d[i]))
  }

  function Indices(t: string): (d: seq<nat>)
    ensures |d| == |t|
  {
    seq(|t|, i requires 0 <= i < |t| => IndexOf(t[i]))
  }

  predicate InAlphabet(t: string)
  {
    forall i :: 0 <= i < |t| ==> IndexOf(t[i]) < 58
  }

  lemma IndicesOfSpell(d: seq<nat>)
    requires IsDigits(d, 58)
    ensures InAlphabet(Spell(d)) && Indices(Spell(d)) == d
  {
    forall i | 0 <= i < |d| ensures IndexOf(Spell(d)[i]) == d[i] {
      IndexOfLetter(d[i]);
    }
  }

  lemma SpellOfIndices(t: string)
    requires InAlphabet(t)
    ensures Spell(Indices(t)) == t
  {
    forall i | 0 <= i < |t| ensures Spell(Indices(t))[i] == t[i] {
      LetterOfIndex(t[i]);
    }
  }

  // ---- The codec ----------------------------------------------------------------

  function Encode(data: seq<byte>): string
  {
    Spell(Convert(data, 256, 58))
  }

  function Decode(text: string): Option<seq<byte>>
  {
    if InAlphabet(text) then Some(Convert(Indices(text), 58, 256)) else None
  }

  /** One turn of the loop: the next letter goes in front. */
  lemma OneMoreLetter(n: nat, low: seq<nat>, text: string)
    requires n > 0 && IsDigits(low, 58) && text == Spell(low)
    ensures n / 58 < n && IsDigits([n % 58] + low, 58)
    ensures Digits(n / 58, 58) + ([n % 58] + low) == Digits(n, 58) + low
    ensures Spell([n % 58] + low) == [Letter(n % 58)] + text
  {
    var front := LastDigitOf(n);
    Regroup(Digits(front, 58), [n % 58], low);
    LetterInFront(n % 58, low);
  }

  lemma LastDigitOf(n: nat) returns (front: nat)
    requires n > 0
    ensures front == n / 58 < n && Digits(n, 58) == Digits(front, 58) + [n % 58]
  {
    front := n / 58;
  }

  lemma LetterInFront(digit: nat, low: seq<nat>)
    requires digit < 58 && IsDigits(low, 58)
    ensures IsDigits([digit] + low, 58) && Spell([digit] + low) == [Letter(digit)] + Spell(low)
  {
  }

  lemma SpellZeros(z: nat)
    ensures IsDigits(Zeros(z), 58) && Spell(Zeros(z)) == seq(z, _ => '1')
  {
    assert Letter(0) == '1';
  }

  /** `b58`: division by 58 puts one letter in front at a time. */
  method WriteB58(data: seq<byte>) returns (text: string)
    ensures text == Encode(data)
  {
    var n := Value(data, 256);
    ghost var all := Digits(n, 58);
    ghost var low: seq<nat> := [];
    text := "";
    while n > 0
      invariant IsDigits(low, 58) && Digits(n, 58) + low == all
      invariant text == Spell(low)
    {
      OneMoreLetter(n, low, text);
      low, text, n := [n % 58] + low, [Letter(n % 58)] + text, n / 58;
    }
    SpellZeros(LeadingZeros(data));
    SpellConcat(Zeros(LeadingZeros(data)), all);
    text := seq(LeadingZeros(data), _ => '1') + text;
  }

  lemma SpellConcat(a: seq<nat>, b: seq<nat>)
    requires IsDigits(a, 58) && IsDigits(b, 58)
    ensures IsDigits(a + b, 58) && Spell(a + b) == Spell(a) + Spell(b)
  {
  }

  /** `b58decode`: None unless every character is in the alphabet. */
  method ReadB58(text: string) returns (data: Option<seq<byte>>)
    ensures data == Decode(text)
  {
    if exists i :: 0 <= i < |text| && IndexOf(text[i]) == 58 {
      return None;
    }
    var digits := Indices(text);
    var n := 0;
    for k := 0 to |digits|
      invariant n == Value(digits[..k], 58)
    {
      n := n * 58 + digits[k];
      assert digits[..k + 1][..k] == digits[..k];
    }
    assert digits[..|digits|] == digits;
    MinimalBytes(n);
    data := Some(Zeros(LeadingZeros(digits)) + BigEndian(n, (BitLength(n) + 7) / 8));
  }

  /** Every byte string, leading zeros included, comes back from its text. */
  lemma DecodeEncode(data: seq<byte>)
    ensures Decode(Encode(data)) == Some(data)
  {
    var d := Convert(data, 256, 58);
    IndicesOfSpell(d);
    ConvertBack(data, 256, 58);
  }

  /** Every text over the alphabet is the one spelling of its bytes. */
  lemma EncodeDecode(text: string)
    ensures match Decode(text)
            case Some(data) => Encode(data) == text
            case None => !exists data :: Encode(data) == text
  {
    if InAlphabet(text) {
      SpellOfIndices(text);
      ConvertBack(Indices(text), 58, 256);
    } else {
      forall data ensures Encode(data) != text {
        DecodeEncode(data);
      }
    }
  }

  // ---- Length -------------------------------------------------------------------

  function Pow65536(j: nat): (p: nat)
    ensures p > 0
  {
    if j == 0 then 1 else 65536 * Pow65536(j - 1)
  }

  /** Two bytes never need more than three letters, since 58^3 > 256^2. */
  lemma {:induction false} ThreeLettersForTwoBytes(n: nat, j: nat)
    requires n < Pow65536(j)
    ensures |Digits(n, 58)| <= 3 * j
    decreases j
  {
    if n > 0 {
      var a, b, c := n / 58, n / 58 / 58, n / 58 / 58 / 58;
      assert c <= n / 65536;
      ThreeLettersForTwoBytes(c, j - 1);
      assert |Digits(b, 58)| <= 1 + |Digits(c, 58)|;
      assert |Digits(a, 58)| <= 1 + |Digits(b, 58)|;
    }
  }

  lemma {:induction false} ValueBound(b: seq<byte>)
    ensures Value(b, 256) < Pow256(|b|)
  {
    if b != [] {
      ValueBound(b[..|b| - 1]);
    }
  }

  lemma {:induction false} PowersAgree(j: nat)
    ensures Pow256(2 * j) == Pow65536(j)
  {
    if j > 0 {
      PowersAgree(j - 1);
      assert Pow256(2 * j) == 256 * Pow256(2 * j - 1) == 256 * 256 * Pow256(2 * j - 2);
    }
  }

  lemma LengthFromPairs(data: seq<byte>, j: nat)
    requires |data| == 2 * j && LeadingZeros(data) <= 1
    ensures |Encode(data)| <= 3 * j + 1
  {
    ValueBound(data);
    PowersAgree(j);
    ThreeLettersForTwoBytes(Value(data, 256), j);
  }

  lemma EncodedLength(data: seq<byte>)
    requires |data| == 38 && data[0] == 0 && data[1] != 0
    ensures |Encode(data)| <= 58
  {
    assert LeadingZeros(data[1..]) == 0;
    LengthFromPairs(data, 19);
  }
}
