/**
 * JSON strings: how RFC 8785 (section 3.2.2.2) quotes them, how they read back, and the UTF-16
 * order in which keys are sorted.
 */
module JsonText {
  import opened Common
  import opened Numbers
  import opened NumberText

  const QUOTE: Code := '"' as int
  const BACKSLASH: Code := '\\' as int

  predicate IsSurrogate(c: Code)
  {
    0xD800 <= c <= 0xDFFF
  }

  function HexDigit(d: nat): Code
    requires d < 16
  {
    if d < 10 then '0' as int + d else 'a' as int + d - 10
  }

  /** One character inside quotes. */
  function Escaped(c: Code): (t: Text)
    ensures t != [] && t[0] != QUOTE
  {
    if c == QUOTE then [BACKSLASH, QUOTE]
    else if c == BACKSLASH then [BACKSLASH, BACKSLASH]
    else if c == 8 then [BACKSLASH, 'b' as int]
    else if c == 12 then [BACKSLASH, 'f' as int]
    else if c == 10 then [BACKSLASH, 'n' as int]
    else if c == 13 then [BACKSLASH, 'r' as int]
    else if c == 9 then [BACKSLASH, 't' as int]
    else if c < 0x20 then [BACKSLASH, 'u' as int, '0' as int, '0' as int, HexDigit(c / 16), HexDigit(c % 16)]
    else [c]
  }

  function EscapedAll(s: Text): Text
  {
    if s == [] then [] else Escaped(s[0]) + EscapedAll(s[1..])
  }

  function Quoted(s: Text): Text
  {
    [QUOTE] + EscapedAll(s) + [QUOTE]
  }

  predicate WellFormed(s: Text)
  {
    forall i :: 0 <= i < |s| ==> !IsSurrogate(s[i])
  }

  /** `_jcs_string`; None for a string with a lone surrogate. */
  function JcsString(s: Text): Option<Text>
  {
    if WellFormed(s) then Some(Quoted(s)) else None
  }

  /** `_jcs_string` as the source writes it, one character after the other. */
  method WriteJcsString(s: Text) returns (r: Option<Text>)
    ensures r == JcsString(s)
  {
    var out := [QUOTE];
    for i := 0 to |s|
      invariant forall k :: 0 <= k < i ==> !IsSurrogate(s[k])
      invariant out == [QUOTE] + EscapedAll(s[..i])
    {
      var c := s[i];
      if IsSurrogate(c) {
        return None;
      }
      EscapedNext(s, i);
      out := out + Escaped(c);
    }
    assert s[..|s|] == s;
    r := Some(out + [QUOTE]);
  }

  lemma EscapedNext(s: Text, i: nat)
    requires i < |s|
    ensures [QUOTE] + EscapedAll(s[..i + 1]) == [QUOTE] + EscapedAll(s[..i]) + Escaped(s[i])
  {
    assert s[..i + 1] == s[..i] + [s[i]];
    EscapedSnoc(s[..i], s[i]);
    Regroup([QUOTE], EscapedAll(s[..i]), Escaped(s[i]));
  }

  lemma {:induction false} EscapedSnoc(s: Text, c: Code)
    ensures EscapedAll(s + [c]) == EscapedAll(s) + Escaped(c)
  {
    var t := s + [c];
    if s == [] {
      assert t[1..] == [];
    } else {
      assert t[1..] == s[1..] + [c];
      EscapedSnoc(s[1..], c);
    }
  }

  // ---- Reading strings ------------------------------------------------------------

  function HexValue(c: Code): (d: Option<nat>)
    ensures d.Some? ==> d.value < 16
  {
    if '0' as int <= c <= '9' as int then Some(c - '0' as int)
    else if 'a' as int <= c <= 'f' as int then Some(c - 'a' as int + 10)
    else if 'A' as int <= c <= 'F' as int then Some(c - 'A' as int + 10)
    else None
  }

  /** The character after a backslash. */
  function Unescaped(c: Code): Option<Code>
  {
    if c == QUOTE || c == BACKSLASH || c == '/' as int then Some(c)
    else if c == 'b' as int then Some(8)
    else if c == 'f' as int then Some(12)
    else if c == 'n' as int then Some(10)
    else if c == 'r' as int then Some(13)
    else if c == 't' as int then Some(9)
    else None
  }

  function ReadHex(t: Text): (g: Option<Got<Code>>)
    ensures g.Some? ==> |g.value.rest| < |t|
  {
    if |t| < 4 then None
    else
      var a, b, c, d := HexValue(t[0]), HexValue(t[1]), HexValue(t[2]), HexValue(t[3]);
      if a.None? || b.None? || c.None? || d.None? then None
      else Some(Got(4096 * a.value + 256 * b.value + 16 * c.value + d.value, t[4..]))
  }

  /** One character of a string. */
  function ReadChar(t: Text): (g: Option<Got<Code>>)
    ensures g.Some? ==> |g.value.rest| < |t|
  {
    if t == [] || t[0] < 0x20 || t[0] == QUOTE then None
    else if t[0] != BACKSLASH then Some(Got(t[0], t[1..]))
    else if |t| < 2 then None
    else if t[1] == 'u' as int then ReadHex(t[2..])
    else
      var c := Unescaped(t[1]);
      if c.None? then None else Some(Got(c.value, t[2..]))
  }

  /** The characters up to the closing quote, which is consumed. */
  function ReadChars(t: Text): (g: Option<Got<Text>>)
    ensures g.Some? ==> |g.value.rest| < |t|
    decreases |t|
  {
    if Starts(t, QUOTE) then Some(Got([], t[1..]))
    else
      var c := ReadChar(t);
      if c.None? then None
      else
        var s := ReadChars(c.value.rest);
        if s.None? then None else Some(Got([c.value.value] + s.value.value, s.value.rest))
  }

  lemma HexReadsBack(d: nat)
    requires d < 16
    ensures HexValue(HexDigit(d)) == Some(d)
  {
  }

  lemma ReadsUnicodeEscape(c: Code, r: Text)
    requires c < 0x20
    ensures ReadHex(['0' as int, '0' as int, HexDigit(c / 16), HexDigit(c % 16)] + r) == Some(Got(c, r))
  {
    HexReadsBack(c / 16);
    HexReadsBack(c % 16);
    var t := ['0' as int, '0' as int, HexDigit(c / 16), HexDigit(c % 16)] + r;
    assert t[4..] == r;
  }

  lemma ReadsCharBack(c: Code, r: Text)
    ensures ReadChar(Escaped(c) + r) == Some(Got(c, r))
  {
    var t := Escaped(c) + r;
    if c < 0x20 && c != 8 && c != 9 && c != 10 && c != 12 && c != 13 {
      assert t[2..] == ['0' as int, '0' as int, HexDigit(c / 16), HexDigit(c % 16)] + r;
      ReadsUnicodeEscape(c, r);
    } else if |Escaped(c)| == 1 {
      assert t[1..] == r;
    } else {
      assert t[2..] == r;
    }
  }

  lemma {:induction false} ReadsCharsBack(s: Text, r: Text)
    ensures ReadChars(EscapedAll(s) + [QUOTE] + r) == Some(Got(s, r))
  {
    var t := EscapedAll(s) + [QUOTE] + r;
    if s == [] {
      assert t[1..] == r;
    } else {
      var rest := EscapedAll(s[1..]) + [QUOTE] + r;
      assert t == Escaped(s[0]) + rest;
      ReadsCharBack(s[0], rest);
      ReadsCharsBack(s[1..], r);
      assert [s[0]] + s[1..] == s;
    }
  }

  // ---- The order of keys ----------------------------------------------------------

  /** UTF-16, most significant byte first. */
  function Unit(u: int): seq<int>
  {
    [u / 256, u % 256]
  }

  function Utf16One(c: Code): seq<int>
  {
    if c < 0x1_0000 then Unit(c) else HighUnit(c) + LowUnit(c)
  }

  function Utf16(s: Text): seq<int>
  {
    if s == [] then [] else Utf16One(s[0]) + Utf16(s[1..])
  }

  /** `String.length` of JavaScript. */
  function UnitCount(s: Text): nat
  {
    |Utf16(s)| / 2
  }

  lemma UnitInjective(u: int, v: int)
    requires Unit(u) == Unit(v)
    ensures u == v
  {
    assert Unit(u)[0] == Unit(v)[0] && Unit(u)[1] == Unit(v)[1];
  }

  /** Below 0x10000 one unit is the character itself. */
  lemma ShortPrefix(c: Code, d: Code, r: seq<int>, q: seq<int>, t: seq<int>)
    requires c < 0x1_0000 && d < 0x1_0000 && t == Unit(c) + r && t == Unit(d) + q
    ensures c == d && r == q
  {
    assert t[..2] == Unit(c) && t[..2] == Unit(d) && t[2..] == r && t[2..] == q;
    UnitInjective(c, d);
  }

  function HighUnit(c: Code): seq<int> { Unit(0xD800 + (c - 0x1_0000) / 1024) }

  function LowUnit(c: Code): seq<int> { Unit(0xDC00 + c % 1024) }

  lemma SplitUnits(a: seq<int>, b: seq<int>, r: seq<int>, a': seq<int>, b': seq<int>, q: seq<int>)
    requires |a| == |a'| == |b| == |b'| == 2 && a + b + r == a' + b' + q
    ensures a == a' && b == b' && r == q
  {
    var t, u := a + b + r, a' + b' + q;
    assert t[..2] == a && u[..2] == a';
    assert t[2..4] == b && u[2..4] == b';
    assert t[4..] == r && u[4..] == q;
  }

  lemma SamePair(c: Code, d: Code)
    requires c >= 0x1_0000 && d >= 0x1_0000 && HighUnit(c) == HighUnit(d) && LowUnit(c) == LowUnit(d)
    ensures c == d
  {
    UnitInjective(0xD800 + (c - 0x1_0000) / 1024, 0xD800 + (d - 0x1_0000) / 1024);
    UnitInjective(0xDC00 + c % 1024, 0xDC00 + d % 1024);
    SameParts(c, d);
  }

  lemma SameParts(c: int, d: int)
    requires (c - 0x1_0000) / 1024 == (d - 0x1_0000) / 1024 && c % 1024 == d % 1024
    ensures c == d
  {
  }

  /** From 0x10000 on two units are. */
  lemma LongPrefix(c: Code, d: Code, r: seq<int>, q: seq<int>)
    requires c >= 0x1_0000 && d >= 0x1_0000
    requires HighUnit(c) + LowUnit(c) + r == HighUnit(d) + LowUnit(d) + q
    ensures c == d && r == q
  {
    SplitUnits(HighUnit(c), LowUnit(c), r, HighUnit(d), LowUnit(d), q);
    SamePair(c, d);
  }

  /** A character that is no surrogate does not start like a surrogate pair. */
  lemma MixedPrefix(c: Code, d: Code, r: seq<int>, q: seq<int>)
    requires c < 0x1_0000 <= d && !IsSurrogate(c)
    ensures Unit(c) + r != HighUnit(d) + LowUnit(d) + q
  {
    var t, u := Unit(c) + r, HighUnit(d) + LowUnit(d) + q;
    assert t[..2] == Unit(c) && u[..2] == HighUnit(d);
    if Unit(c) == HighUnit(d) {
      UnitInjective(c, 0xD800 + (d - 0x1_0000) / 1024);
      assert false;
    }
  }

  /** The first character can be told from the first units. */
  lemma Utf16OnePrefix(c: Code, d: Code, r: seq<int>, q: seq<int>)
    requires !IsSurrogate(c) && !IsSurrogate(d) && Utf16One(c) + r == Utf16One(d) + q
    ensures c == d && r == q
  {
    var t := Utf16One(c) + r;
    if c < 0x1_0000 && d < 0x1_0000 {
      ShortPrefix(c, d, r, q, t);
    } else if c >= 0x1_0000 && d >= 0x1_0000 {
      LongPrefix(c, d, r, q);
    } else if c < 0x1_0000 {
      MixedPrefix(c, d, r, q);
    } else {
      MixedPrefix(d, c, q, r);
    }
  }

  /** Different well-formed keys have different encodings. */
  lemma {:induction false} Utf16Injective(s: Text, t: Text)
    requires WellFormed(s) && WellFormed(t) && Utf16(s) == Utf16(t)
    ensures s == t
  {
    assert (s == [] <==> Utf16(s) == []) && (t == [] <==> Utf16(t) == []);
    if s != [] {
      Utf16OnePrefix(s[0], t[0], Utf16(s[1..]), Utf16(t[1..]));
      Utf16Injective(s[1..], t[1..]);
      assert s == [s[0]] + s[1..] && t == [t[0]] + t[1..];
    }
  }

  /** The order keys are sorted in. */
  predicate KeyLess(a: Text, b: Text)
  {
    LexLess(Utf16(a), Utf16(b))
  }

  lemma KeysTotal(a: Text, b: Text)
    requires WellFormed(a) && WellFormed(b)
    ensures a == b || KeyLess(a, b) || KeyLess(b, a)
  {
    LexTotal(Utf16(a), Utf16(b));
    if Utf16(a) == Utf16(b) {
      Utf16Injective(a, b);
    }
  }
}
