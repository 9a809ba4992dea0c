/** Canonical JSON text as readers see it. */
module TextForms {
  import opened Common
  import opened Radix
  import opened Numbers
  import opened NumberText
  import opened JsonText
  import opened Json
  import opened JsonLaws
  import opened Layouts

  // ---- The order of keys -----------------------------------------------------------------

  /** The UTF-16 code units of a text. */
  function Units(s: Text): seq<int>
  {
    if s == [] then []
    else (if s[0] < 0x1_0000 then [s[0]] else [0xD800 + (s[0] - 0x1_0000) / 1024, 0xDC00 + (s[0] - 0x1_0000) % 1024])
         + Units(s[1..])
  }

  /** Each unit as two bytes, the more significant first. */
  function Pairs(u: seq<int>): seq<int>
  {
    if u == [] then [] else [u[0] / 256, u[0] % 256] + Pairs(u[1..])
  }

  lemma {:induction false} PairsConcat(a: seq<int>, b: seq<int>)
    ensures Pairs(a + b) == Pairs(a) + Pairs(b)
  {
    if a == [] {
      assert a + b == b;
    } else {
      assert (a + b)[0] == a[0] && (a + b)[1..] == a[1..] + b;
      PairsConcat(a[1..], b);
    }
  }

  lemma SameLowUnit(c: Code)
    requires c >= 0x1_0000
    ensures c % 1024 == (c - 0x1_0000) % 1024
  {
  }

  lemma PairsOfOne(u: int, v: int)
    ensures Pairs([u]) == Unit(u) && Pairs([u, v]) == Unit(u) + Unit(v)
  {
    var one, two, last := [u], [u, v], [v];
    assert one[1..] == [] && two[1..] == last && last[1..] == [];
    assert Pairs(one) == [u / 256, u % 256] && Pairs(last) == [v / 256, v % 256];
  }

  lemma {:induction false} BytesArePairs(s: Text)
    ensures Utf16(s) == Pairs(Units(s))
  {
    if s != [] {
      var c := s[0];
      BytesArePairs(s[1..]);
      if c < 0x1_0000 {
        PairsOfOne(c, 0);
        PairsConcat([c], Units(s[1..]));
      } else {
        var h, l := 0xD800 + (c - 0x1_0000) / 1024, 0xDC00 + (c - 0x1_0000) % 1024;
        SameLowUnit(c);
        PairsOfOne(h, l);
        PairsConcat([h, l], Units(s[1..]));
      }
    }
  }

  ghost predicate AreUnits(u: seq<int>)
  {
    forall i :: 0 <= i < |u| ==> 0 <= u[i] < 0x1_0000
  }

  lemma {:induction false} UnitsAreUnits(s: Text)
    ensures AreUnits(Units(s))
  {
    if s != [] {
      UnitsAreUnits(s[1..]);
    }
  }

  lemma UnitOrder(u: int, v: int)
    requires 0 <= u < 0x1_0000 && 0 <= v < 0x1_0000
    ensures u < v <==> u / 256 < v / 256 || (u / 256 == v / 256 && u % 256 < v % 256)
    ensures u == v <==> u / 256 == v / 256 && u % 256 == v % 256
  {
  }

  lemma LexPair(x: int, y: int, r: seq<int>, x': int, y': int, q: seq<int>)
    ensures LexLess([x, y] + r, [x', y'] + q)
       <==> x < x' || (x == x' && y < y') || (x == x' && y == y' && LexLess(r, q))
  {
    var a, b := [x, y] + r, [x', y'] + q;
    assert a[1..] == [y] + r && b[1..] == [y'] + q;
    assert ([y] + r)[1..] == r && ([y'] + q)[1..] == q;
  }

  /** Comparing the bytes is comparing the units. */
  lemma {:induction false} PairsKeepOrder(u: seq<int>, v: seq<int>)
    requires AreUnits(u) && AreUnits(v)
    ensures LexLess(Pairs(u), Pairs(v)) <==> LexLess(u, v)
  {
    if u != [] && v != [] {
      PairsKeepOrder(u[1..], v[1..]);
      UnitOrder(u[0], v[0]);
      LexPair(u[0] / 256, u[0] % 256, Pairs(u[1..]), v[0] / 256, v[0] % 256, Pairs(v[1..]));
    }
  }

  /** One key stands before another exactly if its UTF-16 code units come first. */
  lemma KeyLessExactlyIf(a: Text, b: Text)
    ensures KeyLess(a, b) <==> ComesFirst(Units(a), Units(b))
  {
    BytesArePairs(a);
    BytesArePairs(b);
    UnitsAreUnits(a);
    UnitsAreUnits(b);
    PairsKeepOrder(Units(a), Units(b));
    LexLessExactlyIf(Units(a), Units(b));
  }

  // ---- Arrays and objects -------------------------------------------------------------------

  /** The texts one after the other with a comma between any two. */
  function Commas(ts: seq<Text>): Text
  {
    if ts == [] then []
    else if |ts| == 1 then ts[0]
    else Commas(ts[..|ts| - 1]) + T(",") + ts[|ts| - 1]
  }

  lemma CommasSnoc(ts: seq<Text>, t: Text)
    requires ts != []
    ensures Commas(ts + [t]) == Commas(ts) + T(",") + t
  {
    assert (ts + [t])[..|ts|] == ts;
  }

  lemma {:induction false} CommasFirst(t: Text, ts: seq<Text>)
    requires ts != []
    ensures Commas([t] + ts) == t + T(",") + Commas(ts)
  {
    var n := |ts| - 1;
    if n == 0 {
      assert [t] + ts == [t] + [ts[0]];
      CommasSnoc([t], ts[0]);
    } else {
      var front, last := ts[..n], ts[n];
      assert ts == front + [last] && [t] + ts == ([t] + front) + [last];
      CommasSnoc([t] + front, last);
      CommasFirst(t, front);
      CommasSnoc(front, last);
      Regroup(t + T(","), Commas(front), T(",") + last);
      Regroup(Commas(front), T(","), last);
      Regroup(t + T(",") + Commas(front), T(","), last);
    }
  }

  lemma {:induction false} JoinedIsCommas(ts: seq<Text>)
    ensures Joined(ts) == Commas(ts)
  {
    if |ts| > 1 {
      JoinedIsCommas(ts[1..]);
      CommasFirst(ts[0], ts[1..]);
      assert ts == [ts[0]] + ts[1..] && T(",") == [',' as int];
    }
  }

  /** The texts of the items, in their order. */
  ghost predicate ItemTexts(items: seq<Json>, ts: seq<Text>)
    requires forall i :: 0 <= i < |items| ==> Proper(items[i])
  {
    |ts| == |items| && forall i :: 0 <= i < |items| ==> Jcs(items[i]) == Some(ts[i])
  }

  lemma {:induction false} ItemsAre(items: seq<Json>, ts: seq<Text>)
    requires (forall i :: 0 <= i < |items| ==> Proper(items[i])) && JcsItems(items) == Some(ts)
    ensures ItemTexts(items, ts)
  {
    if items != [] {
      ItemsAre(items[1..], ts[1..]);
      forall i | 0 <= i < |items| ensures Jcs(items[i]) == Some(ts[i]) {
        assert i > 0 ==> items[i] == items[1..][i - 1] && ts[i] == ts[1..][i - 1];
      }
    }
  }

  /** An array is printed as its items, in their order, between square brackets. */
  lemma ArrayText(items: seq<Json>)
    requires Proper(Arr(items)) && Jcs(Arr(items)).Some?
    ensures exists ts :: ItemTexts(items, ts) && Jcs(Arr(items)).value == T("[") + Commas(ts) + T("]")
  {
    var ts := JcsItems(items).value;
    ItemsAre(items, ts);
    JoinedIsCommas(ts);
    assert T("[") == ['[' as int] && T("]") == [']' as int];
  }

  ghost predicate Printable(m: Entry<Json>)
  {
    Proper(m.value) && WellFormed(m.key) && Jcs(m.value).Some?
  }

  ghost predicate AllPrintable(ms: seq<Entry<Json>>)
  {
    forall i :: 0 <= i < |ms| ==> Printable(ms[i])
  }

  /** Key and value with a colon between them. */
  ghost function MemberText(m: Entry<Json>): Text
    requires Printable(m)
  {
    Quoted(m.key) + T(":") + Jcs(m.value).value
  }

  ghost function MemberEntry(m: Entry<Json>): Entry<Text>
    requires Printable(m)
  {
    Entry(m.key, MemberText(m))
  }

  ghost function MemberEntries(ms: seq<Entry<Json>>): (es: seq<Entry<Text>>)
    requires AllPrintable(ms)
    ensures |es| == |ms| && forall i :: 0 <= i < |ms| ==> es[i] == MemberEntry(ms[i])
  {
    if ms == [] then [] else [MemberEntry(ms[0])] + MemberEntries(ms[1..])
  }

  lemma {:induction false} MembersAre(ms: seq<Entry<Json>>)
    requires (forall i :: 0 <= i < |ms| ==> Proper(ms[i].value)) && JcsMembers(ms).Some?
    ensures AllPrintable(ms) && JcsMembers(ms).value == MemberEntries(ms)
  {
    if ms != [] {
      MembersAre(ms[1..]);
      forall i | 0 <= i < |ms| ensures Printable(ms[i]) {
        assert i > 0 ==> ms[i] == ms[1..][i - 1];
      }
      assert T(":") == [':' as int];
      assert MemberEntries(ms) == [MemberEntry(ms[0])] + MemberEntries(ms[1..]);
    }
  }

  lemma {:induction false} InsertEntries(e: Entry<Json>, ms: seq<Entry<Json>>)
    requires Printable(e) && AllPrintable(ms)
    ensures AllPrintable(InsertEntry(e, ms))
    ensures MemberEntries(InsertEntry(e, ms)) == InsertEntry(MemberEntry(e), MemberEntries(ms))
  {
    if ms == [] || !KeyLess(ms[0].key, e.key) {
      assert ([e] + ms)[1..] == ms;
    } else {
      InsertEntries(e, ms[1..]);
      var r := InsertEntry(e, ms[1..]);
      assert ([ms[0]] + r)[1..] == r;
      assert MemberEntries(ms)[1..] == MemberEntries(ms[1..]);
    }
  }

  lemma {:induction false} SortedEntries(ms: seq<Entry<Json>>)
    requires AllPrintable(ms)
    ensures AllPrintable(SortEntries(ms)) && MemberEntries(SortEntries(ms)) == SortEntries(MemberEntries(ms))
  {
    if ms != [] {
      SortedEntries(ms[1..]);
      InsertEntries(ms[0], SortEntries(ms[1..]));
      assert MemberEntries(ms)[1..] == MemberEntries(ms[1..]);
    }
  }

  /** The same members, each key before those whose code units come later. */
  ghost predicate InKeyOrder(ms: seq<Entry<Json>>, ns: seq<Entry<Json>>)
  {
    && |ns| == |ms| && (forall x :: x in ns <==> x in ms)
    && forall i, j :: 0 <= i < j < |ns| ==> ComesFirst(Units(ns[i].key), Units(ns[j].key))
  }

  ghost function MemberTexts(ms: seq<Entry<Json>>): (ts: seq<Text>)
    requires AllPrintable(ms)
    ensures |ts| == |ms| && forall i :: 0 <= i < |ms| ==> ts[i] == MemberText(ms[i])
  {
    Values(MemberEntries(ms))
  }

  lemma {:induction false} InsertLonger<V>(e: Entry<V>, ms: seq<Entry<V>>)
    ensures |InsertEntry(e, ms)| == |ms| + 1
  {
    if !(ms == [] || !KeyLess(ms[0].key, e.key)) {
      InsertLonger(e, ms[1..]);
    }
  }

  lemma {:induction false} SortSameLength<V>(ms: seq<Entry<V>>)
    ensures |SortEntries(ms)| == |ms|
  {
    if ms != [] {
      SortSameLength(ms[1..]);
      InsertLonger(ms[0], SortEntries(ms[1..]));
    }
  }

  lemma SortOrders(ms: seq<Entry<Json>>)
    requires DistinctKeys(ms) && WellFormedKeys(ms)
    ensures InKeyOrder(ms, SortEntries(ms))
  {
    var ns := SortEntries(ms);
    SortSorts(ms);
    SortSameLength(ms);
    forall x ensures x in ns <==> x in ms {
      SortContains(ms, x);
    }
    forall i, j | 0 <= i < j < |ns| ensures ComesFirst(Units(ns[i].key), Units(ns[j].key)) {
      assert KeyLess(ns[i].key, ns[j].key);
      KeyLessExactlyIf(ns[i].key, ns[j].key);
    }
  }

  /** An object is printed as its members between braces, in the order of their keys' UTF-16 code units. */
  lemma ObjectText(ms: seq<Entry<Json>>)
    requires Proper(Obj(ms)) && Jcs(Obj(ms)).Some?
    ensures exists ns ::
              && InKeyOrder(ms, ns) && AllPrintable(ns)
              && Jcs(Obj(ms)).value == T("{") + Commas(MemberTexts(ns)) + T("}")
  {
    MembersAre(ms);
    var ns := SortEntries(ms);
    SortedEntries(ms);
    SortOrders(ms);
    JoinedIsCommas(MemberTexts(ns));
    assert T("{") == ['{' as int] && T("}") == ['}' as int];
    assert InKeyOrder(ms, ns);
  }

  // ---- Strings --------------------------------------------------------------------------------

  lemma {:induction false} EscapedConcat(s: Text, t: Text)
    ensures EscapedAll(s + t) == EscapedAll(s) + EscapedAll(t)
  {
    if s == [] {
      assert s + t == t;
    } else {
      assert (s + t)[0] == s[0] && (s + t)[1..] == s[1..] + t;
      EscapedConcat(s[1..], t);
      Regroup(Escaped(s[0]), EscapedAll(s[1..]), EscapedAll(t));
    }
  }

  lemma {:induction false} PlainStays(s: Text)
    requires forall i :: 0 <= i < |s| ==> s[i] >= 0x20 && s[i] != '"' as int && s[i] != '\\' as int
    ensures EscapedAll(s) == s
  {
    if s != [] {
      PlainStays(s[1..]);
      assert s == [s[0]] + s[1..];
    }
  }

  /** A text of other characters than quote, backslash and controls is printed between quotes as it is. */
  lemma PlainText(s: Text)
    requires forall i :: 0 <= i < |s| ==> s[i] >= 0x20 && s[i] != '"' as int && s[i] != '\\' as int
    ensures Quoted(s) == T("\"") + s + T("\"")
  {
    PlainStays(s);
  }

  /** The seven characters with an escape of their own. */
  lemma ShortEscapes()
    ensures Escaped('"' as int) == T("\\\"") && Escaped('\\' as int) == T("\\\\")
    ensures Escaped(8) == T("\\b") && Escaped(9) == T("\\t") && Escaped(10) == T("\\n")
    ensures Escaped(12) == T("\\f") && Escaped(13) == T("\\r")
  {
  }

  /** Every other control character is printed as `\u00` and two digits, the letters small. */
  lemma LongEscape(c: Code, t: Text)
    requires c < 0x20 && c != 8 && c != 9 && c != 10 && c != 12 && c != 13
    ensures Escaped(c) == t <==>
              && |t| == 6 && t[..4] == T("\\u00") && (t[4] == '0' as int || t[4] == '1' as int)
              && ('0' as int <= t[5] <= '9' as int || 'a' as int <= t[5] <= 'f' as int)
              && c == (t[4] - '0' as int) * 16
                      + if t[5] <= '9' as int then t[5] - '0' as int else t[5] - 'a' as int + 10
  {
    var e := Escaped(c);
    assert e[..4] == T("\\u00");
    if |t| == 6 && t[..4] == T("\\u00") && t[4] == e[4] && t[5] == e[5] {
      assert t == t[..4] + [t[4], t[5]] && e == e[..4] + [e[4], e[5]];
    }
  }

  // ---- Numbers --------------------------------------------------------------------------------

  /** Numbers that have no text: those that are not finite, and integers from 2 ** 53 on. */
  lemma NoTextExactlyIf(x: Number)
    requires ProperNumber(x)
    ensures JcsNumber(x).None?
       <==> x.NaN? || x.Infinite? || (x.Whole? && (x.i >= 9007199254740992 || x.i <= -9007199254740992))
  {
  }

  lemma {:induction false} ScaleOrder(v: int, w: int, e: int)
    requires v < w
    ensures Scale(v, e) < Scale(w, e)
    decreases if e >= 0 then e else -e
  {
    if e > 0 {
      ScaleOrder(10 * v, 10 * w, e - 1);
    } else if e < 0 {
      ScaleOrder(v, w, e + 1);
    }
  }

  lemma {:induction false} ScaleNegated(v: int, e: int)
    ensures Scale(-v, e) == -Scale(v, e)
    decreases if e >= 0 then e else -e
  {
    if e > 0 {
      ScaleNegated(10 * v, e - 1);
    } else if e < 0 {
      ScaleNegated(v, e + 1);
    }
  }

  lemma {:induction false} ScalePower(k: nat, e: int)
    ensures Scale(Power(10, k), e) == Scale(1, k + e)
  {
    if k > 0 {
      ScaleTen(Power(10, k - 1), e);
      ScalePower(k - 1, e + 1);
    }
  }

  lemma {:induction false} ValueBelowPower(s: seq<nat>)
    requires IsDigits(s, 10)
    ensures Value(s, 10) < Power(10, |s|)
  {
    if s != [] {
      ValueBelowPower(s[..|s| - 1]);
    }
  }

  lemma ValueFromPower(s: seq<nat>)
    requires s != [] && s[0] > 0
    ensures Power(10, |s| - 1) <= Value(s, 10)
  {
    var first, rest := [s[0]], s[1..];
    assert s == first + rest && first[..0] == [];
    ValueOfConcat(first, rest, 10);
    MulMonotone(1, Value(first, 10), Power(10, |rest|));
  }

  /** What a number is worth but for its sign. */
  function Magnitude(x: Number): real
    requires Finite(x)
  {
    if Amount(x) < 0.0 then -Amount(x) else Amount(x)
  }

  /** Ten to the n, for any integer n. */
  function Ten(n: int): real { Scale(1, n) }

  /** With n digits before the point a number lies between ten to the n - 1 and ten to the n. */
  lemma BetweenPowers(x: Number)
    requires IsNormal(x) && x.digits != []
    ensures var n := |x.digits| + x.exp; Ten(n - 1) <= Magnitude(x) < Ten(n)
    ensures Amount(x) < 0.0 <==> x.neg
    ensures Amount(x) != 0.0
  {
    var v, k := Value(x.digits, 10), |x.digits|;
    ValueBelowPower(x.digits);
    ValueFromPower(x.digits);
    ScaleNegated(v, x.exp);
    ScaleOfZero(x.exp);
    PowerPositive(k - 1);
    ScaleOrder(0, v, x.exp);
    ScaleOrder(v, Power(10, k), x.exp);
    if Power(10, k - 1) < v {
      ScaleOrder(Power(10, k - 1), v, x.exp);
    }
    ScalePower(k, x.exp);
    ScalePower(k - 1, x.exp);
  }

  lemma {:induction false} PowerPositive(k: nat)
    ensures Power(10, k) > 0
  {
    if k > 0 {
      PowerPositive(k - 1);
    }
  }

  lemma TenTimes(n: int)
    ensures Ten(n + 1) == 10.0 * Ten(n)
  {
    ScaleTen(1, n);
    TenfoldScale(1, n);
  }

  lemma {:induction false} TenfoldScale(v: int, e: int)
    ensures Scale(10 * v, e) == 10.0 * Scale(v, e)
    decreases if e >= 0 then e else -e
  {
    if e > 0 {
      TenfoldScale(10 * v, e - 1);
    } else if e < 0 {
      TenfoldScale(v, e + 1);
    }
  }

  lemma {:induction false} TenGrows(m: int, n: int)
    requires m <= n
    ensures 0.0 < Ten(m) <= Ten(n)
    decreases n - m
  {
    ScaleOfZero(m);
    ScaleOrder(0, 1, m);
    if m < n {
      TenGrows(m, n - 1);
      TenTimes(n - 1);
    }
  }

  lemma TenAtSteps()
    ensures Ten(0) == 1.0 && Ten(-6) == 0.000001 && Ten(21) == 1000000000000000000000.0
  {
    assert Ten(0) == 1.0;
    forall n: int ensures Ten(n + 3) == 1000.0 * Ten(n) {
      ThreeSteps(n);
    }
    assert Ten(-3 + 3) == 1000.0 * Ten(-3) && Ten(-6 + 3) == 1000.0 * Ten(-6);
    assert Ten(0 + 3) == 1000.0 * Ten(0) && Ten(3 + 3) == 1000.0 * Ten(3) && Ten(6 + 3) == 1000.0 * Ten(6);
    assert Ten(9 + 3) == 1000.0 * Ten(9) && Ten(12 + 3) == 1000.0 * Ten(12);
    assert Ten(15 + 3) == 1000.0 * Ten(15) && Ten(18 + 3) == 1000.0 * Ten(18);
  }

  lemma ThreeSteps(n: int)
    ensures Ten(n + 3) == 1000.0 * Ten(n)
  {
    TenTimes(n);
    TenTimes(n + 1);
    TenTimes(n + 2);
  }

  /** The place of the point, told from the size of the number. */
  lemma PointExactlyIf(x: Number, k: int)
    requires IsNormal(x) && x.digits != []
    ensures |x.digits| + x.exp <= k <==> Magnitude(x) < Ten(k)
  {
    var n := |x.digits| + x.exp;
    BetweenPowers(x);
    if n <= k {
      TenGrows(n, k);
    } else {
      TenGrows(k, n - 1);
    }
  }

  lemma LayoutForm(neg: bool, s: seq<nat>, n: int, w: Written)
    requires s != [] && s[0] != 0 && s[|s| - 1] != 0 && w == Layout(neg, s, n)
    ensures w.neg == neg && (w.exp == 0 <==> -6 < n <= 21)
    ensures w.exp == 0 && n >= 1 ==> w.whole != [] && w.whole[0] != 0
    ensures w.exp == 0 && n < 1 ==> w.whole == [0] && w.frac != []
    ensures w.exp != 0 ==> |w.whole| == 1 && w.whole[0] != 0
    ensures w.frac != [] ==> w.frac[|w.frac| - 1] != 0
  {
  }

  /**
   * Which form a number is printed in: without an exponent exactly from one millionth up to but not
   * including ten to the 21, then with no needless zero in front and none at the end of a fraction; with
   * an exponent one digit before the point, which is not zero.
   */
  lemma FormByMagnitude(x: Number)
    requires Finite(x) && ProperNumber(x) && Amount(x) != 0.0
    ensures IsNormal(Normal(x))
    ensures var w, m := WrittenForm(Normal(x)), Magnitude(x);
            && (w.neg <==> Amount(x) < 0.0)
            && (w.exp == 0 <==> 0.000001 <= m < 1000000000000000000000.0)
            && (w.exp == 0 && m >= 1.0 ==> w.whole != [] && w.whole[0] != 0)
            && (w.exp == 0 && m < 1.0 ==> w.whole == [0] && w.frac != [])
            && (w.exp != 0 ==> |w.whole| == 1 && w.whole[0] != 0)
            && (w.frac != [] ==> w.frac[|w.frac| - 1] != 0)
  {
    var y := Normal(x);
    NormalKeepsAmount(x);
    if y.digits == [] {
      ScaleOfZero(0);
      assert false;
    }
    FormOfNormal(y, Magnitude(x));
  }

  lemma FormOfNormal(y: Number, m: real)
    requires IsNormal(y) && y.digits != [] && m == Magnitude(y)
    ensures var w := WrittenForm(y);
            && (w.neg <==> Amount(y) < 0.0)
            && (w.exp == 0 <==> 0.000001 <= m < 1000000000000000000000.0)
            && (w.exp == 0 && m >= 1.0 ==> w.whole != [] && w.whole[0] != 0)
            && (w.exp == 0 && m < 1.0 ==> w.whole == [0] && w.frac != [])
            && (w.exp != 0 ==> |w.whole| == 1 && w.whole[0] != 0)
            && (w.frac != [] ==> w.frac[|w.frac| - 1] != 0)
  {
    BetweenPowers(y);
    TenAtSteps();
    PointExactlyIf(y, 21);
    PointExactlyIf(y, 0);
    PointExactlyIf(y, -6);
    LayoutForm(y.neg, y.digits, |y.digits| + y.exp, WrittenForm(y));
  }

  /** Zero, of either sign, is printed as one digit. */
  lemma ZeroText(x: Number)
    requires Finite(x) && ProperNumber(x) && Amount(x) == 0.0
    ensures NumberToText(x) == T("0")
  {
    NormalKeepsAmount(x);
    var y := Normal(x);
    if y.digits != [] {
      BetweenPowers(y);
      assert false;
    }
    assert DigitText([0]) == T("0") && SignText(false) == [] && FracText([]) == [] && ExpText(0) == [];
    assert [] + T("0") + [] + [] == T("0");
  }

  // ---- Constants ----------------------------------------------------------------------------

  /** The three texts without quotes, and the empty array and object. */
  lemma ConstantTexts()
    ensures Jcs(Null) == Some(T("null")) && Jcs(Bool(true)) == Some(T("true")) && Jcs(Bool(false)) == Some(T("false"))
    ensures Jcs(Arr([])) == Some(T("[]")) && Jcs(Obj([])) == Some(T("{}"))
  {
    assert Proper(Arr([])) && Proper(Obj([]));
    assert JcsItems([]) == Some([]) && SortEntries<Text>([]) == [];
    assert Jcs(Arr([])) == Some(Bracketed('[', Joined([]), ']')) && Joined([]) == [];
    assert T("[]") == ['[' as int] + [] + [']' as int] && T("{}") == ['{' as int] + [] + ['}' as int];
  }
}
