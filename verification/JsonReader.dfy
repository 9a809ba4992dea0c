/**
 * A reader for JSON text without blanks, and the theorem that canonical text can be read back
 * whatever stands after it.
 */
module JsonReader {
  import opened Common
  import opened Numbers
  import opened NumberText
  import opened JsonText
  import opened Json

  predicate Prefix(p: Text, t: Text)
  {
    |p| <= |t| && t[..|p|] == p
  }

  const NULL := T("null")
  const TRUE := T("true")
  const FALSE := T("false")

  /** A value at the front of t. */
  function ReadValue(t: Text): (g: Option<Got<Json>>)
    ensures g.Some? ==> |g.value.rest| < |t|
    decreases |t|, 1
  {
    if t == [] then None
    else if IsDigit(t[0]) || t[0] == '-' as int then
      var x := ReadNumber(t);
      if x.None? then None else Some(Got(Num(x.value.value), x.value.rest))
    else if t[0] == QUOTE then
      var s := ReadChars(t[1..]);
      if s.None? then None else Some(Got(Str(s.value.value), s.value.rest))
    else if t[0] == '[' as int then
      if Starts(t[1..], ']' as int) then Some(Got(Arr([]), t[2..]))
      else
        var items := ReadItems(t[1..]);
        if items.None? then None else Some(Got(Arr(items.value.value), items.value.rest))
    else if t[0] == '{' as int then
      if Starts(t[1..], '}' as int) then Some(Got(Obj([]), t[2..]))
      else
        var ms := ReadMembers(t[1..]);
        if ms.None? then None else Some(Got(Obj(ms.value.value), ms.value.rest))
    else if Prefix(NULL, t) then Some(Got(Null, t[4..]))
    else if Prefix(TRUE, t) then Some(Got(Bool(true), t[4..]))
    else if Prefix(FALSE, t) then Some(Got(Bool(false), t[5..]))
    else None
  }

  /** The values of an array that is not empty, up to its closing bracket. */
  function ReadItems(t: Text): (g: Option<Got<seq<Json>>>)
    ensures g.Some? ==> |g.value.rest| < |t|
    decreases |t|, 2
  {
    var v := ReadValue(t);
    if v.None? then None
    else if Starts(v.value.rest, ']' as int) then Some(Got([v.value.value], v.value.rest[1..]))
    else if Starts(v.value.rest, ',' as int) then
      var vs := ReadItems(v.value.rest[1..]);
      if vs.None? then None else Some(Got([v.value.value] + vs.value.value, vs.value.rest))
    else None
  }

  function ReadMember(t: Text): (g: Option<Got<Entry<Json>>>)
    ensures g.Some? ==> |g.value.rest| < |t|
    decreases |t|, 2
  {
    if !Starts(t, QUOTE) then None
    else
      var k := ReadChars(t[1..]);
      if k.None? || !Starts(k.value.rest, ':' as int) then None
      else
        var v := ReadValue(k.value.rest[1..]);
        if v.None? then None else Some(Got(Entry(k.value.value, v.value.value), v.value.rest))
  }

  /** The members of an object that is not empty, up to its closing brace. */
  function ReadMembers(t: Text): (g: Option<Got<seq<Entry<Json>>>>)
    ensures g.Some? ==> |g.value.rest| < |t|
    decreases |t|, 3
  {
    var m := ReadMember(t);
    if m.None? then None
    else if Starts(m.value.rest, '}' as int) then Some(Got([m.value.value], m.value.rest[1..]))
    else if Starts(m.value.rest, ',' as int) then
      var ms := ReadMembers(m.value.rest[1..]);
      if ms.None? then None else Some(Got([m.value.value] + ms.value.value, ms.value.rest))
    else None
  }

  /** A whole text. */
  function Read(t: Text): Option<Json>
  {
    var g := ReadValue(t);
    if g.None? || g.value.rest != [] then None else Some(g.value.value)
  }

  // ---- Round trip -------------------------------------------------------------------

  lemma NumberStarts(x: Number)
    requires IsNormal(x)
    ensures NumberToText(x) != []
    ensures var c := NumberToText(x)[0]; IsDigit(c) || c == '-' as int
  {
    NormalKeepsAmount(x);
    SpellStarts(WrittenForm(Normal(x)));
  }

  lemma SpellStarts(w: Written)
    requires Spellable(w)
    ensures Spell(w) != [] && (IsDigit(Spell(w)[0]) || Spell(w)[0] == '-' as int)
  {
    assert DigitText(w.whole) != [] && IsDigit(DigitText(w.whole)[0]);
    assert Spell(w)[0] == (SignText(w.neg) + DigitText(w.whole))[0];
  }

  /** No value starts like the end of an array. */
  lemma PlainStarts(v: Json)
    requires NormalNumbers(v)
    ensures Plain(v) != [] && Plain(v)[0] != ']' as int
  {
    if v.Num? {
      NumberStarts(v.x);
    }
  }

  lemma NormalTwice(x: Number)
    requires IsNormal(x)
    ensures Normal(x) == x
  {
    NormalKeepsAmount(x);
    NormalIsUnique(Normal(x), x);
  }

  lemma ReadValueIsNumber(t: Text, x: Number, r: Text)
    requires t != [] && (IsDigit(t[0]) || t[0] == '-' as int) && ReadNumber(t) == Some(Got(x, r))
    ensures ReadValue(t) == Some(Got(Num(x), r))
  {
  }

  lemma {:induction false} ReadsNum(x: Number, r: Text)
    requires IsNormal(x) && Ends(r)
    ensures ReadValue(NumberToText(x) + r) == Some(Got(Num(x), r))
  {
    NumberStarts(x);
    ReadsNumberBack(x, r);
    NormalTwice(x);
    ReadValueIsNumber(NumberToText(x) + r, x, r);
  }

  lemma {:induction false} ReadsLiteral(v: Json, r: Text)
    requires v.Null? || v.Bool?
    ensures NormalNumbers(v) && ReadValue(Plain(v) + r) == Some(Got(v, r))
  {
    var p := Plain(v);
    var t := p + r;
    assert t[..|p|] == p && t[|p|..] == r;
    assert NULL[0] == 'n' as int && TRUE[0] == 't' as int && FALSE[0] == 'f' as int;
    assert t[0] == p[0];
    if Prefix(NULL, t) {
      assert t[..4][0] == NULL[0];
    }
    if Prefix(TRUE, t) {
      assert t[..4][0] == TRUE[0];
    }
  }

  lemma {:induction false} ReadsStr(s: Text, r: Text)
    ensures ReadValue(Quoted(s) + r) == Some(Got(Str(s), r))
  {
    var t := Quoted(s) + r;
    assert t[1..] == EscapedAll(s) + [QUOTE] + r;
    ReadsCharsBack(s, r);
  }

  /** Any value in plain form, followed by what cannot continue it, reads back. */
  lemma {:induction false} ReadsPlain(v: Json, r: Text)
    requires NormalNumbers(v) && Ends(r)
    ensures ReadValue(Plain(v) + r) == Some(Got(v, r))
    decreases v, 2
  {
    match v
    case Num(x) => ReadsNum(x, r);
    case Str(s) => ReadsStr(s, r);
    case Arr(items) => ReadsArr(v, r);
    case Obj(ms) => ReadsObj(v, r);
    case _ => ReadsLiteral(v, r);
  }

  lemma InsideBrackets(open: char, body: Text, close: char, r: Text)
    ensures (Bracketed(open, body, close) + r)[1..] == body + [close as int] + r
    ensures body == [] ==> (Bracketed(open, body, close) + r)[2..] == r
  {
  }

  lemma ReadValueIsArr(t: Text, items: seq<Json>, r: Text)
    requires |t| > 1 && t[0] == '[' as int && t[1] != ']' as int && ReadItems(t[1..]) == Some(Got(items, r))
    ensures ReadValue(t) == Some(Got(Arr(items), r))
  {
  }

  lemma ReadValueIsObj(t: Text, ms: seq<Entry<Json>>, r: Text)
    requires |t| > 1 && t[0] == '{' as int && t[1] != '}' as int && ReadMembers(t[1..]) == Some(Got(ms, r))
    ensures ReadValue(t) == Some(Got(Obj(ms), r))
  {
  }

  lemma ReadValueIsEmpty(t: Text)
    requires |t| > 1
    ensures t[0] == '[' as int && t[1] == ']' as int ==> ReadValue(t) == Some(Got(Arr([]), t[2..]))
    ensures t[0] == '{' as int && t[1] == '}' as int ==> ReadValue(t) == Some(Got(Obj([]), t[2..]))
  {
  }

  lemma {:induction false} ReadsArr(v: Json, r: Text)
    requires v.Arr? && NormalNumbers(v) && Ends(r)
    ensures ReadValue(Plain(v) + r) == Some(Got(v, r))
    decreases v, 1
  {
    var body := Joined(PlainItems(v.items));
    var t := Plain(v) + r;
    InsideBrackets('[', body, ']', r);
    if v.items == [] {
      ReadValueIsEmpty(t);
    } else {
      ReadsItems(v.items, r, t[1..]);
      PlainStarts(v.items[0]);
      assert t[1] == body[0] == Plain(v.items[0])[0];
      ReadValueIsArr(t, v.items, r);
    }
  }

  lemma JoinedOne(ts: seq<Text>, close: Code, r: Text)
    requires |ts| == 1
    ensures Joined(ts) + [close] + r == ts[0] + ([close] + r)
  {
  }

  lemma JoinedMore(ts: seq<Text>, close: Code, r: Text)
    requires |ts| > 1
    ensures Joined(ts) + [close] + r == ts[0] + ([',' as int] + (Joined(ts[1..]) + [close] + r))
  {
    FiveParts(ts[0], [',' as int], Joined(ts[1..]), [close], r);
  }

  lemma FiveParts(a: Text, b: Text, c: Text, d: Text, e: Text)
    ensures a + b + c + d + e == a + (b + (c + d + e))
  {
    Regroup(a, b, c);
    Regroup(a, b + c, d);
    Regroup(a, b + c + d, e);
    Regroup(b, c, d);
    Regroup(b, c + d, e);
  }

  lemma ReadItemsLast(t: Text, v: Json, r: Text)
    requires ReadValue(t) == Some(Got(v, [']' as int] + r))
    ensures ReadItems(t) == Some(Got([v], r))
  {
    assert ([']' as int] + r)[1..] == r;
  }

  lemma ReadItemsMore(t: Text, v: Json, tail: Text, vs: seq<Json>, r: Text)
    requires ReadValue(t) == Some(Got(v, [',' as int] + tail)) && ReadItems(tail) == Some(Got(vs, r))
    ensures ReadItems(t) == Some(Got([v] + vs, r))
  {
    assert ([',' as int] + tail)[1..] == tail;
  }

  ghost predicate AllNormalItems(items: seq<Json>)
  {
    forall i :: 0 <= i < |items| ==> NormalNumbers(items[i])
  }

  function ItemsText(items: seq<Json>): Text
    requires AllNormalItems(items)
  {
    Joined(PlainItems(items))
  }

  lemma {:induction false} ItemsTextOne(items: seq<Json>, r: Text)
    requires |items| == 1 && AllNormalItems(items)
    ensures ItemsText(items) + [']' as int] + r == Plain(items[0]) + ([']' as int] + r)
  {
    JoinedOne(PlainItems(items), ']' as int, r);
  }

  lemma {:induction false} ItemsTextMore(items: seq<Json>, r: Text)
    requires |items| > 1 && AllNormalItems(items)
    ensures ItemsText(items) + [']' as int] + r
         == Plain(items[0]) + ([',' as int] + (ItemsText(items[1..]) + [']' as int] + r))
  {
    assert PlainItems(items)[1..] == PlainItems(items[1..]);
    JoinedMore(PlainItems(items), ']' as int, r);
  }

  lemma {:induction false} ReadsLastItem(t: Text, v: Json, r: Text)
    requires NormalNumbers(v) && t == Plain(v) + ([']' as int] + r)
    ensures ReadItems(t) == Some(Got([v], r))
    decreases v, 3
  {
    ReadsPlain(v, [']' as int] + r);
    ReadItemsLast(t, v, r);
  }

  lemma {:induction false} ReadsItemThen(t: Text, v: Json, tail: Text, vs: seq<Json>, r: Text)
    requires NormalNumbers(v) && t == Plain(v) + ([',' as int] + tail) && ReadItems(tail) == Some(Got(vs, r))
    ensures ReadItems(t) == Some(Got([v] + vs, r))
    decreases v, 3
  {
    ReadsPlain(v, [',' as int] + tail);
    ReadItemsMore(t, v, tail, vs, r);
  }

  lemma {:induction false} ReadsItems(items: seq<Json>, r: Text, t: Text)
    requires items != [] && AllNormalItems(items) && Ends(r) && t == ItemsText(items) + [']' as int] + r
    ensures ReadItems(t) == Some(Got(items, r))
    decreases items, 3
  {
    if |items| == 1 {
      ItemsTextOne(items, r);
      ReadsLastItem(t, items[0], r);
      assert items == [items[0]];
    } else {
      var tail := ItemsText(items[1..]) + [']' as int] + r;
      ItemsTextMore(items, r);
      ReadsItems(items[1..], r, tail);
      ReadsItemThen(t, items[0], tail, items[1..], r);
      assert items == [items[0]] + items[1..];
    }
  }

  lemma {:induction false} ReadsObj(v: Json, r: Text)
    requires v.Obj? && NormalNumbers(v) && Ends(r)
    ensures ReadValue(Plain(v) + r) == Some(Got(v, r))
    decreases v, 1
  {
    var body := Joined(Values(PlainMembers(v.members)));
    var t := Plain(v) + r;
    InsideBrackets('{', body, '}', r);
    if v.members == [] {
      ReadValueIsEmpty(t);
    } else {
      ReadsMembers(v.members, r, t[1..]);
      assert t[1] == body[0] == PlainMember(v.members[0]).value[0];
      ReadValueIsObj(t, v.members, r);
    }
  }

  lemma ReadMemberIs(t: Text, k: Text, u: Text, v: Json, r: Text)
    requires Starts(t, QUOTE) && ReadChars(t[1..]) == Some(Got(k, [':' as int] + u)) && ReadValue(u) == Some(Got(v, r))
    ensures ReadMember(t) == Some(Got(Entry(k, v), r))
  {
    assert ([':' as int] + u)[1..] == u;
  }

  lemma MemberText(k: Text, p: Text, r: Text)
    ensures (Quoted(k) + [':' as int] + p + r)[1..] == EscapedAll(k) + [QUOTE] + ([':' as int] + (p + r))
  {
  }

  lemma {:induction false} ReadsMember(m: Entry<Json>, r: Text)
    requires NormalNumbers(m.value) && Ends(r)
    ensures ReadMember(PlainMember(m).value + r) == Some(Got(m, r))
    decreases m, 3
  {
    var t := PlainMember(m).value + r;
    var u := Plain(m.value) + r;
    MemberText(m.key, Plain(m.value), r);
    ReadsCharsBack(m.key, [':' as int] + u);
    ReadsPlain(m.value, r);
    ReadMemberIs(t, m.key, u, m.value, r);
  }

  lemma ReadMembersLast(t: Text, m: Entry<Json>, r: Text)
    requires ReadMember(t) == Some(Got(m, ['}' as int] + r))
    ensures ReadMembers(t) == Some(Got([m], r))
  {
    assert (['}' as int] + r)[1..] == r;
  }

  lemma ReadMembersMore(t: Text, m: Entry<Json>, tail: Text, ms: seq<Entry<Json>>, r: Text)
    requires ReadMember(t) == Some(Got(m, [',' as int] + tail)) && ReadMembers(tail) == Some(Got(ms, r))
    ensures ReadMembers(t) == Some(Got([m] + ms, r))
  {
    assert ([',' as int] + tail)[1..] == tail;
  }

  function MembersText(ms: seq<Entry<Json>>): Text
    requires AllNormal(ms)
  {
    Joined(Values(PlainMembers(ms)))
  }

  lemma {:induction false} MembersTextOne(ms: seq<Entry<Json>>, r: Text)
    requires |ms| == 1 && AllNormal(ms)
    ensures MembersText(ms) + ['}' as int] + r == PlainMember(ms[0]).value + (['}' as int] + r)
  {
    JoinedOne(Values(PlainMembers(ms)), '}' as int, r);
  }

  lemma {:induction false} MembersTextMore(ms: seq<Entry<Json>>, r: Text)
    requires |ms| > 1 && AllNormal(ms)
    ensures MembersText(ms) + ['}' as int] + r
         == PlainMember(ms[0]).value + ([',' as int] + (MembersText(ms[1..]) + ['}' as int] + r))
  {
    assert Values(PlainMembers(ms))[1..] == Values(PlainMembers(ms[1..]));
    JoinedMore(Values(PlainMembers(ms)), '}' as int, r);
  }

  lemma {:induction false} ReadsLastMember(t: Text, m: Entry<Json>, r: Text)
    requires NormalNumbers(m.value) && t == PlainMember(m).value + (['}' as int] + r)
    ensures ReadMembers(t) == Some(Got([m], r))
    decreases m, 4
  {
    ReadsMember(m, ['}' as int] + r);
    ReadMembersLast(t, m, r);
  }

  lemma {:induction false} ReadsMemberThen(t: Text, m: Entry<Json>, tail: Text, ms: seq<Entry<Json>>, r: Text)
    requires NormalNumbers(m.value) && t == PlainMember(m).value + ([',' as int] + tail)
    requires ReadMembers(tail) == Some(Got(ms, r))
    ensures ReadMembers(t) == Some(Got([m] + ms, r))
    decreases m, 4
  {
    ReadsMember(m, [',' as int] + tail);
    ReadMembersMore(t, m, tail, ms, r);
  }

  lemma {:induction false} ReadsMembers(ms: seq<Entry<Json>>, r: Text, t: Text)
    requires ms != [] && AllNormal(ms) && Ends(r) && t == MembersText(ms) + ['}' as int] + r
    ensures ReadMembers(t) == Some(Got(ms, r))
    decreases ms, 4
  {
    if |ms| == 1 {
      MembersTextOne(ms, r);
      ReadsLastMember(t, ms[0], r);
      assert ms == [ms[0]];
    } else {
      var more := ms[1..];
      var tail := MembersText(more) + ['}' as int] + r;
      MembersTextMore(ms, r);
      ReadsMembers(more, r, tail);
      ReadsMemberThen(t, ms[0], tail, more, r);
      assert ms == [ms[0]] + more;
    }
  }

  /** A reader recovers the canonical value from canonical text. */
  lemma ReadsJcsBack(v: Json)
    requires Proper(v) && Jcs(v).Some?
    ensures Read(Jcs(v).value) == Some(Canon(v))
  {
    JcsPrintsCanon(v);
    ReadsPlain(Canon(v), []);
    assert Plain(Canon(v)) + [] == Plain(Canon(v));
  }

  /** Equal canonical text means equal canonical values, and the other way round. */
  lemma SameTextSameCanon(v: Json, w: Json)
    requires Proper(v) && Proper(w) && Jcs(v).Some? && Jcs(w).Some?
    ensures Jcs(v) == Jcs(w) <==> Canon(v) == Canon(w)
  {
    JcsPrintsCanon(v);
    JcsPrintsCanon(w);
    ReadsJcsBack(v);
    ReadsJcsBack(w);
  }
}
