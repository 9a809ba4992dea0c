/** JSON values, RFC 8785 canonical text, and a reader for it. */
module Json {
  import opened Common
  import opened Numbers
  import opened NumberText
  import opened JsonText

  datatype Entry<+V> = Entry(key: Text, value: V)

  /** Members stand in the order they are enumerated in; a dict or object has distinct keys. */
  datatype Json =
    | Null
    | Bool(b: bool)
    | Num(x: Number)
    | Str(s: Text)
    | Arr(items: seq<Json>)
    | Obj(members: seq<Entry<Json>>)

  predicate DistinctKeys<V>(ms: seq<Entry<V>>)
  {
    forall i, j :: 0 <= i < j < |ms| ==> ms[i].key != ms[j].key
  }

  /** A value as a parser makes it: decimal digits in numbers and no key twice. */
  predicate Proper(v: Json)
  {
    match v
    case Num(x) => ProperNumber(x)
    case Arr(items) => forall i :: 0 <= i < |items| ==> Proper(items[i])
    case Obj(ms) => DistinctKeys(ms) && forall i :: 0 <= i < |ms| ==> Proper(ms[i].value)
    case _ => true
  }

  /** What canonical JSON has a form for. */
  predicate Computable(v: Json)
    requires Proper(v)
  {
    match v
    case Num(x) => JcsNumber(x).Some?
    case Str(s) => WellFormed(s)
    case Arr(items) => forall i :: 0 <= i < |items| ==> Computable(items[i])
    case Obj(ms) => forall i :: 0 <= i < |ms| ==> WellFormed(ms[i].key) && Computable(ms[i].value)
    case _ => true
  }

  /** Where key k stands; the length if nowhere. */
  function KeyIndex<V>(ms: seq<Entry<V>>, k: Text): (i: nat)
    ensures i <= |ms| && (i < |ms| ==> ms[i].key == k)
    ensures forall j :: 0 <= j < i ==> ms[j].key != k
  {
    if ms == [] || ms[0].key == k then 0 else 1 + KeyIndex(ms[1..], k)
  }

  // ---- Sorting members --------------------------------------------------------------

  function InsertEntry<V>(e: Entry<V>, ms: seq<Entry<V>>): seq<Entry<V>>
  {
    if ms == [] || !KeyLess(ms[0].key, e.key) then [e] + ms else [ms[0]] + InsertEntry(e, ms[1..])
  }

  function SortEntries<V>(ms: seq<Entry<V>>): seq<Entry<V>>
  {
    if ms == [] then [] else InsertEntry(ms[0], SortEntries(ms[1..]))
  }

  predicate WellFormedKeys<V>(ms: seq<Entry<V>>)
  {
    forall i :: 0 <= i < |ms| ==> WellFormed(ms[i].key)
  }

  // ---- Canonical text ---------------------------------------------------------------

  function Joined(ts: seq<Text>): Text
  {
    if ts == [] then [] else if |ts| == 1 then ts[0] else ts[0] + [',' as int] + Joined(ts[1..])
  }

  function Values<V>(ms: seq<Entry<V>>): (vs: seq<V>)
    ensures |vs| == |ms|
  {
    seq(|ms|, i requires 0 <= i < |ms| => ms[i].value)
  }

  function Bracketed(open: char, t: Text, close: char): Text
  {
    [open as int] + t + [close as int]
  }

  /** `jcs`; None where it raises. */
  function Jcs(v: Json): Option<Text>
    requires Proper(v)
  {
    match v
    case Null => Some(T("null"))
    case Bool(b) => Some(if b then T("true") else T("false"))
    case Num(x) => JcsNumber(x)
    case Str(s) => JcsString(s)
    case Arr(items) =>
      var ts := JcsItems(items);
      if ts.None? then None else Some(Bracketed('[', Joined(ts.value), ']'))
    case Obj(ms) =>
      var es := JcsMembers(ms);
      if es.None? then None else Some(Bracketed('{', Joined(Values(SortEntries(es.value))), '}'))
  }

  function JcsItems(items: seq<Json>): (r: Option<seq<Text>>)
    requires forall i :: 0 <= i < |items| ==> Proper(items[i])
  {
    if items == [] then Some([])
    else
      var t, ts := Jcs(items[0]), JcsItems(items[1..]);
      if t.None? || ts.None? then None else Some([t.value] + ts.value)
  }

  /** Each member's text beside its key, still unsorted. */
  function JcsMembers(ms: seq<Entry<Json>>): (r: Option<seq<Entry<Text>>>)
    requires forall i :: 0 <= i < |ms| ==> Proper(ms[i].value)
  {
    if ms == [] then Some([])
    else
      var k, t, es := JcsString(ms[0].key), Jcs(ms[0].value), JcsMembers(ms[1..]);
      if k.None? || t.None? || es.None? then None
      else Some([Entry(ms[0].key, k.value + [':' as int] + t.value)] + es.value)
  }

  // ---- Canonical form -----------------------------------------------------------------

  /** The value with all members sorted and all numbers in normal form. */
  function Canon(v: Json): Json
  {
    match v
    case Num(x) => Num(Normal(x))
    case Arr(items) => Arr(CanonItems(items))
    case Obj(ms) => Obj(SortEntries(CanonMembers(ms)))
    case _ => v
  }

  function CanonItems(items: seq<Json>): (r: seq<Json>)
    ensures |r| == |items| && forall i :: 0 <= i < |items| ==> r[i] == Canon(items[i])
  {
    if items == [] then [] else [Canon(items[0])] + CanonItems(items[1..])
  }

  function CanonMembers(ms: seq<Entry<Json>>): (r: seq<Entry<Json>>)
    ensures |r| == |ms| && forall i :: 0 <= i < |ms| ==> r[i] == Entry(ms[i].key, Canon(ms[i].value))
  {
    if ms == [] then [] else [Entry(ms[0].key, Canon(ms[0].value))] + CanonMembers(ms[1..])
  }

  /** Finite numbers in normal form, all the way down. */
  predicate NormalNumbers(v: Json)
  {
    match v
    case Num(x) => IsNormal(x)
    case Arr(items) => forall i :: 0 <= i < |items| ==> NormalNumbers(items[i])
    case Obj(ms) => forall i :: 0 <= i < |ms| ==> NormalNumbers(ms[i].value)
    case _ => true
  }

  /** The text of a value just as it stands. */
  function Plain(v: Json): Text
    requires NormalNumbers(v)
  {
    match v
    case Null => T("null")
    case Bool(b) => if b then T("true") else T("false")
    case Num(x) => NumberToText(x)
    case Str(s) => Quoted(s)
    case Arr(items) => Bracketed('[', Joined(PlainItems(items)), ']')
    case Obj(ms) => Bracketed('{', Joined(Values(PlainMembers(ms))), '}')
  }

  function PlainItems(items: seq<Json>): (ts: seq<Text>)
    requires forall i :: 0 <= i < |items| ==> NormalNumbers(items[i])
    ensures |ts| == |items|
  {
    if items == [] then [] else [Plain(items[0])] + PlainItems(items[1..])
  }

  function PlainMember(m: Entry<Json>): Entry<Text>
    requires NormalNumbers(m.value)
  {
    Entry(m.key, Quoted(m.key) + [':' as int] + Plain(m.value))
  }

  function PlainMembers(ms: seq<Entry<Json>>): (es: seq<Entry<Text>>)
    requires forall i :: 0 <= i < |ms| ==> NormalNumbers(ms[i].value)
    ensures |es| == |ms|
  {
    if ms == [] then [] else [PlainMember(ms[0])] + PlainMembers(ms[1..])
  }

  ghost predicate AllNormal(ms: seq<Entry<Json>>)
  {
    forall i :: 0 <= i < |ms| ==> NormalNumbers(ms[i].value)
  }

  /** Sorting moves entries as a whole. */
  lemma {:induction false} InsertPlain(e: Entry<Json>, ms: seq<Entry<Json>>)
    requires NormalNumbers(e.value) && AllNormal(ms)
    ensures AllNormal(InsertEntry(e, ms))
    ensures PlainMembers(InsertEntry(e, ms)) == InsertEntry(PlainMember(e), PlainMembers(ms))
  {
    if ms == [] || !KeyLess(ms[0].key, e.key) {
      assert ([e] + ms)[1..] == ms;
    } else {
      InsertPlain(e, ms[1..]);
      var r := InsertEntry(e, ms[1..]);
      assert ([ms[0]] + r)[1..] == r;
      assert PlainMembers(ms)[1..] == PlainMembers(ms[1..]);
    }
  }

  lemma {:induction false} SortPlain(ms: seq<Entry<Json>>)
    requires AllNormal(ms)
    ensures AllNormal(SortEntries(ms)) && PlainMembers(SortEntries(ms)) == SortEntries(PlainMembers(ms))
  {
    if ms != [] {
      SortPlain(ms[1..]);
      InsertPlain(ms[0], SortEntries(ms[1..]));
      assert PlainMembers(ms)[1..] == PlainMembers(ms[1..]);
    }
  }

  /** `jcs` prints the canonical form, and raises exactly where there is none. */
  lemma {:induction false} JcsPrintsCanon(v: Json)
    requires Proper(v)
    ensures Jcs(v).Some? <==> Computable(v)
    ensures Computable(v) ==> NormalNumbers(Canon(v)) && Jcs(v) == Some(Plain(Canon(v)))
    decreases v, 1
  {
    match v
    case Num(x) =>
      if JcsNumber(x).Some? {
        NormalTextIsText(x);
      }
    case Arr(items) => JcsPrintsItems(items);
    case Obj(ms) =>
      JcsPrintsMembers(ms);
      if Computable(v) {
        SortPlain(CanonMembers(ms));
      }
    case _ =>
  }

  lemma NormalTextIsText(x: Number)
    requires Finite(x) && ProperNumber(x)
    ensures IsNormal(Normal(x)) && NumberToText(Normal(x)) == NumberToText(x)
  {
    NormalKeepsAmount(x);
    NormalKeepsAmount(Normal(x));
    NormalIsUnique(Normal(Normal(x)), Normal(x));
  }

  lemma {:induction false} JcsPrintsItems(items: seq<Json>)
    requires forall i :: 0 <= i < |items| ==> Proper(items[i])
    ensures JcsItems(items).Some? <==> forall i :: 0 <= i < |items| ==> Computable(items[i])
    ensures JcsItems(items).Some? ==>
              (forall i :: 0 <= i < |items| ==> NormalNumbers(CanonItems(items)[i])) &&
              JcsItems(items) == Some(PlainItems(CanonItems(items)))
    decreases items, 0
  {
    if items != [] {
      JcsPrintsCanon(items[0]);
      JcsPrintsItems(items[1..]);
      assert CanonItems(items)[1..] == CanonItems(items[1..]);
      assert forall i :: 0 < i < |items| ==> items[i] == items[1..][i - 1];
    }
  }

  lemma {:induction false} JcsPrintsMembers(ms: seq<Entry<Json>>)
    requires forall i :: 0 <= i < |ms| ==> Proper(ms[i].value)
    ensures JcsMembers(ms).Some? <==> forall i :: 0 <= i < |ms| ==> WellFormed(ms[i].key) && Computable(ms[i].value)
    ensures JcsMembers(ms).Some? ==>
              AllNormal(CanonMembers(ms)) && JcsMembers(ms) == Some(PlainMembers(CanonMembers(ms)))
    decreases ms, 0
  {
    if ms != [] {
      JcsPrintsCanon(ms[0].value);
      JcsPrintsMembers(ms[1..]);
      assert CanonMembers(ms)[1..] == CanonMembers(ms[1..]);
      assert forall i :: 0 < i < |ms| ==> ms[i] == ms[1..][i - 1];
    }
  }
}
