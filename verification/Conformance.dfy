/** What passing the validator means. */
module Conformance {
  import opened Common
  import opened Numbers
  import opened JsonText
  import opened Json
  import opened Schemas
  import opened Validator
  import JsonLaws

  // ---- Values ---------------------------------------------------------------------------

  /** The values JavaScript takes for false. */
  ghost predicate Falsy(v: Json)
  {
    v == Null || v == Bool(false) || v == Str([]) || (v.Num? && (v.x == NaN || (Finite(v.x) && Amount(v.x) == 0.0)))
  }

  /** x is not above the real number r. */
  ghost predicate AtMost(x: Number, r: real)
  {
    match x
    case Infinite(neg) => neg
    case NaN => false
    case _ => Amount(x) <= r
  }

  /** Some real number separates x from y. */
  ghost predicate Below(x: Number, y: Number)
  {
    x != NaN && y != NaN && exists r: real :: AtMost(x, r) && !AtMost(y, r)
  }

  /** Code points that JavaScript spells as two units. */
  ghost function Pairs(s: Text): nat
  {
    if s == [] then 0 else Pairs(s[1..]) + if s[0] >= 0x1_0000 then 1 else 0
  }

  lemma FalsyExactlyIf(v: Json)
    requires Proper(v)
    ensures Truthy(v) <==> !Falsy(v)
  {
    if v.Num? && Finite(v.x) {
      assert Normal(ZERO) == ZERO && Amount(ZERO) == 0.0;
      SameNormal(v.x, ZERO);
    }
  }

  lemma BelowExactlyIf(x: Number, y: Number)
    ensures NumberLess(x, y) <==> Below(x, y)
  {
    if x != NaN && y != NaN && NumberLess(x, y) {
      var r := if Finite(x) then Amount(x) else if Finite(y) then Amount(y) - 1.0 else 0.0;
      assert AtMost(x, r) && !AtMost(y, r);
    }
  }

  lemma {:induction false} UnitsAre(s: Text)
    ensures UnitCount(s) == |s| + Pairs(s) && |Utf16(s)| % 2 == 0
  {
    if s != [] {
      UnitsAre(s[1..]);
      assert |Utf16One(s[0])| == if s[0] >= 0x1_0000 then 4 else 2;
    }
  }

  lemma SameValue(v: Json, w: Json)
    ensures SamePrimitive(v, w) <==> !v.Arr? && !v.Obj? && JsonLaws.Same(v, w)
  {
  }

  // ---- The keywords ---------------------------------------------------------------------

  ghost predicate TypeAllowed(data: Json, types: Option<Json>)
  {
    types.Some? && !Falsy(types.value) ==>
      match data
      case Null => types.value == Str(T("null"))
      case Bool(_) => types.value == Str(T("boolean"))
      case Num(_) => types.value == Str(T("number"))
      case Str(_) => types.value == Str(T("string"))
      case Arr(_) => types.value == Str(T("array"))
      case Obj(_) => types.value == Str(T("object"))
  }

  /** An array of allowed values has one that is the same as the data; arrays and objects are never the same. */
  ghost predicate Listed(data: Json, enums: Option<Json>)
  {
    enums.Some? && enums.value.Arr? ==>
      && !data.Arr? && !data.Obj?
      && exists i :: 0 <= i < |enums.value.items| && JsonLaws.Same(enums.value.items[i], data)
  }

  /** x does not lie beyond the bound; a bound that is no number does not count. */
  ghost predicate Within(x: Number, bound: Option<Json>, upper: bool)
  {
    bound.Some? && bound.value.Num? ==> !(if upper then Below(bound.value.x, x) else Below(x, bound.value.x))
  }

  ghost predicate Between(x: Number, low: Option<Json>, high: Option<Json>)
  {
    Within(x, low, false) && Within(x, high, true)
  }

  /** A text stands for itself, anything else for its conversion. */
  ghost function Spelled(v: Json): Option<Text>
    requires Proper(v)
  {
    if v.Str? then Some(v.s) else ToText(v)
  }

  ghost predicate MatchesPattern(rt: Runtime, s: Text, pattern: Option<Json>)
    requires ProperField(pattern)
  {
    pattern.Some? && !Falsy(pattern.value) ==>
      Spelled(pattern.value).Some? && rt.matches(Spelled(pattern.value).value, s) == Some(true)
  }

  /** The object has a member of this name, or every object does. */
  ghost predicate HasName(rt: Runtime, obj: seq<Entry<Json>>, key: Text)
  {
    rt.builtin(ObjectKind, key) || exists i :: 0 <= i < |obj| && obj[i].key == key
  }

  ghost predicate HasOne(rt: Runtime, obj: seq<Entry<Json>>, key: Json)
    requires Proper(key)
  {
    Spelled(key).Some? && HasName(rt, obj, Spelled(key).value)
  }

  /** A list of names, or a text for its characters, which the object all has. */
  ghost predicate HasRequired(rt: Runtime, obj: seq<Entry<Json>>, required: Option<Json>)
    requires ProperField(required)
  {
    required.None? || Falsy(required.value) ||
    match required.value
    case Arr(items) => forall i :: 0 <= i < |items| ==> HasOne(rt, obj, items[i])
    case Str(s) => forall i :: 0 <= i < |s| ==> HasName(rt, obj, [s[i]])
    case _ => false
  }

  ghost predicate Declares(schema: Json, name: string)
  {
    Field(schema, T("type")) == Some(Str(T(name)))
  }

  /** The data satisfies the schema. */
  ghost predicate Conforms(rt: Runtime, data: Json, schema: Json, strict: bool)
    requires Proper(data) && Proper(schema)
    decreases data, 1
  {
    && TypeAllowed(data, Field(schema, T("type")))
    && Listed(data, Field(schema, T("enum")))
    && TypedConforms(rt, data, schema, strict)
  }

  /** The data satisfies the keywords for values of its type. */
  ghost predicate TypedConforms(rt: Runtime, data: Json, schema: Json, strict: bool)
    requires Proper(data) && Proper(schema)
    decreases data, 0
  {
    match data
    case Num(x) => Between(x, Field(schema, T("minimum")), Field(schema, T("maximum")))
    case Str(s) =>
      FieldIsProper(schema, T("pattern"));
      && Between(Whole(|s| + Pairs(s)), Field(schema, T("minLength")), Field(schema, T("maxLength")))
      && MatchesPattern(rt, s, Field(schema, T("pattern")))
    case Arr(items) =>
      FieldIsProper(schema, T("items"));
      var sub := Field(schema, T("items"));
      Declares(schema, "array") ==>
        && Between(Whole(|items|), Field(schema, T("minItems")), Field(schema, T("maxItems")))
        && (sub.Some? && (sub.value.Obj? || sub.value.Arr?) ==>
              forall i :: 0 <= i < |items| ==> Conforms(rt, items[i], sub.value, strict))
    case Obj(ms) =>
      FieldIsProper(schema, T("required"));
      Declares(schema, "object") ==>
        && HasRequired(rt, ms, Field(schema, T("required")))
        && forall i :: 0 <= i < |ms| ==> MemberConforms(rt, ms[i], schema, strict)
    case _ => true
  }

  /** The member satisfies the property of its name, or need not. */
  ghost predicate MemberConforms(rt: Runtime, m: Entry<Json>, schema: Json, strict: bool)
    requires Proper(m.value) && Proper(schema)
    decreases m, 2
  {
    FieldIsProper(schema, T("properties"));
    match Property(rt, Field(schema, T("properties")), m.key)
    case Own(sub) => Conforms(rt, m.value, sub, strict)
    case Builtin => true
    case Absent => !(strict && Field(schema, T("additionalProperties")) == Some(Bool(false)))
  }

  /** A field is the value of the member of that name, if there is one. */
  lemma FieldIs(schema: Json, k: Text)
    requires Proper(schema)
    ensures match Field(schema, k)
            case None => schema.Obj? ==> forall i :: 0 <= i < |schema.members| ==> schema.members[i].key != k
            case Some(v) => schema.Obj? && exists i :: 0 <= i < |schema.members| && schema.members[i] == Entry(k, v)
  {
    if schema.Obj? {
      var i := KeyIndex(schema.members, k);
      if i < |schema.members| {
        assert schema.members[i] == Entry(k, schema.members[i].value);
      }
    }
  }

  /** The property of a name in an object of properties: the member of that name, unless it is falsy. */
  lemma PropertyIs(rt: Runtime, ms: seq<Entry<Json>>, key: Text)
    requires Proper(Obj(ms))
    ensures match Property(rt, Some(Obj(ms)), key)
            case Own(v) => !Falsy(v) && exists i :: 0 <= i < |ms| && ms[i] == Entry(key, v)
            case Absent =>
              || (exists i :: 0 <= i < |ms| && ms[i].key == key && Falsy(ms[i].value))
              || (!rt.builtin(ObjectKind, key) && forall i :: 0 <= i < |ms| ==> ms[i].key != key)
            case Builtin => rt.builtin(ObjectKind, key) && forall i :: 0 <= i < |ms| ==> ms[i].key != key
  {
    FieldIs(Obj(ms), key);
    var i := KeyIndex(ms, key);
    if i < |ms| {
      FalsyExactlyIf(ms[i].value);
      assert ms[i] == Entry(key, ms[i].value);
    }
  }

  // ---- Passing is conforming ------------------------------------------------------------

  ghost predicate All<V>(s: seq<V>, p: V -> bool)
  {
    forall i :: 0 <= i < |s| ==> p(s[i])
  }

  lemma AllSnoc<V>(s: seq<V>, p: V -> bool)
    requires s != []
    ensures All(s, p) <==> All(s[..|s| - 1], p) && p(s[|s| - 1])
  {
    if All(s[..|s| - 1], p) && p(s[|s| - 1]) {
      forall i | 0 <= i < |s| ensures p(s[i]) {
        assert i < |s| - 1 ==> s[i] == s[..|s| - 1][i];
      }
    }
    if All(s, p) {
      var front := s[..|s| - 1];
      forall i | 0 <= i < |front| ensures p(front[i]) {
        assert front[i] == s[i];
      }
    }
  }

  lemma ThenFine(a: Outcome, b: Outcome)
    ensures Then(a, b) == FINE <==> a == FINE && b == FINE
  {
  }

  lemma BoundFine(x: Number, bound: Option<Json>, upper: bool, before: Text, middle: Text, path: Text, keyword: string)
    requires ProperNumber(x) && ProperField(bound)
    ensures BoundErrors(x, bound, upper, before, middle, path, keyword) == FINE <==> Within(x, bound, upper)
  {
    if bound.Some? && bound.value.Num? {
      BelowExactlyIf(x, bound.value.x);
      BelowExactlyIf(bound.value.x, x);
    }
  }

  lemma PatternFine(rt: Runtime, s: Text, pattern: Option<Json>, path: Text)
    requires ProperField(pattern)
    ensures PatternErrors(rt, s, pattern, path) == FINE <==> MatchesPattern(rt, s, pattern)
  {
    if pattern.Some? {
      FalsyExactlyIf(pattern.value);
    }
  }

  lemma StringFine(rt: Runtime, s: Text, k: Keywords, path: Text, n: Number)
    requires ProperKeywords(k) && n == Whole(UnitCount(s))
    ensures StringErrors(rt, s, k, path) == FINE <==>
            Between(n, k.minLength, k.maxLength) && MatchesPattern(rt, s, k.pattern)
  {
    BoundFine(n, k.minLength, false, T("String length "), T(" is below minLength "), path, "minLength");
    BoundFine(n, k.maxLength, true, T("String length "), T(" exceeds maxLength "), path, "maxLength");
    PatternFine(rt, s, k.pattern, path);
  }

  lemma NumberFine(x: Number, k: Keywords, path: Text)
    requires ProperNumber(x) && ProperKeywords(k)
    ensures NumberErrors(x, k, path) == FINE <==> Between(x, k.minimum, k.maximum)
  {
    BoundFine(x, k.minimum, false, T("Value "), T(" is below minimum "), path, "minimum");
    BoundFine(x, k.maximum, true, T("Value "), T(" exceeds maximum "), path, "maximum");
  }

  lemma CountFine(n: nat, k: Keywords, path: Text)
    requires ProperKeywords(k)
    ensures CountErrors(n, k, path) == FINE <==> Between(Whole(n), k.minItems, k.maxItems)
  {
    BoundFine(Whole(n), k.minItems, false, T("Array has "), T(" items, minimum is "), path, "minItems");
    BoundFine(Whole(n), k.maxItems, true, T("Array has "), T(" items, maximum is "), path, "maxItems");
  }

  ghost function OneHad(rt: Runtime, obj: seq<Entry<Json>>): Json -> bool
  {
    (key: Json) => Proper(key) && HasOne(rt, obj, key)
  }

  lemma OneFine(rt: Runtime, obj: seq<Entry<Json>>, key: Json, path: Text)
    requires Proper(key)
    ensures RequiredError(rt, obj, key, path) == FINE <==> OneHad(rt, obj)(key)
  {
    if ToText(key).Some? {
      HasExactlyIf(rt, obj, ToText(key).value);
    }
  }

  lemma HasExactlyIf(rt: Runtime, obj: seq<Entry<Json>>, key: Text)
    ensures Has(rt, obj, key) <==> HasName(rt, obj, key)
  {
    HasKeyIff(obj, key);
  }

  lemma {:induction false} RequiredFine(rt: Runtime, obj: seq<Entry<Json>>, keys: seq<Json>, path: Text,
                                        p: Json -> bool)
    requires (forall i :: 0 <= i < |keys| ==> Proper(keys[i])) && p == OneHad(rt, obj)
    ensures RequiredErrors(rt, obj, keys, path) == FINE <==> All(keys, p)
  {
    if keys != [] {
      var n := |keys| - 1;
      RequiredFine(rt, obj, keys[..n], path, p);
      ThenFine(RequiredErrors(rt, obj, keys[..n], path), RequiredError(rt, obj, keys[n], path));
      OneFine(rt, obj, keys[n], path);
      AllSnoc(keys, p);
    }
  }

  lemma AllRequiredFine(rt: Runtime, obj: seq<Entry<Json>>, required: Option<Json>, path: Text)
    requires ProperField(required)
    ensures AllRequired(rt, obj, required, path) == FINE <==> HasRequired(rt, obj, required)
  {
    var keys := RequiredKeys(required);
    if required.Some? {
      FalsyExactlyIf(required.value);
    }
    if keys.Some? {
      var p := OneHad(rt, obj);
      RequiredFine(rt, obj, keys.value, path, p);
      if required.Some? && Truthy(required.value) {
        if required.value.Str? {
          CharactersHad(rt, obj, required.value.s);
        } else {
          assert All(keys.value, p) <==> forall i :: 0 <= i < |keys.value| ==> HasOne(rt, obj, keys.value[i]);
        }
      }
    }
  }

  lemma CharactersHad(rt: Runtime, obj: seq<Entry<Json>>, s: Text)
    ensures All(Characters(s), OneHad(rt, obj)) <==> forall i :: 0 <= i < |s| ==> HasName(rt, obj, [s[i]])
  {
    var keys, p := Characters(s), OneHad(rt, obj);
    forall i | 0 <= i < |s| ensures p(keys[i]) <==> HasName(rt, obj, [s[i]]) {
      assert keys[i] == Str([s[i]]);
    }
    if All(keys, p) {
      forall i | 0 <= i < |s| ensures HasName(rt, obj, [s[i]]) {
        assert p(keys[i]);
      }
    }
  }

  /**
   * The validator returns no error exactly if the data conforms to the schema; in particular the
   * path it is called with makes no difference to the verdict.
   */
  lemma {:induction false} ValidExactlyIfConforms(rt: Runtime, data: Json, schema: Json, path: Text, strict: bool)
    requires Proper(data) && Proper(schema)
    ensures Validate(rt, data, schema, path, strict) == FINE <==> Conforms(rt, data, schema, strict)
    decreases data, 2
  {
    KeywordsAreProper(schema);
    var k := KeywordsOf(schema);
    ValidParts(rt, data, k, schema, path, strict);
    TypeFine(data, k.types);
    KeywordsFine(rt, data, k, schema, path, strict);
  }

  lemma ValidParts(rt: Runtime, data: Json, k: Keywords, schema: Json, path: Text, strict: bool)
    requires Proper(data) && Proper(schema) && ProperKeywords(k) && k == KeywordsOf(schema)
    ensures Validate(rt, data, schema, path, strict) == FINE <==>
            && !TypeDiffers(data, k.types)
            && Then(EnumErrors(data, k.enums, path), TypedErrors(rt, data, k, schema, path, strict)) == FINE
  {
  }

  lemma TypeFine(data: Json, types: Option<Json>)
    requires ProperField(types)
    ensures TypeDiffers(data, types) <==> !TypeAllowed(data, types)
  {
    if types.Some? {
      FalsyExactlyIf(types.value);
    }
  }

  lemma {:induction false} KeywordsFine(rt: Runtime, data: Json, k: Keywords, schema: Json, path: Text, strict: bool)
    requires Proper(data) && Proper(schema) && ProperKeywords(k) && k == KeywordsOf(schema)
    ensures Then(EnumErrors(data, k.enums, path), TypedErrors(rt, data, k, schema, path, strict)) == FINE
       <==> Listed(data, Field(schema, T("enum"))) && TypedConforms(rt, data, schema, strict)
    decreases data, 1, 1
  {
    ThenFine(EnumErrors(data, k.enums, path), TypedErrors(rt, data, k, schema, path, strict));
    EnumFine(data, k.enums, path);
    TypedFine(rt, data, k, schema, path, strict);
  }

  lemma {:induction false} TypedFine(rt: Runtime, data: Json, k: Keywords, schema: Json, path: Text, strict: bool)
    requires Proper(data) && Proper(schema) && ProperKeywords(k) && k == KeywordsOf(schema)
    ensures TypedErrors(rt, data, k, schema, path, strict) == FINE <==> TypedConforms(rt, data, schema, strict)
    decreases data, 1, 0
  {
    if data.Arr? {
      TypedArrayFine(rt, data, k, schema, path, strict);
    } else if data.Obj? {
      TypedObjectFine(rt, data, k, schema, path, strict);
    } else if data.Str? {
      TypedStringFine(rt, data, k, schema, path, strict);
    } else if data.Num? {
      TypedNumberFine(rt, data, k, schema, path, strict);
    }
  }

  lemma {:induction false} TypedNumberFine(rt: Runtime, data: Json, k: Keywords, schema: Json, path: Text, strict: bool)
    requires Proper(data) && Proper(schema) && ProperKeywords(k) && k == KeywordsOf(schema) && data.Num?
    ensures TypedErrors(rt, data, k, schema, path, strict) == FINE <==> TypedConforms(rt, data, schema, strict)
  {
    NumberFine(data.x, k, path);
  }

  lemma {:induction false} TypedStringFine(rt: Runtime, data: Json, k: Keywords, schema: Json, path: Text, strict: bool)
    requires Proper(data) && Proper(schema) && ProperKeywords(k) && k == KeywordsOf(schema) && data.Str?
    ensures TypedErrors(rt, data, k, schema, path, strict) == FINE <==> TypedConforms(rt, data, schema, strict)
  {
    UnitsAre(data.s);
    StringFine(rt, data.s, k, path, Whole(|data.s| + Pairs(data.s)));
  }

  lemma {:induction false} TypedArrayFine(rt: Runtime, data: Json, k: Keywords, schema: Json, path: Text, strict: bool)
    requires Proper(data) && Proper(schema) && ProperKeywords(k) && k == KeywordsOf(schema) && data.Arr?
    ensures TypedErrors(rt, data, k, schema, path, strict) == FINE <==> TypedConforms(rt, data, schema, strict)
    decreases data, 0, 1
  {
    ArrayFine(rt, data.items, k, schema, path, strict);
  }

  lemma {:induction false} TypedObjectFine(rt: Runtime, data: Json, k: Keywords, schema: Json, path: Text, strict: bool)
    requires Proper(data) && Proper(schema) && ProperKeywords(k) && k == KeywordsOf(schema) && data.Obj?
    ensures TypedErrors(rt, data, k, schema, path, strict) == FINE <==> TypedConforms(rt, data, schema, strict)
    decreases data, 0, 1
  {
    ObjectFine(rt, data.members, k, schema, path, strict);
  }

  lemma EnumFine(data: Json, enums: Option<Json>, path: Text)
    requires ProperField(enums)
    ensures EnumErrors(data, enums, path) == FINE <==> Listed(data, enums)
  {
    if enums.Some? && enums.value.Arr? {
      IncludesExactlyIf(enums.value.items, data);
    }
  }

  lemma IncludesExactlyIf(items: seq<Json>, data: Json)
    ensures Includes(items, data) <==>
            !data.Arr? && !data.Obj? && exists i :: 0 <= i < |items| && JsonLaws.Same(items[i], data)
  {
    forall i | 0 <= i < |items|
      ensures SamePrimitive(items[i], data) <==> !items[i].Arr? && !items[i].Obj? && JsonLaws.Same(items[i], data)
    {
      SameValue(items[i], data);
    }
  }

  lemma {:induction false} ArrayFine(rt: Runtime, items: seq<Json>, k: Keywords, schema: Json, path: Text, strict: bool)
    requires (forall i :: 0 <= i < |items| ==> Proper(items[i])) && Proper(schema) && ProperKeywords(k)
    ensures var sub := Field(schema, T("items"));
            ProperField(sub) &&
            (Then(CountErrors(|items|, k, path), SubErrors(rt, items, schema, path, strict)) == FINE <==>
             Between(Whole(|items|), k.minItems, k.maxItems) &&
             (HasItems(sub) ==> forall i :: 0 <= i < |items| ==> Conforms(rt, items[i], sub.value, strict)))
    decreases items, 1
  {
    FieldIsProper(schema, T("items"));
    var sub := Field(schema, T("items"));
    CountFine(|items|, k, path);
    ThenFine(CountErrors(|items|, k, path), SubErrors(rt, items, schema, path, strict));
    if HasItems(sub) {
      var p := ItemOk(rt, sub.value, strict);
      ItemsFine(rt, items, sub.value, path, strict, p);
      assert All(items, p) <==> forall i :: 0 <= i < |items| ==> Conforms(rt, items[i], sub.value, strict);
    }
  }

  ghost function ItemOk(rt: Runtime, schema: Json, strict: bool): Json -> bool
    requires Proper(schema)
  {
    (v: Json) => Proper(v) && Conforms(rt, v, schema, strict)
  }

  lemma {:induction false} ItemFine(rt: Runtime, item: Json, schema: Json, path: Text, strict: bool)
    requires Proper(item) && Proper(schema)
    ensures Validate(rt, item, schema, path, strict) == FINE <==> ItemOk(rt, schema, strict)(item)
    decreases item, 3
  {
    ValidExactlyIfConforms(rt, item, schema, path, strict);
  }

  lemma ItemStep(rt: Runtime, items: seq<Json>, schema: Json, path: Text, strict: bool)
    requires items != [] && (forall i :: 0 <= i < |items| ==> Proper(items[i])) && Proper(schema)
    ensures var n := |items| - 1;
            ItemErrors(rt, items, schema, path, strict) == FINE <==>
            ItemErrors(rt, items[..n], schema, path, strict) == FINE &&
            Validate(rt, items[n], schema, ItemPath(path, n), strict) == FINE
  {
    var n := |items| - 1;
    ThenFine(ItemErrors(rt, items[..n], schema, path, strict),
             Validate(rt, items[n], schema, ItemPath(path, n), strict));
  }

  lemma {:induction false} ItemsFine(rt: Runtime, items: seq<Json>, schema: Json, path: Text, strict: bool,
                                     p: Json -> bool)
    requires (forall i :: 0 <= i < |items| ==> Proper(items[i])) && Proper(schema) && p == ItemOk(rt, schema, strict)
    ensures ItemErrors(rt, items, schema, path, strict) == FINE <==> All(items, p)
    decreases items, 0
  {
    if items != [] {
      var n := |items| - 1;
      ItemsFine(rt, items[..n], schema, path, strict, p);
      ItemFine(rt, items[n], schema, ItemPath(path, n), strict);
      ItemStep(rt, items, schema, path, strict);
      AllSnoc(items, p);
    }
  }

  lemma {:induction false} ObjectFine(rt: Runtime, ms: seq<Entry<Json>>, k: Keywords, schema: Json, path: Text,
                                      strict: bool)
    requires (forall i :: 0 <= i < |ms| ==> Proper(ms[i].value)) && Proper(schema) && ProperKeywords(k)
    ensures Then(AllRequired(rt, ms, k.required, path), MemberErrors(rt, ms, schema, path, strict)) == FINE <==>
            HasRequired(rt, ms, k.required) && forall i :: 0 <= i < |ms| ==> MemberConforms(rt, ms[i], schema, strict)
    decreases ms, 1
  {
    AllRequiredFine(rt, ms, k.required, path);
    var p := MemberOk(rt, schema, strict);
    MembersFine(rt, ms, schema, path, strict, p);
    assert All(ms, p) <==> forall i :: 0 <= i < |ms| ==> MemberConforms(rt, ms[i], schema, strict);
    ThenFine(AllRequired(rt, ms, k.required, path), MemberErrors(rt, ms, schema, path, strict));
  }

  lemma {:induction false} MemberFine(rt: Runtime, m: Entry<Json>, schema: Json, path: Text, strict: bool)
    requires Proper(m.value) && Proper(schema)
    ensures MemberError(rt, m, schema, path, strict) == FINE <==> MemberConforms(rt, m, schema, strict)
    decreases m, 3
  {
    FieldIsProper(schema, T("properties"));
    var f := Property(rt, Field(schema, T("properties")), m.key);
    if f.Own? {
      ValidExactlyIfConforms(rt, m.value, f.schema, PropertyPath(path, m.key), strict);
    }
  }

  ghost function MemberOk(rt: Runtime, schema: Json, strict: bool): Entry<Json> -> bool
    requires Proper(schema)
  {
    (m: Entry<Json>) => Proper(m.value) && MemberConforms(rt, m, schema, strict)
  }

  lemma MemberStep(rt: Runtime, ms: seq<Entry<Json>>, schema: Json, path: Text, strict: bool)
    requires ms != [] && (forall i :: 0 <= i < |ms| ==> Proper(ms[i].value)) && Proper(schema)
    ensures var n := |ms| - 1;
            MemberErrors(rt, ms, schema, path, strict) == FINE <==>
            && MemberErrors(rt, ms[..n], schema, path, strict) == FINE
            && MemberError(rt, ms[n], schema, path, strict) == FINE
  {
    var n := |ms| - 1;
    ThenFine(MemberErrors(rt, ms[..n], schema, path, strict), MemberError(rt, ms[n], schema, path, strict));
  }

  lemma {:induction false} MembersFine(rt: Runtime, ms: seq<Entry<Json>>, schema: Json, path: Text, strict: bool,
                                       p: Entry<Json> -> bool)
    requires (forall i :: 0 <= i < |ms| ==> Proper(ms[i].value)) && Proper(schema) && p == MemberOk(rt, schema, strict)
    ensures MemberErrors(rt, ms, schema, path, strict) == FINE <==> All(ms, p)
    decreases ms, 0
  {
    if ms != [] {
      var n := |ms| - 1;
      MembersFine(rt, ms[..n], schema, path, strict, p);
      MemberFine(rt, ms[n], schema, path, strict);
      MemberStep(rt, ms, schema, path, strict);
      AllSnoc(ms, p);
    }
  }
}
