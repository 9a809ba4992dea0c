/** The validator cannot tell a schema from its canonical form. */
module CanonMeaning {
  import opened Common
  import opened Numbers
  import opened JsonText
  import opened Json
  import opened JsonReader
  import opened Schemas
  import opened Validator
  import opened SchemaMeaning

  function CanonField(f: Option<Json>): Option<Json>
  {
    if f.None? then None else Some(Canon(f.value))
  }

  // ---- Looking up in canonical objects --------------------------------------------------

  lemma {:induction false} LookupInsert(e: Entry<Json>, ms: seq<Entry<Json>>, k: Text)
    requires !HasKey(ms, e.key)
    ensures Lookup(InsertEntry(e, ms), k) == if e.key == k then Some(e.value) else Lookup(ms, k)
  {
    if ms == [] || !KeyLess(ms[0].key, e.key) {
      LookupCons(e, ms, k);
    } else {
      var rest := ms[1..];
      assert ms == [ms[0]] + rest;
      LookupCons(ms[0], rest, e.key);
      LookupCons(ms[0], rest, k);
      LookupInsert(e, rest, k);
      LookupCons(ms[0], InsertEntry(e, rest), k);
    }
  }

  lemma {:induction false} ProperInsert(e: Entry<Json>, ms: seq<Entry<Json>>)
    requires ProperMembers(ms) && !HasKey(ms, e.key) && Proper(e.value)
    ensures ProperMembers(InsertEntry(e, ms))
  {
    if ms == [] || !KeyLess(ms[0].key, e.key) {
      ProperCons(e, ms);
    } else {
      var rest := ms[1..];
      assert ms == [ms[0]] + rest;
      ProperCons(ms[0], rest);
      LookupCons(ms[0], rest, e.key);
      ProperInsert(e, rest);
      LookupInsert(e, rest, ms[0].key);
      ProperCons(ms[0], InsertEntry(e, rest));
    }
  }

  /** Sorting members changes no lookup. */
  lemma {:induction false} LookupSort(ms: seq<Entry<Json>>)
    requires ProperMembers(ms)
    ensures ProperMembers(SortEntries(ms)) && forall k :: Lookup(SortEntries(ms), k) == Lookup(ms, k)
  {
    if ms != [] {
      var rest := ms[1..];
      assert ms == [ms[0]] + rest;
      ProperCons(ms[0], rest);
      LookupSort(rest);
      ProperInsert(ms[0], SortEntries(rest));
      forall k ensures Lookup(SortEntries(ms), k) == Lookup(ms, k) {
        LookupInsert(ms[0], SortEntries(rest), k);
        LookupCons(ms[0], rest, k);
      }
    }
  }

  lemma {:induction false} LookupCanon(ms: seq<Entry<Json>>, k: Text)
    ensures Lookup(CanonMembers(ms), k) == CanonField(Lookup(ms, k))
  {
    if ms != [] {
      var rest := ms[1..];
      assert ms == [ms[0]] + rest;
      LookupCanon(rest, k);
      LookupCons(ms[0], rest, k);
      LookupCons(Entry(ms[0].key, Canon(ms[0].value)), CanonMembers(rest), k);
    }
  }

  lemma {:induction false} CanonIsProper(v: Json)
    requires Proper(v)
    ensures Proper(Canon(v))
    decreases v, 1
  {
    match v
    case Num(x) => NormalIsProper(x);
    case Arr(items) =>
      forall i | 0 <= i < |items| ensures Proper(CanonItems(items)[i]) {
        CanonIsProper(items[i]);
      }
    case Obj(ms) =>
      CanonMembersAreProper(ms);
      LookupSort(CanonMembers(ms));
    case _ =>
  }

  lemma NormalIsProper(x: Number)
    requires ProperNumber(x)
    ensures ProperNumber(Normal(x)) && Finite(Normal(x)) == Finite(x)
    ensures Finite(x) ==> Amount(Normal(x)) == Amount(x)
    ensures !Finite(x) ==> Normal(x) == x
  {
    if Finite(x) {
      NormalKeepsAmount(x);
    }
  }

  lemma {:induction false} CanonMembersAreProper(ms: seq<Entry<Json>>)
    requires ProperMembers(ms)
    ensures ProperMembers(CanonMembers(ms))
    decreases ms, 0
  {
    forall i | 0 <= i < |ms| ensures Proper(CanonMembers(ms)[i].value) {
      CanonIsProper(ms[i].value);
    }
  }

  lemma FieldCanon(schema: Json, k: Text)
    requires Proper(schema)
    ensures Field(Canon(schema), k) == CanonField(Field(schema, k))
  {
    if schema.Obj? {
      CanonMembersAreProper(schema.members);
      LookupSort(CanonMembers(schema.members));
      LookupCanon(schema.members, k);
    }
  }

  lemma FieldCanonIsProper(f: Option<Json>)
    requires ProperField(f)
    ensures ProperField(CanonField(f))
  {
    if f.Some? {
      CanonIsProper(f.value);
    }
  }

  // ---- Values convert as before ---------------------------------------------------------

  lemma NormalAgain(x: Number)
    requires Finite(x) && ProperNumber(x)
    ensures IsNormal(Normal(x)) && Normal(Normal(x)) == Normal(x)
  {
    NormalKeepsAmount(x);
    NormalTwice(Normal(x));
  }

  lemma TruthyCanon(v: Json)
    requires Proper(v)
    ensures Proper(Canon(v)) && Truthy(Canon(v)) == Truthy(v)
  {
    CanonIsProper(v);
    if v.Num? {
      NormalIsProper(v.x);
      if Finite(v.x) {
        NormalAgain(v.x);
      }
    }
  }

  lemma {:induction false} ToTextCanon(v: Json)
    requires Proper(v)
    ensures Proper(Canon(v)) && ToText(Canon(v)) == ToText(v)
    decreases v, 0
  {
    CanonIsProper(v);
    match v
    case Num(x) =>
      NormalIsProper(x);
      if Finite(x) {
        NormalTextIsText(x);
      }
    case Arr(items) => JoinCanon(items, T(","));
    case Obj(ms) => FieldCanon(v, T("toString"));
    case _ =>
  }

  lemma {:induction false} ElementCanon(v: Json)
    requires Proper(v)
    ensures Proper(Canon(v)) && Element(Canon(v)) == Element(v)
    decreases v, 1
  {
    ToTextCanon(v);
  }

  ghost predicate ProperItems(items: seq<Json>)
  {
    forall i :: 0 <= i < |items| ==> Proper(items[i])
  }

  lemma {:induction false} CanonItemsAreProper(items: seq<Json>)
    requires ProperItems(items)
    ensures ProperItems(CanonItems(items))
  {
    forall i | 0 <= i < |items| ensures Proper(CanonItems(items)[i]) {
      CanonIsProper(items[i]);
    }
  }

  lemma {:induction false} JoinCanon(items: seq<Json>, sep: Text)
    requires ProperItems(items)
    ensures ProperItems(CanonItems(items)) && JoinTexts(CanonItems(items), sep) == JoinTexts(items, sep)
    decreases items, 0
  {
    CanonItemsAreProper(items);
    if items != [] {
      ElementCanon(items[0]);
      JoinCanon(items[1..], sep);
      assert CanonItems(items)[1..] == CanonItems(items[1..]);
    }
  }

  lemma PrimitiveCanon(v: Json, data: Json)
    requires Proper(v)
    ensures SamePrimitive(Canon(v), data) == SamePrimitive(v, data)
  {
    if v.Num? {
      NormalIsProper(v.x);
    }
  }

  lemma IncludesCanon(items: seq<Json>, data: Json)
    requires ProperItems(items)
    ensures Includes(CanonItems(items), data) == Includes(items, data)
  {
    forall i | 0 <= i < |items| ensures SamePrimitive(CanonItems(items)[i], data) == SamePrimitive(items[i], data) {
      PrimitiveCanon(items[i], data);
    }
  }

  // ---- The checks report as before --------------------------------------------------------

  lemma TypesCanon(data: Json, types: Option<Json>, path: Text)
    requires ProperField(types)
    ensures ProperField(CanonField(types)) && TypeDiffers(data, CanonField(types)) == TypeDiffers(data, types)
    ensures types.Some? ==> TypeErrors(data, Canon(types.value), path) == TypeErrors(data, types.value, path)
  {
    if types.Some? {
      TruthyCanon(types.value);
      ToTextCanon(types.value);
    }
  }

  lemma EnumCanon(data: Json, enums: Option<Json>, path: Text)
    requires ProperField(enums)
    ensures ProperField(CanonField(enums)) && EnumErrors(data, CanonField(enums), path) == EnumErrors(data, enums, path)
  {
    FieldCanonIsProper(enums);
    if enums.Some? && enums.value.Arr? {
      IncludesCanon(enums.value.items, data);
      JoinCanon(enums.value.items, T(", "));
    }
  }

  lemma NumberLessCanon(x: Number, y: Number)
    requires ProperNumber(x) && ProperNumber(y)
    ensures NumberLess(x, Normal(y)) == NumberLess(x, y) && NumberLess(Normal(y), x) == NumberLess(y, x)
  {
    NormalIsProper(y);
  }

  lemma BoundCanon(x: Number, bound: Option<Json>, upper: bool, before: Text, middle: Text, path: Text, keyword: string)
    requires ProperNumber(x) && ProperField(bound)
    ensures ProperField(CanonField(bound))
    ensures BoundErrors(x, CanonField(bound), upper, before, middle, path, keyword)
         == BoundErrors(x, bound, upper, before, middle, path, keyword)
  {
    FieldCanonIsProper(bound);
    if bound.Some? && bound.value.Num? {
      NumberLessCanon(x, bound.value.x);
      ToTextCanon(bound.value);
      assert CanonField(bound).value.x == Normal(bound.value.x);
    }
  }

  lemma PatternCanon(rt: Runtime, s: Text, pattern: Option<Json>, path: Text)
    requires ProperField(pattern)
    ensures ProperField(CanonField(pattern))
    ensures PatternErrors(rt, s, CanonField(pattern), path) == PatternErrors(rt, s, pattern, path)
  {
    FieldCanonIsProper(pattern);
    if pattern.Some? {
      TruthyCanon(pattern.value);
      ToTextCanon(pattern.value);
    }
  }

  lemma RequiredErrorCanon(rt: Runtime, obj: seq<Entry<Json>>, key: Json, path: Text)
    requires Proper(key)
    ensures Proper(Canon(key)) && RequiredError(rt, obj, Canon(key), path) == RequiredError(rt, obj, key, path)
  {
    ToTextCanon(key);
  }

  lemma {:induction false} RequiredErrorsCanon(rt: Runtime, obj: seq<Entry<Json>>, keys: seq<Json>, path: Text)
    requires ProperItems(keys)
    ensures ProperItems(CanonItems(keys))
    ensures RequiredErrors(rt, obj, CanonItems(keys), path) == RequiredErrors(rt, obj, keys, path)
  {
    CanonItemsAreProper(keys);
    if keys != [] {
      var n := |keys| - 1;
      RequiredErrorsCanon(rt, obj, keys[..n], path);
      assert CanonItems(keys)[..n] == CanonItems(keys[..n]);
      RequiredErrorCanon(rt, obj, keys[n], path);
    }
  }

  lemma AllRequiredCanon(rt: Runtime, obj: seq<Entry<Json>>, required: Option<Json>, path: Text)
    requires ProperField(required)
    ensures ProperField(CanonField(required))
    ensures AllRequired(rt, obj, CanonField(required), path) == AllRequired(rt, obj, required, path)
  {
    FieldCanonIsProper(required);
    if required.Some? {
      TruthyCanon(required.value);
      if required.value.Arr? {
        RequiredErrorsCanon(rt, obj, required.value.items, path);
      }
    }
  }

  lemma PropertyCanon(rt: Runtime, props: Option<Json>, key: Text)
    requires ProperField(props)
    ensures ProperField(CanonField(props))
    ensures var f, g := Property(rt, props, key), Property(rt, CanonField(props), key);
            if f.Own? then g == Own(Canon(f.schema)) else g == f
  {
    FieldCanonIsProper(props);
    if props.Some? {
      TruthyCanon(props.value);
      if props.value.Obj? {
        FieldCanon(props.value, key);
        var v := Lookup(props.value.members, key);
        if v.Some? {
          FieldIsProper(props.value, key);
          TruthyCanon(v.value);
        }
      } else if props.value.Arr? {
        var i := IndexNamed(|props.value.items|, key);
        if i.Some? {
          TruthyCanon(props.value.items[i.value]);
        }
      }
    }
  }

  // ---- The validator reports as before ----------------------------------------------------

  function CanonKeywords(k: Keywords): Keywords
  {
    Keywords(CanonField(k.types), CanonField(k.enums), CanonField(k.minimum), CanonField(k.maximum),
             CanonField(k.minLength), CanonField(k.maxLength), CanonField(k.pattern),
             CanonField(k.minItems), CanonField(k.maxItems), CanonField(k.required))
  }

  lemma KeywordsCanon(schema: Json)
    requires Proper(schema)
    ensures KeywordsOf(Canon(schema)) == CanonKeywords(KeywordsOf(schema))
  {
    FieldCanon(schema, T("type"));
    FieldCanon(schema, T("enum"));
    FieldCanon(schema, T("minimum"));
    FieldCanon(schema, T("maximum"));
    FieldCanon(schema, T("minLength"));
    FieldCanon(schema, T("maxLength"));
    FieldCanon(schema, T("pattern"));
    FieldCanon(schema, T("minItems"));
    FieldCanon(schema, T("maxItems"));
    FieldCanon(schema, T("required"));
  }

  lemma CanonKeywordsAreProper(k: Keywords)
    requires ProperKeywords(k)
    ensures ProperKeywords(CanonKeywords(k))
  {
    FieldCanonIsProper(k.types);
    FieldCanonIsProper(k.enums);
    FieldCanonIsProper(k.minimum);
    FieldCanonIsProper(k.maximum);
    FieldCanonIsProper(k.minLength);
    FieldCanonIsProper(k.maxLength);
    FieldCanonIsProper(k.pattern);
    FieldCanonIsProper(k.minItems);
    FieldCanonIsProper(k.maxItems);
    FieldCanonIsProper(k.required);
  }

  /** On every value the validator returns the same for a schema and for its canonical form. */
  lemma {:induction false} CanonKeepsMeaning(rt: Runtime, data: Json, schema: Json, path: Text, strict: bool)
    requires Proper(data) && Proper(schema)
    ensures Proper(Canon(schema))
    ensures Validate(rt, data, Canon(schema), path, strict) == Validate(rt, data, schema, path, strict)
    decreases data, 2
  {
    CanonIsProper(schema);
    KeywordsAreProper(schema);
    var k := KeywordsOf(schema);
    KeywordsCanon(schema);
    CanonKeywordsAreProper(k);
    TypesCanon(data, k.types, path);
    EnumCanon(data, k.enums, path);
    TypedCanon(rt, data, k, schema, path, strict);
  }

  lemma NumberErrorsCanon(x: Number, k: Keywords, path: Text)
    requires ProperNumber(x) && ProperKeywords(k) && ProperKeywords(CanonKeywords(k))
    ensures NumberErrors(x, CanonKeywords(k), path) == NumberErrors(x, k, path)
  {
    BoundCanon(x, k.minimum, false, T("Value "), T(" is below minimum "), path, "minimum");
    BoundCanon(x, k.maximum, true, T("Value "), T(" exceeds maximum "), path, "maximum");
  }

  lemma StringErrorsCanon(rt: Runtime, s: Text, k: Keywords, path: Text)
    requires ProperKeywords(k) && ProperKeywords(CanonKeywords(k))
    ensures StringErrors(rt, s, CanonKeywords(k), path) == StringErrors(rt, s, k, path)
  {
    var n := Whole(UnitCount(s));
    BoundCanon(n, k.minLength, false, T("String length "), T(" is below minLength "), path, "minLength");
    BoundCanon(n, k.maxLength, true, T("String length "), T(" exceeds maxLength "), path, "maxLength");
    PatternCanon(rt, s, k.pattern, path);
  }

  lemma CountErrorsCanon(n: nat, k: Keywords, path: Text)
    requires ProperKeywords(k) && ProperKeywords(CanonKeywords(k))
    ensures CountErrors(n, CanonKeywords(k), path) == CountErrors(n, k, path)
  {
    BoundCanon(Whole(n), k.minItems, false, T("Array has "), T(" items, minimum is "), path, "minItems");
    BoundCanon(Whole(n), k.maxItems, true, T("Array has "), T(" items, maximum is "), path, "maxItems");
  }

  lemma IsTypeCanon(k: Keywords, name: string)
    ensures IsType(CanonKeywords(k), name) == IsType(k, name)
  {
  }

  lemma {:induction false} TypedCanon(rt: Runtime, data: Json, k: Keywords, schema: Json, path: Text, strict: bool)
    requires Proper(data) && Proper(schema) && Proper(Canon(schema))
    requires ProperKeywords(k) && ProperKeywords(CanonKeywords(k))
    ensures TypedErrors(rt, data, CanonKeywords(k), Canon(schema), path, strict)
         == TypedErrors(rt, data, k, schema, path, strict)
    decreases data, 1
  {
    match data
    case Num(x) => NumberErrorsCanon(x, k, path);
    case Str(s) => StringErrorsCanon(rt, s, k, path);
    case Arr(items) =>
      IsTypeCanon(k, "array");
      CountErrorsCanon(|items|, k, path);
      SubErrorsCanon(rt, items, schema, path, strict);
    case Obj(ms) =>
      IsTypeCanon(k, "object");
      AllRequiredCanon(rt, ms, k.required, path);
      MemberErrorsCanon(rt, ms, schema, path, strict);
    case _ =>
  }

  lemma {:induction false} SubErrorsCanon(rt: Runtime, items: seq<Json>, schema: Json, path: Text, strict: bool)
    requires ProperItems(items) && Proper(schema) && Proper(Canon(schema))
    ensures SubErrors(rt, items, Canon(schema), path, strict) == SubErrors(rt, items, schema, path, strict)
    decreases items, 1
  {
    FieldCanon(schema, T("items"));
    FieldIsProper(schema, T("items"));
    var sub := Field(schema, T("items"));
    if HasItems(sub) {
      CanonIsProper(sub.value);
      ItemErrorsCanon(rt, items, sub.value, path, strict);
    }
  }

  lemma {:induction false} ItemErrorsCanon(rt: Runtime, items: seq<Json>, schema: Json, path: Text, strict: bool)
    requires ProperItems(items) && Proper(schema) && Proper(Canon(schema))
    ensures ItemErrors(rt, items, Canon(schema), path, strict) == ItemErrors(rt, items, schema, path, strict)
    decreases items, 0
  {
    if items != [] {
      var n := |items| - 1;
      ItemErrorsCanon(rt, items[..n], schema, path, strict);
      CanonKeepsMeaning(rt, items[n], schema, ItemPath(path, n), strict);
      ItemsAgree(rt, items, Canon(schema), schema, path, strict, n);
    }
  }

  lemma ClosedCanon(schema: Json)
    requires Proper(schema)
    ensures IsClosed(Canon(schema)) == IsClosed(schema)
  {
    FieldCanon(schema, T("additionalProperties"));
  }

  lemma {:induction false} MemberErrorCanon(rt: Runtime, m: Entry<Json>, schema: Json, path: Text, strict: bool)
    requires Proper(m.value) && Proper(schema) && Proper(Canon(schema))
    ensures MemberError(rt, m, Canon(schema), path, strict) == MemberError(rt, m, schema, path, strict)
    decreases m, 3
  {
    FieldCanon(schema, T("properties"));
    ClosedCanon(schema);
    FieldIsProper(schema, T("properties"));
    PropertyCanon(rt, Field(schema, T("properties")), m.key);
    var f := Property(rt, Field(schema, T("properties")), m.key);
    if f.Own? {
      CanonKeepsMeaning(rt, m.value, f.schema, PropertyPath(path, m.key), strict);
    }
  }

  lemma {:induction false} MemberErrorsCanon(rt: Runtime, ms: seq<Entry<Json>>, schema: Json, path: Text, strict: bool)
    requires (forall i :: 0 <= i < |ms| ==> Proper(ms[i].value)) && Proper(schema) && Proper(Canon(schema))
    ensures MemberErrors(rt, ms, Canon(schema), path, strict) == MemberErrors(rt, ms, schema, path, strict)
    decreases ms, 0
  {
    if ms != [] {
      var n := |ms| - 1;
      MemberErrorsCanon(rt, ms[..n], schema, path, strict);
      MemberErrorCanon(rt, ms[n], schema, path, strict);
      MembersAgree(rt, ms, Canon(schema), schema, path, strict, n);
    }
  }

  // ---- Compatible schemas mean the same -----------------------------------------------------

  lemma SameCanonAgree(a: Json, b: Json, rt: Runtime, data: Json, path: Text, strict: bool)
    requires Proper(a) && Proper(b) && Canon(a) == Canon(b) && Proper(data)
    ensures Validate(rt, data, a, path, strict) == Validate(rt, data, b, path, strict)
  {
    CanonKeepsMeaning(rt, data, a, path, strict);
    CanonKeepsMeaning(rt, data, b, path, strict);
  }

  lemma PassingSidesSameCanon(q: Option<Json>, c: Option<Json>)
    requires ProperSide(q) && ProperSide(c) && SideProblem(q, c).None?
    ensures q.Some? && c.Some? && Canon(Normalise(q.value)) == Canon(Normalise(c.value))
  {
    PassingTexts(q, c);
    SameTextSameCanon(Normalise(q.value), Normalise(c.value));
  }

  lemma PassingTexts(q: Option<Json>, c: Option<Json>)
    requires ProperSide(q) && ProperSide(c) && SideProblem(q, c).None?
    ensures q.Some? && c.Some? && Proper(Normalise(q.value)) && Proper(Normalise(c.value))
    ensures Jcs(Normalise(q.value)).Some? && Jcs(Normalise(c.value)) == Jcs(Normalise(q.value))
  {
    NormalisedIsProper(q.value);
    NormalisedIsProper(c.value);
  }

  /** Schemas that pass the comparison for one side report the same errors on all data. */
  lemma PassingSidesAgree(q: Option<Json>, c: Option<Json>, rt: Runtime, data: Json, path: Text, strict: bool)
    requires ProperSide(q) && ProperSide(c) && SideProblem(q, c).None? && Proper(data)
    ensures q.Some? && c.Some?
    ensures Validate(rt, data, q.value, path, strict) == Validate(rt, data, c.value, path, strict)
  {
    PassingSidesSameCanon(q, c);
    NormaliseKeepsMeaning(rt, data, q.value, path, strict);
    NormaliseKeepsMeaning(rt, data, c.value, path, strict);
    SameCanonAgree(Normalise(q.value), Normalise(c.value), rt, data, path, strict);
  }

  /** If `schemaIncompatibility` finds nothing, both genes accept and reject exactly the same inputs and outputs. */
  lemma CompatibleSchemasAgree(query: Sides, candidate: Sides, rt: Runtime, data: Json, path: Text, strict: bool)
    requires ProperSides(query) && ProperSides(candidate) && Proper(data)
    requires SchemaIncompatibility(query, candidate).None?
    ensures query.input.Some? && candidate.input.Some? && query.output.Some? && candidate.output.Some?
    ensures Validate(rt, data, query.input.value, path, strict)
         == Validate(rt, data, candidate.input.value, path, strict)
    ensures Validate(rt, data, query.output.value, path, strict)
         == Validate(rt, data, candidate.output.value, path, strict)
  {
    PassingSidesAgree(query.input, candidate.input, rt, data, path, strict);
    PassingSidesAgree(query.output, candidate.output, rt, data, path, strict);
  }
}
