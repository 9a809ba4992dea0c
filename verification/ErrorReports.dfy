/** Which errors the validator reports. */
module ErrorReports {
  import opened Common
  import opened Numbers
  import opened JsonText
  import opened Json
  import opened Validator
  import opened Conformance

  // ---- Errors point into the data -------------------------------------------------------

  /** Every error's path starts with this text. */
  ghost predicate AllBelow(o: Outcome, path: Text)
  {
    o.Errors? ==> forall i :: 0 <= i < |o.errors| ==> path <= o.errors[i].path
  }

  lemma ThenBelow(a: Outcome, b: Outcome, path: Text)
    requires AllBelow(a, path) && AllBelow(b, path)
    ensures AllBelow(Then(a, b), path)
  {
  }

  lemma ThenIsBelow(o: Outcome, a: Outcome, b: Outcome, path: Text)
    requires o == Then(a, b) && AllBelow(a, path) && AllBelow(b, path)
    ensures AllBelow(o, path)
  {
    ThenBelow(a, b, path);
  }

  lemma PrefixBelow(o: Outcome, path: Text, longer: Text)
    requires AllBelow(o, longer) && path <= longer
    ensures AllBelow(o, path)
  {
    if o.Errors? {
      forall i | 0 <= i < |o.errors| ensures path <= o.errors[i].path {
        assert longer <= o.errors[i].path;
      }
    }
  }

  lemma PropertyBelow(path: Text, key: Text, i: nat)
    ensures path + T(".") <= PropertyPath(path, key) && path + T("[") <= ItemPath(path, i)
    ensures path <= path + T(".") && path <= path + T("[")
  {
  }

  lemma TypeBelow(data: Json, types: Json, path: Text)
    requires Proper(types)
    ensures AllBelow(TypeErrors(data, types, path), path)
  {
  }

  lemma EnumBelow(data: Json, enums: Option<Json>, path: Text)
    requires ProperField(enums)
    ensures AllBelow(EnumErrors(data, enums, path), path)
  {
  }

  lemma {:induction false} RequiredBelow(rt: Runtime, obj: seq<Entry<Json>>, keys: seq<Json>, path: Text)
    requires forall i :: 0 <= i < |keys| ==> Proper(keys[i])
    ensures AllBelow(RequiredErrors(rt, obj, keys, path), path + T("."))
  {
    if keys != [] {
      var n := |keys| - 1;
      RequiredBelow(rt, obj, keys[..n], path);
      if ToText(keys[n]).Some? {
        PropertyBelow(path, ToText(keys[n]).value, 0);
      }
      ThenBelow(RequiredErrors(rt, obj, keys[..n], path), RequiredError(rt, obj, keys[n], path), path + T("."));
    }
  }

  lemma AllRequiredBelow(rt: Runtime, obj: seq<Entry<Json>>, required: Option<Json>, path: Text)
    requires ProperField(required)
    ensures AllBelow(AllRequired(rt, obj, required, path), path + T("."))
  {
    var keys := RequiredKeys(required);
    if keys.Some? {
      RequiredBelow(rt, obj, keys.value, path);
    }
  }

  lemma NumberBelow(x: Number, k: Keywords, path: Text)
    requires ProperNumber(x) && ProperKeywords(k)
    ensures AllBelow(NumberErrors(x, k, path), path)
  {
    ThenBelow(BoundErrors(x, k.minimum, false, T("Value "), T(" is below minimum "), path, "minimum"),
              BoundErrors(x, k.maximum, true, T("Value "), T(" exceeds maximum "), path, "maximum"), path);
  }

  lemma StringBelow(rt: Runtime, s: Text, k: Keywords, path: Text)
    requires ProperKeywords(k)
    ensures AllBelow(StringErrors(rt, s, k, path), path)
  {
    var n := Whole(UnitCount(s));
    var low := BoundErrors(n, k.minLength, false, T("String length "), T(" is below minLength "), path, "minLength");
    var high := BoundErrors(n, k.maxLength, true, T("String length "), T(" exceeds maxLength "), path, "maxLength");
    ThenBelow(high, PatternErrors(rt, s, k.pattern, path), path);
    ThenBelow(low, Then(high, PatternErrors(rt, s, k.pattern, path)), path);
  }

  lemma CountBelow(n: nat, k: Keywords, path: Text)
    requires ProperKeywords(k)
    ensures AllBelow(CountErrors(n, k, path), path)
  {
    ThenBelow(BoundErrors(Whole(n), k.minItems, false, T("Array has "), T(" items, minimum is "), path, "minItems"),
              BoundErrors(Whole(n), k.maxItems, true, T("Array has "), T(" items, maximum is "), path, "maxItems"),
              path);
  }

  /** Every error of a validation points at the data it was given or into it. */
  lemma {:induction false} ErrorsPointInto(rt: Runtime, data: Json, schema: Json, path: Text, strict: bool)
    requires Proper(data) && Proper(schema)
    ensures AllBelow(Validate(rt, data, schema, path, strict), path)
    decreases data, 2
  {
    KeywordsAreProper(schema);
    var k := KeywordsOf(schema);
    if TypeDiffers(data, k.types) {
      TypeBelow(data, k.types.value, path);
    } else {
      EnumBelow(data, k.enums, path);
      TypedBelow(rt, data, k, schema, path, strict);
      ThenBelow(EnumErrors(data, k.enums, path), TypedErrors(rt, data, k, schema, path, strict), path);
    }
  }

  lemma {:induction false} TypedBelow(rt: Runtime, data: Json, k: Keywords, schema: Json, path: Text, strict: bool)
    requires Proper(data) && Proper(schema) && ProperKeywords(k)
    ensures AllBelow(TypedErrors(rt, data, k, schema, path, strict), path)
    decreases data, 1
  {
    match data
    case Num(x) => NumberBelow(x, k, path);
    case Str(s) => StringBelow(rt, s, k, path);
    case Arr(items) =>
      CountBelow(|items|, k, path);
      SubBelow(rt, items, schema, path, strict);
      PropertyBelow(path, [], 0);
      PrefixBelow(SubErrors(rt, items, schema, path, strict), path, path + T("["));
      ThenBelow(CountErrors(|items|, k, path), SubErrors(rt, items, schema, path, strict), path);
    case Obj(ms) =>
      ObjectBelow(rt, ms, k, schema, path, strict);
      PropertyBelow(path, [], 0);
      PrefixBelow(Then(AllRequired(rt, ms, k.required, path), MemberErrors(rt, ms, schema, path, strict)), path,
                  path + T("."));
    case _ =>
  }

  lemma {:induction false} SubBelow(rt: Runtime, items: seq<Json>, schema: Json, path: Text, strict: bool)
    requires (forall i :: 0 <= i < |items| ==> Proper(items[i])) && Proper(schema)
    ensures AllBelow(SubErrors(rt, items, schema, path, strict), path + T("["))
    decreases items, 1
  {
    var sub := Field(schema, T("items"));
    if HasItems(sub) {
      ItemsBelow(rt, items, sub.value, path, strict);
    }
  }

  lemma {:induction false} ItemsBelow(rt: Runtime, items: seq<Json>, schema: Json, path: Text, strict: bool)
    requires (forall i :: 0 <= i < |items| ==> Proper(items[i])) && Proper(schema)
    ensures AllBelow(ItemErrors(rt, items, schema, path, strict), path + T("["))
    decreases items, 0
  {
    if items != [] {
      var n := |items| - 1;
      ItemsBelow(rt, items[..n], schema, path, strict);
      ItemBelow(rt, items[n], schema, path, n, strict);
      LastItem(rt, items, schema, path, strict, n);
      ThenIsBelow(ItemErrors(rt, items, schema, path, strict), ItemErrors(rt, items[..n], schema, path, strict),
                  Validate(rt, items[n], schema, ItemPath(path, n), strict), path + T("["));
    }
  }

  lemma LastItem(rt: Runtime, items: seq<Json>, schema: Json, path: Text, strict: bool, n: nat)
    requires (forall i :: 0 <= i < |items| ==> Proper(items[i])) && Proper(schema) && |items| == n + 1
    ensures ItemErrors(rt, items, schema, path, strict)
         == Then(ItemErrors(rt, items[..n], schema, path, strict),
                 Validate(rt, items[n], schema, ItemPath(path, n), strict))
  {
  }

  lemma {:induction false} ItemBelow(rt: Runtime, item: Json, schema: Json, path: Text, i: nat, strict: bool)
    requires Proper(item) && Proper(schema)
    ensures AllBelow(Validate(rt, item, schema, ItemPath(path, i), strict), path + T("["))
    decreases item, 3
  {
    ErrorsPointInto(rt, item, schema, ItemPath(path, i), strict);
    PropertyBelow(path, [], i);
    PrefixBelow(Validate(rt, item, schema, ItemPath(path, i), strict), path + T("["), ItemPath(path, i));
  }

  lemma {:induction false} ObjectBelow(rt: Runtime, ms: seq<Entry<Json>>, k: Keywords, schema: Json, path: Text,
                                       strict: bool)
    requires (forall i :: 0 <= i < |ms| ==> Proper(ms[i].value)) && Proper(schema) && ProperKeywords(k)
    ensures AllBelow(Then(AllRequired(rt, ms, k.required, path), MemberErrors(rt, ms, schema, path, strict)),
                     path + T("."))
    decreases ms, 1
  {
    AllRequiredBelow(rt, ms, k.required, path);
    MembersBelow(rt, ms, schema, path, strict);
    ThenBelow(AllRequired(rt, ms, k.required, path), MemberErrors(rt, ms, schema, path, strict), path + T("."));
  }

  lemma {:induction false} MemberBelow(rt: Runtime, m: Entry<Json>, schema: Json, path: Text, strict: bool)
    requires Proper(m.value) && Proper(schema)
    ensures AllBelow(MemberError(rt, m, schema, path, strict), path + T("."))
    decreases m, 3
  {
    FieldIsProper(schema, T("properties"));
    var f := Property(rt, Field(schema, T("properties")), m.key);
    PropertyBelow(path, m.key, 0);
    if f.Own? {
      ErrorsPointInto(rt, m.value, f.schema, PropertyPath(path, m.key), strict);
      PrefixBelow(Validate(rt, m.value, f.schema, PropertyPath(path, m.key), strict), path + T("."),
                  PropertyPath(path, m.key));
    }
  }

  lemma {:induction false} MembersBelow(rt: Runtime, ms: seq<Entry<Json>>, schema: Json, path: Text, strict: bool)
    requires (forall i :: 0 <= i < |ms| ==> Proper(ms[i].value)) && Proper(schema)
    ensures AllBelow(MemberErrors(rt, ms, schema, path, strict), path + T("."))
    decreases ms, 0
  {
    if ms != [] {
      var n := |ms| - 1;
      MembersBelow(rt, ms[..n], schema, path, strict);
      MemberBelow(rt, ms[n], schema, path, strict);
      ThenBelow(MemberErrors(rt, ms[..n], schema, path, strict), MemberError(rt, ms[n], schema, path, strict),
                path + T("."));
    }
  }

  // ---- Errors at the data itself -----------------------------------------------------------

  /** An error at exactly this path names this keyword. */
  ghost predicate Reported(o: Outcome, path: Text, keyword: Text)
  {
    o.Errors? && exists i :: 0 <= i < |o.errors| && o.errors[i].path == path && o.errors[i].keyword == keyword
  }

  lemma ThenReported(a: Outcome, b: Outcome, path: Text, keyword: Text)
    requires Then(a, b).Errors?
    ensures Reported(Then(a, b), path, keyword) <==> Reported(a, path, keyword) || Reported(b, path, keyword)
  {
    var all := Then(a, b).errors;
    if Reported(a, path, keyword) {
      var i :| 0 <= i < |a.errors| && a.errors[i].path == path && a.errors[i].keyword == keyword;
      assert all[i] == a.errors[i];
    }
    if Reported(b, path, keyword) {
      var i :| 0 <= i < |b.errors| && b.errors[i].path == path && b.errors[i].keyword == keyword;
      assert all[|a.errors| + i] == b.errors[i];
    }
  }

  /** What points further in is not reported here. */
  lemma NotReported(o: Outcome, path: Text, c: Code, keyword: Text)
    requires AllBelow(o, path + [c])
    ensures !Reported(o, path, keyword)
  {
  }

  lemma OneReported(path: Text, message: Option<Text>, name: string, keyword: Text)
    requires message.Some?
    ensures Reported(Report(path, message, name), path, keyword) <==> keyword == T(name)
  {
    var o := Report(path, message, name);
    assert o.errors[0].path == path && o.errors[0].keyword == T(name);
  }

  lemma BoundReported(x: Number, bound: Option<Json>, upper: bool, before: Text, middle: Text, path: Text, name: string,
                      keyword: Text)
    requires ProperNumber(x) && ProperField(bound)
    ensures BoundErrors(x, bound, upper, before, middle, path, name).Errors?
    ensures Reported(BoundErrors(x, bound, upper, before, middle, path, name), path, keyword)
       <==> keyword == T(name) && !Within(x, bound, upper)
  {
    BoundFine(x, bound, upper, before, middle, path, name);
    if !Within(x, bound, upper) {
      OneReported(path, Say(before, ToText(Num(x)), middle + ToText(bound.value).value), name, keyword);
    }
  }

  /** Two bounds, one after the other, each reported under its own name. */
  lemma BoundsReported(x: Number, low: Option<Json>, high: Option<Json>, lowText: Text, lowMiddle: Text, highText: Text,
                       highMiddle: Text, path: Text, lowName: string, highName: string, keyword: Text)
    requires ProperNumber(x) && ProperField(low) && ProperField(high)
    ensures var o := Then(BoundErrors(x, low, false, lowText, lowMiddle, path, lowName),
                          BoundErrors(x, high, true, highText, highMiddle, path, highName));
            && o.Errors?
            && (Reported(o, path, keyword) <==>
                  || (keyword == T(lowName) && !Within(x, low, false))
                  || (keyword == T(highName) && !Within(x, high, true)))
  {
    BoundReported(x, low, false, lowText, lowMiddle, path, lowName, keyword);
    BoundReported(x, high, true, highText, highMiddle, path, highName, keyword);
    ThenReported(BoundErrors(x, low, false, lowText, lowMiddle, path, lowName),
                 BoundErrors(x, high, true, highText, highMiddle, path, highName), path, keyword);
  }

  /** The keyword is one for values of the data's type, and the data breaks it. */
  ghost predicate TypedBroken(rt: Runtime, data: Json, k: Keywords, keyword: Text)
    requires ProperKeywords(k)
  {
    match data
    case Num(x) =>
      || (keyword == T("minimum") && !Within(x, k.minimum, false))
      || (keyword == T("maximum") && !Within(x, k.maximum, true))
    case Str(s) =>
      || (keyword == T("minLength") && !Within(Whole(|s| + Pairs(s)), k.minLength, false))
      || (keyword == T("maxLength") && !Within(Whole(|s| + Pairs(s)), k.maxLength, true))
      || (keyword == T("pattern") && !MatchesPattern(rt, s, k.pattern))
    case Arr(items) =>
      IsType(k, "array") &&
      (|| (keyword == T("minItems") && !Within(Whole(|items|), k.minItems, false))
       || (keyword == T("maxItems") && !Within(Whole(|items|), k.maxItems, true)))
    case _ => false
  }

  /** The keyword is one that the data breaks; the others do not count if the type is wrong. */
  ghost predicate Broken(rt: Runtime, data: Json, schema: Json, keyword: Text)
    requires Proper(schema)
  {
    KeywordsAreProper(schema);
    if !TypeAllowed(data, Field(schema, T("type"))) then keyword == T("type")
    else
      || (keyword == T("enum") && !Listed(data, Field(schema, T("enum"))))
      || TypedBroken(rt, data, KeywordsOf(schema), keyword)
  }

  lemma TypeReported(data: Json, types: Json, path: Text, keyword: Text)
    requires Proper(types) && TypeErrors(data, types, path).Errors?
    ensures Reported(TypeErrors(data, types, path), path, keyword) <==> keyword == T("type")
  {
    OneReported(path, Say(T("Expected "), ToText(types), T(", got ") + TypeName(data)), "type", keyword);
  }

  /** The errors at the data itself name exactly the keywords it breaks. */
  lemma ReportedExactlyIf(rt: Runtime, data: Json, schema: Json, path: Text, strict: bool, keyword: Text)
    requires Proper(data) && Proper(schema) && Validate(rt, data, schema, path, strict).Errors?
    ensures Reported(Validate(rt, data, schema, path, strict), path, keyword) <==> Broken(rt, data, schema, keyword)
  {
    KeywordsAreProper(schema);
    var k := KeywordsOf(schema);
    TypeFine(data, k.types);
    if TypeDiffers(data, k.types) {
      TypeReported(data, k.types.value, path, keyword);
    } else {
      RestReported(rt, data, k, schema, path, strict, keyword);
    }
  }

  lemma RestReported(rt: Runtime, data: Json, k: Keywords, schema: Json, path: Text, strict: bool, keyword: Text)
    requires Proper(data) && Proper(schema) && ProperKeywords(k)
    requires Then(EnumErrors(data, k.enums, path), TypedErrors(rt, data, k, schema, path, strict)).Errors?
    ensures Reported(Then(EnumErrors(data, k.enums, path), TypedErrors(rt, data, k, schema, path, strict)), path,
                     keyword) <==>
            (keyword == T("enum") && !Listed(data, k.enums)) || TypedBroken(rt, data, k, keyword)
  {
    ThenReported(EnumErrors(data, k.enums, path), TypedErrors(rt, data, k, schema, path, strict), path, keyword);
    EnumReported(data, k.enums, path, keyword);
    TypedReported(rt, data, k, schema, path, strict, keyword);
  }

  lemma EnumReported(data: Json, enums: Option<Json>, path: Text, keyword: Text)
    requires ProperField(enums) && EnumErrors(data, enums, path).Errors?
    ensures Reported(EnumErrors(data, enums, path), path, keyword) <==> keyword == T("enum") && !Listed(data, enums)
  {
    EnumFine(data, enums, path);
    if !Listed(data, enums) {
      OneReported(path, Say(T("Value must be one of: "), JoinTexts(enums.value.items, T(", ")), []), "enum", keyword);
    }
  }

  lemma TypedReported(rt: Runtime, data: Json, k: Keywords, schema: Json, path: Text, strict: bool, keyword: Text)
    requires Proper(data) && Proper(schema) && ProperKeywords(k)
    requires TypedErrors(rt, data, k, schema, path, strict).Errors?
    ensures Reported(TypedErrors(rt, data, k, schema, path, strict), path, keyword)
       <==> TypedBroken(rt, data, k, keyword)
  {
    if data.Num? {
      BoundsReported(data.x, k.minimum, k.maximum, T("Value "), T(" is below minimum "), T("Value "),
                     T(" exceeds maximum "), path, "minimum", "maximum", keyword);
    } else if data.Str? {
      StringReported(rt, data.s, k, path, keyword);
    } else if data.Arr? {
      ArrayReported(rt, data.items, k, schema, path, strict, keyword);
    } else if data.Obj? {
      ObjectBelow(rt, data.members, k, schema, path, strict);
      assert T(".") == ['.' as int];
      NotReported(Then(AllRequired(rt, data.members, k.required, path),
                       MemberErrors(rt, data.members, schema, path, strict)), path, '.' as int, keyword);
    }
  }

  lemma StringReported(rt: Runtime, s: Text, k: Keywords, path: Text, keyword: Text)
    requires ProperKeywords(k) && StringErrors(rt, s, k, path).Errors?
    ensures Reported(StringErrors(rt, s, k, path), path, keyword) <==> TypedBroken(rt, Str(s), k, keyword)
  {
    UnitsAre(s);
    var n := Whole(UnitCount(s));
    var low := BoundErrors(n, k.minLength, false, T("String length "), T(" is below minLength "), path, "minLength");
    var high := BoundErrors(n, k.maxLength, true, T("String length "), T(" exceeds maxLength "), path, "maxLength");
    var pattern := PatternErrors(rt, s, k.pattern, path);
    BoundReported(n, k.minLength, false, T("String length "), T(" is below minLength "), path, "minLength", keyword);
    BoundReported(n, k.maxLength, true, T("String length "), T(" exceeds maxLength "), path, "maxLength", keyword);
    PatternReported(rt, s, k.pattern, path, keyword);
    ThenReported(high, pattern, path, keyword);
    ThenReported(low, Then(high, pattern), path, keyword);
  }

  lemma PatternReported(rt: Runtime, s: Text, pattern: Option<Json>, path: Text, keyword: Text)
    requires ProperField(pattern) && PatternErrors(rt, s, pattern, path).Errors?
    ensures Reported(PatternErrors(rt, s, pattern, path), path, keyword)
       <==> keyword == T("pattern") && !MatchesPattern(rt, s, pattern)
  {
    PatternFine(rt, s, pattern, path);
    if !MatchesPattern(rt, s, pattern) {
      var p := ToText(pattern.value);
      OneReported(path, Some(T("String does not match pattern \"") + p.value + T("\"")), "pattern", keyword);
    }
  }

  lemma ArrayReported(rt: Runtime, items: seq<Json>, k: Keywords, schema: Json, path: Text, strict: bool, keyword: Text)
    requires (forall i :: 0 <= i < |items| ==> Proper(items[i])) && Proper(schema) && ProperKeywords(k)
    requires TypedErrors(rt, Arr(items), k, schema, path, strict).Errors?
    ensures Reported(TypedErrors(rt, Arr(items), k, schema, path, strict), path, keyword)
       <==> TypedBroken(rt, Arr(items), k, keyword)
  {
    if IsType(k, "array") {
      var counts, sub := CountErrors(|items|, k, path), SubErrors(rt, items, schema, path, strict);
      BoundsReported(Whole(|items|), k.minItems, k.maxItems, T("Array has "), T(" items, minimum is "), T("Array has "),
                     T(" items, maximum is "), path, "minItems", "maxItems", keyword);
      SubBelow(rt, items, schema, path, strict);
      assert T("[") == ['[' as int];
      NotReported(sub, path, '[' as int, keyword);
      ThenReported(counts, sub, path, keyword);
    }
  }

  // ---- Errors at the members of an object ---------------------------------------------------

  lemma {:induction false} RequiredReported(rt: Runtime, obj: seq<Entry<Json>>, keys: seq<Json>, path: Text, i: nat,
                                            key: Text)
    requires (forall j :: 0 <= j < |keys| ==> Proper(keys[j])) && RequiredErrors(rt, obj, keys, path).Errors?
    requires i < |keys| && keys[i] == Str(key) && !HasName(rt, obj, key)
    ensures Reported(RequiredErrors(rt, obj, keys, path), path + T(".") + key, T("required"))
  {
    var n := |keys| - 1;
    var at := path + T(".") + key;
    if i < n {
      RequiredReported(rt, obj, keys[..n], path, i, key);
    } else {
      HasExactlyIf(rt, obj, key);
      OneReported(at, Some(T("Required property \"") + key + T("\" is missing")), "required", T("required"));
    }
    ThenReported(RequiredErrors(rt, obj, keys[..n], path), RequiredError(rt, obj, keys[n], path), at, T("required"));
  }

  lemma {:induction false} MemberReported(rt: Runtime, ms: seq<Entry<Json>>, schema: Json, path: Text, strict: bool,
                                          i: nat, at: Text, keyword: Text)
    requires (forall j :: 0 <= j < |ms| ==> Proper(ms[j].value)) && Proper(schema)
    requires MemberErrors(rt, ms, schema, path, strict).Errors?
    requires i < |ms| && Reported(MemberError(rt, ms[i], schema, path, strict), at, keyword)
    ensures Reported(MemberErrors(rt, ms, schema, path, strict), at, keyword)
  {
    var n := |ms| - 1;
    if i < n {
      MemberReported(rt, ms[..n], schema, path, strict, i, at, keyword);
    }
    ThenReported(MemberErrors(rt, ms[..n], schema, path, strict), MemberError(rt, ms[n], schema, path, strict), at,
                 keyword);
  }

  /** What is reported among the checks on an object whose type is declared is reported in all. */
  lemma ObjectReported(rt: Runtime, ms: seq<Entry<Json>>, schema: Json, path: Text, strict: bool, at: Text,
                       keyword: Text)
    requires Proper(Obj(ms)) && Proper(schema) && Declares(schema, "object")
    requires Validate(rt, Obj(ms), schema, path, strict).Errors?
    ensures ProperField(Field(schema, T("required")))
    ensures AllRequired(rt, ms, Field(schema, T("required")), path).Errors?
    ensures MemberErrors(rt, ms, schema, path, strict).Errors?
    ensures Reported(AllRequired(rt, ms, Field(schema, T("required")), path), at, keyword)
            || Reported(MemberErrors(rt, ms, schema, path, strict), at, keyword)
            ==> Reported(Validate(rt, Obj(ms), schema, path, strict), at, keyword)
  {
    KeywordsAreProper(schema);
    var k := KeywordsOf(schema);
    var required, members := AllRequired(rt, ms, k.required, path), MemberErrors(rt, ms, schema, path, strict);
    assert Validate(rt, Obj(ms), schema, path, strict)
        == Then(EnumErrors(Obj(ms), k.enums, path), Then(required, members));
    ThenReported(required, members, at, keyword);
    ThenReported(EnumErrors(Obj(ms), k.enums, path), Then(required, members), at, keyword);
  }

  /** A required name that an object lacks is reported under its own path. */
  lemma MissingIsReported(rt: Runtime, ms: seq<Entry<Json>>, schema: Json, path: Text, strict: bool, keys: seq<Json>,
                          i: nat, key: Text)
    requires Proper(Obj(ms)) && Proper(schema) && Declares(schema, "object")
    requires Validate(rt, Obj(ms), schema, path, strict).Errors?
    requires Field(schema, T("required")) == Some(Arr(keys))
    requires i < |keys| && keys[i] == Str(key) && !HasName(rt, ms, key)
    ensures Reported(Validate(rt, Obj(ms), schema, path, strict), path + T(".") + key, T("required"))
  {
    ObjectReported(rt, ms, schema, path, strict, path + T(".") + key, T("required"));
    RequiredReported(rt, ms, keys, path, i, key);
  }

  /** So is, in strict mode, a member that a closed schema has no property for. */
  lemma AdditionalIsReported(rt: Runtime, ms: seq<Entry<Json>>, schema: Json, path: Text, i: nat)
    requires Proper(Obj(ms)) && Proper(schema) && Declares(schema, "object")
    requires Validate(rt, Obj(ms), schema, path, true).Errors?
    requires Field(schema, T("additionalProperties")) == Some(Bool(false)) && i < |ms|
    requires ProperField(Field(schema, T("properties")))
    requires Property(rt, Field(schema, T("properties")), ms[i].key) == Absent
    ensures Reported(Validate(rt, Obj(ms), schema, path, true), path + T(".") + ms[i].key, T("additionalProperties"))
  {
    var key := ms[i].key;
    var at := path + T(".") + key;
    OneReported(at, Some(T("Additional property \"") + key + T("\" is not allowed")), "additionalProperties",
                T("additionalProperties"));
    ObjectReported(rt, ms, schema, path, true, at, T("additionalProperties"));
    MemberReported(rt, ms, schema, path, true, i, at, T("additionalProperties"));
  }
}
