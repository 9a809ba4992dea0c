/** The schema validator (genes/json-validator) on parsed JSON values. */
module Validator {
  import opened Common
  import opened Numbers
  import opened NumberText
  import opened JsonText
  import opened Json
  import opened Schemas

  datatype Error = Error(path: Text, message: Text, keyword: Text)

  /** The errors of a run, or an exception. */
  datatype Outcome = Errors(errors: seq<Error>) | Throws

  const FINE := Errors([])

  function Then(a: Outcome, b: Outcome): Outcome
  {
    if a.Throws? || b.Throws? then Throws else Errors(a.errors + b.errors)
  }

  /** What a JavaScript value is, as far as properties it does not own are concerned. */
  datatype Kind = ObjectKind | ArrayKind(length: nat) | StringKind(s: Text) | NumberKind | BoolKind

  /**
   * The parts of JavaScript that are not modelled: which truthy properties a value has beside its
   * own members and elements, and whether a text matches a pattern (None where the pattern is
   * malformed).
   */
  datatype Runtime = Runtime(builtin: (Kind, Text) -> bool, matches: (Text, Text) -> Option<bool>)

  // ---- JavaScript conversions -------------------------------------------------------

  function IsZero(x: Number): bool
    requires ProperNumber(x)
  {
    Finite(x) && Normal(x) == ZERO
  }

  predicate Truthy(v: Json)
    requires Proper(v)
  {
    match v
    case Null => false
    case Bool(b) => b
    case Num(x) => x != NaN && !IsZero(x)
    case Str(s) => s != []
    case _ => true
  }

  /** The conversion to a string; None where it throws, on an object with a member `toString`. */
  function ToText(v: Json): Option<Text>
    requires Proper(v)
    decreases v, 0
  {
    match v
    case Null => Some(T("null"))
    case Bool(b) => Some(if b then T("true") else T("false"))
    case Num(x) =>
      if Finite(x) then Some(NumberToText(x))
      else if x.NaN? then Some(T("NaN"))
      else Some(if x.neg then T("-Infinity") else T("Infinity"))
    case Str(s) => Some(s)
    case Arr(items) => JoinTexts(items, T(","))
    case Obj(ms) => if Lookup(ms, T("toString")).Some? then None else Some(T("[object Object]"))
  }

  /** An element in `join`. */
  function Element(v: Json): Option<Text>
    requires Proper(v)
    decreases v, 1
  {
    if v.Null? then Some([]) else ToText(v)
  }

  /** `join`. */
  function JoinTexts(items: seq<Json>, sep: Text): Option<Text>
    requires forall i :: 0 <= i < |items| ==> Proper(items[i])
  {
    if items == [] then Some([])
    else if |items| == 1 then Element(items[0])
    else
      var t, ts := Element(items[0]), JoinTexts(items[1..], sep);
      if t.None? || ts.None? then None else Some(t.value + sep + ts.value)
  }

  predicate NumberLess(x: Number, y: Number)
  {
    if x.NaN? || y.NaN? then false
    else if x.Infinite? then x.neg && y != Infinite(true)
    else if y.Infinite? then !y.neg
    else Amount(x) < Amount(y)
  }

  /** Strict equality, NaN being equal to itself; arrays and objects equal nothing that was parsed apart. */
  predicate SamePrimitive(v: Json, w: Json)
  {
    match v
    case Num(x) =>
      w.Num? && (if Finite(x) && Finite(w.x) then Amount(x) == Amount(w.x) else x == w.x)
    case Arr(_) => false
    case Obj(_) => false
    case _ => v == w
  }

  function TypeName(data: Json): Text
  {
    match data
    case Null => T("null")
    case Bool(_) => T("boolean")
    case Num(_) => T("number")
    case Str(_) => T("string")
    case Arr(_) => T("array")
    case Obj(_) => T("object")
  }

  // ---- Keywords ---------------------------------------------------------------------

  /** Own members of the schema; a schema that is no object has none of these names. */
  function Field(schema: Json, k: Text): Option<Json>
  {
    if schema.Obj? then Lookup(schema.members, k) else None
  }

  /** The keywords whose values are looked at as they are. */
  datatype Keywords = Keywords(
    types: Option<Json>, enums: Option<Json>, minimum: Option<Json>, maximum: Option<Json>,
    minLength: Option<Json>, maxLength: Option<Json>, pattern: Option<Json>,
    minItems: Option<Json>, maxItems: Option<Json>, required: Option<Json>)

  function KeywordsOf(schema: Json): Keywords
  {
    Keywords(Field(schema, T("type")), Field(schema, T("enum")),
             Field(schema, T("minimum")), Field(schema, T("maximum")),
             Field(schema, T("minLength")), Field(schema, T("maxLength")), Field(schema, T("pattern")),
             Field(schema, T("minItems")), Field(schema, T("maxItems")), Field(schema, T("required")))
  }

  predicate ProperField(f: Option<Json>)
  {
    f.Some? ==> Proper(f.value)
  }

  predicate ProperKeywords(k: Keywords)
  {
    && ProperField(k.types) && ProperField(k.enums) && ProperField(k.minimum) && ProperField(k.maximum)
    && ProperField(k.minLength) && ProperField(k.maxLength) && ProperField(k.pattern)
    && ProperField(k.minItems) && ProperField(k.maxItems) && ProperField(k.required)
  }

  lemma FieldIsProper(schema: Json, k: Text)
    requires Proper(schema)
    ensures ProperField(Field(schema, k))
  {
  }

  lemma KeywordsAreProper(schema: Json)
    requires Proper(schema)
    ensures ProperKeywords(KeywordsOf(schema))
  {
  }

  predicate IsType(k: Keywords, name: string)
  {
    k.types == Some(Str(T(name)))
  }

  /** `additionalProperties === false`. */
  predicate IsClosed(schema: Json)
  {
    Field(schema, T("additionalProperties")) == Some(Bool(false))
  }

  function Report(path: Text, message: Option<Text>, keyword: string): Outcome
  {
    if message.None? then Throws else Errors([Error(path, message.value, T(keyword))])
  }

  function Say(before: Text, t: Option<Text>, after: Text): Option<Text>
  {
    if t.None? then None else Some(before + t.value + after)
  }

  // ---- Checks that do not descend ---------------------------------------------------

  /** `schema.type` is given and is not the name of the data's type. */
  predicate TypeDiffers(data: Json, types: Option<Json>)
    requires ProperField(types)
  {
    types.Some? && Truthy(types.value) && types.value != Str(TypeName(data))
  }

  function TypeErrors(data: Json, types: Json, path: Text): Outcome
    requires Proper(types)
  {
    Report(path, Say(T("Expected "), ToText(types), T(", got ") + TypeName(data)), "type")
  }

  predicate Includes(items: seq<Json>, data: Json)
  {
    exists i :: 0 <= i < |items| && SamePrimitive(items[i], data)
  }

  function EnumErrors(data: Json, enums: Option<Json>, path: Text): Outcome
    requires ProperField(enums)
  {
    if enums.Some? && enums.value.Arr? && !Includes(enums.value.items, data) then
      Report(path, Say(T("Value must be one of: "), JoinTexts(enums.value.items, T(", ")), []), "enum")
    else FINE
  }

  /** A bound on a number: the error if it is a number and x lies beyond it. */
  function BoundErrors(x: Number, bound: Option<Json>, upper: bool, before: Text, middle: Text, path: Text,
                       keyword: string): Outcome
    requires ProperNumber(x) && ProperField(bound)
  {
    if bound.Some? && bound.value.Num? &&
       (if upper then NumberLess(bound.value.x, x) else NumberLess(x, bound.value.x))
    then
      var y := ToText(bound.value);
      Report(path, Say(before, ToText(Num(x)), middle + y.value), keyword)
    else FINE
  }

  function NumberErrors(x: Number, k: Keywords, path: Text): Outcome
    requires ProperNumber(x) && ProperKeywords(k)
  {
    Then(BoundErrors(x, k.minimum, false, T("Value "), T(" is below minimum "), path, "minimum"),
         BoundErrors(x, k.maximum, true, T("Value "), T(" exceeds maximum "), path, "maximum"))
  }

  function PatternErrors(rt: Runtime, s: Text, pattern: Option<Json>, path: Text): Outcome
    requires ProperField(pattern)
  {
    if pattern.None? || !Truthy(pattern.value) then FINE
    else
      var p := ToText(pattern.value);
      if p.None? then Throws
      else
        var m := rt.matches(p.value, s);
        if m.None? then Throws
        else if m.value then FINE
        else Report(path, Some(T("String does not match pattern \"") + p.value + T("\"")), "pattern")
  }

  function StringErrors(rt: Runtime, s: Text, k: Keywords, path: Text): Outcome
    requires ProperKeywords(k)
  {
    var n := Whole(UnitCount(s));
    Then(BoundErrors(n, k.minLength, false, T("String length "), T(" is below minLength "), path, "minLength"),
    Then(BoundErrors(n, k.maxLength, true, T("String length "), T(" exceeds maxLength "), path, "maxLength"),
         PatternErrors(rt, s, k.pattern, path)))
  }

  function CountErrors(n: nat, k: Keywords, path: Text): Outcome
    requires ProperKeywords(k)
  {
    Then(BoundErrors(Whole(n), k.minItems, false, T("Array has "), T(" items, minimum is "), path, "minItems"),
         BoundErrors(Whole(n), k.maxItems, true, T("Array has "), T(" items, maximum is "), path, "maxItems"))
  }

  /** `key in obj`. */
  predicate Has(rt: Runtime, obj: seq<Entry<Json>>, key: Text)
  {
    Lookup(obj, key).Some? || rt.builtin(ObjectKind, key)
  }

  function PropertyPath(path: Text, key: Text): Text
  {
    path + T(".") + key
  }

  function RequiredError(rt: Runtime, obj: seq<Entry<Json>>, key: Json, path: Text): Outcome
    requires Proper(key)
  {
    var k := ToText(key);
    if k.None? then Throws
    else if Has(rt, obj, k.value) then FINE
    else Report(PropertyPath(path, k.value), Some(T("Required property \"") + k.value + T("\" is missing")), "required")
  }

  function RequiredErrors(rt: Runtime, obj: seq<Entry<Json>>, keys: seq<Json>, path: Text): Outcome
    requires forall i :: 0 <= i < |keys| ==> Proper(keys[i])
  {
    if keys == [] then FINE
    else Then(RequiredErrors(rt, obj, keys[..|keys| - 1], path), RequiredError(rt, obj, keys[|keys| - 1], path))
  }

  function Characters(s: Text): (r: seq<Json>)
    ensures |r| == |s| && forall i :: 0 <= i < |r| ==> Proper(r[i])
  {
    seq(|s|, i requires 0 <= i < |s| => Str([s[i]]))
  }

  /** What `for (const key of schema.required || [])` runs over; None where it cannot be iterated. */
  function RequiredKeys(required: Option<Json>): (r: Option<seq<Json>>)
    requires ProperField(required)
    ensures r.Some? ==> forall i :: 0 <= i < |r.value| ==> Proper(r.value[i])
  {
    if required.None? || !Truthy(required.value) then Some([])
    else
      match required.value
      case Arr(items) => Some(items)
      case Str(s) => Some(Characters(s))
      case _ => None
  }

  function AllRequired(rt: Runtime, obj: seq<Entry<Json>>, required: Option<Json>, path: Text): Outcome
    requires ProperField(required)
  {
    var keys := RequiredKeys(required);
    if keys.None? then Throws else RequiredErrors(rt, obj, keys.value, path)
  }

  // ---- Properties -------------------------------------------------------------------

  /** `props[key]`: nothing truthy, a JSON value, or something of the runtime's without keywords. */
  datatype Found = Absent | Own(schema: Json) | Builtin

  /** The i < n whose decimal text is the key. */
  function IndexNamed(n: nat, key: Text): (i: Option<nat>)
    ensures i.Some? ==> i.value < n
  {
    if n == 0 then None else if NatText(n - 1) == key then Some(n - 1) else IndexNamed(n - 1, key)
  }

  function OwnIfTruthy(v: Json): Found
    requires Proper(v)
  {
    if Truthy(v) then Own(v) else Absent
  }

  function BuiltinIf(b: bool): Found
  {
    if b then Builtin else Absent
  }

  /** `(schema.properties || {})[key]`. */
  function Property(rt: Runtime, props: Option<Json>, key: Text): (f: Found)
    requires ProperField(props)
    ensures f.Own? ==> Proper(f.schema)
  {
    if props.None? || !Truthy(props.value) then BuiltinIf(rt.builtin(ObjectKind, key))
    else
      match props.value
      case Obj(ms) =>
        var v := Lookup(ms, key);
        if v.Some? then OwnIfTruthy(v.value) else BuiltinIf(rt.builtin(ObjectKind, key))
      case Arr(items) =>
        var i := IndexNamed(|items|, key);
        if i.Some? then OwnIfTruthy(items[i.value]) else BuiltinIf(rt.builtin(ArrayKind(|items|), key))
      case Str(s) => BuiltinIf(rt.builtin(StringKind(s), key))
      case Num(_) => BuiltinIf(rt.builtin(NumberKind, key))
      case _ => BuiltinIf(rt.builtin(BoolKind, key))
  }

  // ---- The validator ----------------------------------------------------------------

  /** `schema.items && typeof schema.items === "object"`. */
  predicate HasItems(items: Option<Json>)
  {
    items.Some? && (items.value.Obj? || items.value.Arr?)
  }

  function ItemPath(path: Text, i: nat): Text
  {
    path + T("[") + NatText(i) + T("]")
  }

  /** `validate`. */
  function Validate(rt: Runtime, data: Json, schema: Json, path: Text, strict: bool): Outcome
    requires Proper(data) && Proper(schema)
    decreases data, 2
  {
    KeywordsAreProper(schema);
    var k := KeywordsOf(schema);
    if TypeDiffers(data, k.types) then TypeErrors(data, k.types.value, path)
    else Then(EnumErrors(data, k.enums, path), TypedErrors(rt, data, k, schema, path, strict))
  }

  /** The checks that depend on the type of the data. */
  function TypedErrors(rt: Runtime, data: Json, k: Keywords, schema: Json, path: Text, strict: bool): Outcome
    requires Proper(data) && Proper(schema) && ProperKeywords(k)
    decreases data, 1
  {
    match data
    case Num(x) => NumberErrors(x, k, path)
    case Str(s) => StringErrors(rt, s, k, path)
    case Arr(items) =>
      if IsType(k, "array")
      then Then(CountErrors(|items|, k, path), SubErrors(rt, items, schema, path, strict))
      else FINE
    case Obj(ms) =>
      if IsType(k, "object") then
        Then(AllRequired(rt, ms, k.required, path), MemberErrors(rt, ms, schema, path, strict))
      else FINE
    case _ => FINE
  }

  function SubErrors(rt: Runtime, items: seq<Json>, schema: Json, path: Text, strict: bool): Outcome
    requires (forall i :: 0 <= i < |items| ==> Proper(items[i])) && Proper(schema)
    decreases items, 1
  {
    var sub := Field(schema, T("items"));
    if HasItems(sub) then ItemErrors(rt, items, sub.value, path, strict) else FINE
  }

  /** The loop over the items of an array. */
  function ItemErrors(rt: Runtime, items: seq<Json>, schema: Json, path: Text, strict: bool): Outcome
    requires (forall i :: 0 <= i < |items| ==> Proper(items[i])) && Proper(schema)
    decreases items, 0
  {
    if items == [] then FINE
    else
      var n := |items| - 1;
      Then(ItemErrors(rt, items[..n], schema, path, strict), Validate(rt, items[n], schema, ItemPath(path, n), strict))
  }

  /** One member of an object, against the property of its name. */
  function MemberError(rt: Runtime, m: Entry<Json>, schema: Json, path: Text, strict: bool): Outcome
    requires Proper(m.value) && Proper(schema)
    decreases m, 2
  {
    FieldIsProper(schema, T("properties"));
    match Property(rt, Field(schema, T("properties")), m.key)
    case Own(sub) => Validate(rt, m.value, sub, PropertyPath(path, m.key), strict)
    case Builtin => FINE
    case Absent =>
      if strict && IsClosed(schema) then
        Report(PropertyPath(path, m.key), Some(T("Additional property \"") + m.key + T("\" is not allowed")),
               "additionalProperties")
      else FINE
  }

  function MemberErrors(rt: Runtime, ms: seq<Entry<Json>>, schema: Json, path: Text, strict: bool): Outcome
    requires (forall i :: 0 <= i < |ms| ==> Proper(ms[i].value)) && Proper(schema)
    decreases ms, 0
  {
    if ms == [] then FINE
    else
      var n := |ms| - 1;
      Then(MemberErrors(rt, ms[..n], schema, path, strict), MemberError(rt, ms[n], schema, path, strict))
  }

  /** Schemas that agree on the last item and on those before agree on all. */
  lemma ItemsAgree(rt: Runtime, items: seq<Json>, a: Json, b: Json, path: Text, strict: bool, n: nat)
    requires |items| == n + 1 && (forall i :: 0 <= i < |items| ==> Proper(items[i])) && Proper(a) && Proper(b)
    requires ItemErrors(rt, items[..n], a, path, strict) == ItemErrors(rt, items[..n], b, path, strict)
    requires Validate(rt, items[n], a, ItemPath(path, n), strict)
          == Validate(rt, items[n], b, ItemPath(path, n), strict)
    ensures ItemErrors(rt, items, a, path, strict) == ItemErrors(rt, items, b, path, strict)
  {
  }

  lemma MembersAgree(rt: Runtime, ms: seq<Entry<Json>>, a: Json, b: Json, path: Text, strict: bool, n: nat)
    requires |ms| == n + 1 && (forall i :: 0 <= i < |ms| ==> Proper(ms[i].value)) && Proper(a) && Proper(b)
    requires MemberErrors(rt, ms[..n], a, path, strict) == MemberErrors(rt, ms[..n], b, path, strict)
    requires MemberError(rt, ms[n], a, path, strict) == MemberError(rt, ms[n], b, path, strict)
    ensures MemberErrors(rt, ms, a, path, strict) == MemberErrors(rt, ms, b, path, strict)
  {
  }

  // ---- As the engine runs it ----------------------------------------------------------

  /** The loop over `required`. */
  method RunRequired(rt: Runtime, obj: seq<Entry<Json>>, keys: seq<Json>, path: Text) returns (r: Outcome)
    requires forall i :: 0 <= i < |keys| ==> Proper(keys[i])
    ensures r == RequiredErrors(rt, obj, keys, path)
  {
    r := FINE;
    for i := 0 to |keys|
      invariant r == RequiredErrors(rt, obj, keys[..i], path)
    {
      assert keys[..i + 1][..i] == keys[..i];
      r := Then(r, RequiredError(rt, obj, keys[i], path));
    }
    assert keys[..|keys|] == keys;
  }

  lemma ItemErrorsNext(rt: Runtime, items: seq<Json>, schema: Json, path: Text, strict: bool, i: nat,
                       spec: int -> Outcome)
    requires i < |items| && (forall j :: 0 <= j < |items| ==> Proper(items[j])) && Proper(schema)
    requires spec == ItemErrorsUpTo(rt, items, schema, path, strict)
    ensures spec(i + 1) == Then(spec(i), Validate(rt, items[i], schema, ItemPath(path, i), strict))
  {
    assert items[..i + 1][..i] == items[..i];
  }

  /** The loop over the items, recursing into each. */
  method RunItems(rt: Runtime, items: seq<Json>, schema: Json, path: Text, strict: bool) returns (r: Outcome)
    requires (forall i :: 0 <= i < |items| ==> Proper(items[i])) && Proper(schema)
    ensures r == ItemErrors(rt, items, schema, path, strict)
    decreases items, 0
  {
    r := FINE;
    ghost var spec := ItemErrorsUpTo(rt, items, schema, path, strict);
    for i := 0 to |items|
      invariant r == spec(i)
    {
      r := RunItem(rt, items, items[i], schema, path, strict, i, r, spec);
    }
    assert items[..|items|] == items;
  }

  /** The errors of the first i items. */
  ghost function ItemErrorsUpTo(rt: Runtime, items: seq<Json>, schema: Json, path: Text, strict: bool): int -> Outcome
    requires (forall i :: 0 <= i < |items| ==> Proper(items[i])) && Proper(schema)
  {
    (i: int) => if 0 <= i <= |items| then ItemErrors(rt, items[..i], schema, path, strict) else FINE
  }

  /** One turn of that loop. */
  method RunItem(rt: Runtime, ghost items: seq<Json>, item: Json, schema: Json, path: Text, strict: bool, i: nat,
                 before: Outcome, ghost spec: int -> Outcome)
    returns (r: Outcome)
    requires (forall j :: 0 <= j < |items| ==> Proper(items[j])) && Proper(schema)
    requires i < |items| && item == items[i]
    requires spec == ItemErrorsUpTo(rt, items, schema, path, strict) && before == spec(i)
    ensures r == spec(i + 1)
    decreases item, 2
  {
    ItemErrorsNext(rt, items, schema, path, strict, i, spec);
    var e := RunValidate(rt, item, schema, ItemPath(path, i), strict);
    r := Then(before, e);
  }

  /** The loop over the members of the data. */
  method RunMembers(rt: Runtime, ms: seq<Entry<Json>>, schema: Json, path: Text, strict: bool) returns (r: Outcome)
    requires (forall i :: 0 <= i < |ms| ==> Proper(ms[i].value)) && Proper(schema)
    ensures r == MemberErrors(rt, ms, schema, path, strict)
    decreases ms, 0
  {
    FieldIsProper(schema, T("properties"));
    var props := Field(schema, T("properties"));
    r := FINE;
    for i := 0 to |ms|
      invariant r == MemberErrors(rt, ms[..i], schema, path, strict)
    {
      assert ms[..i + 1][..i] == ms[..i];
      var m := ms[i];
      var e := FINE;
      match Property(rt, props, m.key) {
        case Own(sub) => e := RunValidate(rt, m.value, sub, PropertyPath(path, m.key), strict);
        case Builtin =>
        case Absent => e := MemberError(rt, m, schema, path, strict);
      }
      r := Then(r, e);
    }
    assert ms[..|ms|] == ms;
  }

  /** The checks on an array whose type is declared. */
  method RunArray(rt: Runtime, items: seq<Json>, k: Keywords, schema: Json, path: Text, strict: bool)
    returns (r: Outcome)
    requires (forall i :: 0 <= i < |items| ==> Proper(items[i])) && Proper(schema) && ProperKeywords(k)
    ensures r == Then(CountErrors(|items|, k, path), SubErrors(rt, items, schema, path, strict))
    decreases items, 1
  {
    r := CountErrors(|items|, k, path);
    var sub := Field(schema, T("items"));
    if HasItems(sub) {
      var e := RunItems(rt, items, sub.value, path, strict);
      r := Then(r, e);
    }
  }

  /** The checks on an object whose type is declared. */
  method RunObject(rt: Runtime, ms: seq<Entry<Json>>, k: Keywords, schema: Json, path: Text, strict: bool)
    returns (r: Outcome)
    requires (forall i :: 0 <= i < |ms| ==> Proper(ms[i].value)) && Proper(schema) && ProperKeywords(k)
    ensures r == Then(AllRequired(rt, ms, k.required, path), MemberErrors(rt, ms, schema, path, strict))
    decreases ms, 1
  {
    var keys := RequiredKeys(k.required);
    if keys.None? {
      return Throws;
    }
    r := RunRequired(rt, ms, keys.value, path);
    var e := RunMembers(rt, ms, schema, path, strict);
    r := Then(r, e);
  }

  /** `validate`, with its loops. */
  method RunValidate(rt: Runtime, data: Json, schema: Json, path: Text, strict: bool) returns (r: Outcome)
    requires Proper(data) && Proper(schema)
    ensures r == Validate(rt, data, schema, path, strict)
    decreases data, 1
  {
    KeywordsAreProper(schema);
    var k := KeywordsOf(schema);
    if TypeDiffers(data, k.types) {
      return TypeErrors(data, k.types.value, path);
    }
    r := EnumErrors(data, k.enums, path);
    var e := FINE;
    match data {
      case Num(x) => e := NumberErrors(x, k, path);
      case Str(s) => e := StringErrors(rt, s, k, path);
      case Arr(items) =>
        if IsType(k, "array") {
          e := RunArray(rt, items, k, schema, path, strict);
        }
      case Obj(ms) =>
        if IsType(k, "object") {
          e := RunObject(rt, ms, k, schema, path, strict);
        }
      case _ =>
    }
    r := Then(r, e);
  }
}
