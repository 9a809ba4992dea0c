/** Normalising a schema does not change what it means. */
module SchemaMeaning {
  import opened Common
  import opened Numbers
  import opened Json
  import opened Schemas
  import opened Validator

  // ---- The keywords the validator looks at --------------------------------------------

  /** Texts of the same length that differ in letter i. */
  lemma Different(a: string, b: string, i: nat)
    requires i < |a| == |b| && a[i] != b[i]
    ensures T(a) != T(b)
  {
    assert T(a)[i] != T(b)[i];
  }

  lemma RolesOfFour()
    ensures RoleOf(T("type")) == Verbatim && RoleOf(T("enum")) == Verbatim
  {
    Different("type", "then", 1);
    Different("type", "else", 0);
    Different("enum", "then", 0);
    Different("enum", "else", 1);
  }

  lemma RolesOfSeven()
    ensures RoleOf(T("minimum")) == Verbatim && RoleOf(T("maximum")) == Verbatim && RoleOf(T("pattern")) == Verbatim
  {
    Different("minimum", "default", 0);
    Different("maximum", "default", 0);
    Different("pattern", "default", 0);
  }

  lemma RoleOfMinItems()
    ensures RoleOf(T("minItems")) == Verbatim
  {
    Different("minItems", "examples", 0);
    Different("minItems", "$comment", 0);
    Different("minItems", "contains", 0);
  }

  lemma RoleOfMaxItems()
    ensures RoleOf(T("maxItems")) == Verbatim
  {
    Different("maxItems", "examples", 0);
    Different("maxItems", "$comment", 0);
    Different("maxItems", "contains", 0);
  }

  lemma RoleOfRequired()
    ensures RoleOf(T("required")) == Verbatim
  {
    Different("required", "examples", 0);
    Different("required", "$comment", 0);
    Different("required", "contains", 0);
  }

  lemma RolesOfLengths()
    ensures RoleOf(T("minLength")) == Verbatim && RoleOf(T("maxLength")) == Verbatim
  {
  }

  lemma RoleOfProperties()
    ensures RoleOf(T("properties")) == SchemaMap
  {
  }

  lemma RoleOfAdditional()
    ensures RoleOf(T("additionalProperties")) == SchemaValue
  {
  }

  lemma RoleOfItems()
    ensures RoleOf(T("items")) == SchemaValue
  {
    Different("items", "title", 0);
    Different("items", "$defs", 0);
  }

  lemma FieldNormalised(schema: Json, k: Text)
    ensures Field(Normalise(schema), k)
         == (var v := Field(schema, k);
             if v.None? || (schema.Obj? && RoleOf(k) == Annotation) then None
             else Some(NormaliseValue(RoleOf(k), v.value)))
  {
    if schema.Obj? {
      LookupNormalised(schema.members, k);
    }
  }

  lemma VerbatimField(schema: Json, k: Text)
    requires RoleOf(k) == Verbatim
    ensures Field(Normalise(schema), k) == Field(schema, k)
  {
    FieldNormalised(schema, k);
  }

  /** What the validator looks at as it is stays as it is. */
  lemma KeywordsKept(schema: Json)
    ensures KeywordsOf(Normalise(schema)) == KeywordsOf(schema)
  {
    RolesOfFour();
    RolesOfSeven();
    RoleOfMinItems();
    RoleOfMaxItems();
    RoleOfRequired();
    RolesOfLengths();
    VerbatimField(schema, T("type"));
    VerbatimField(schema, T("enum"));
    VerbatimField(schema, T("minimum"));
    VerbatimField(schema, T("maximum"));
    VerbatimField(schema, T("minLength"));
    VerbatimField(schema, T("maxLength"));
    VerbatimField(schema, T("pattern"));
    VerbatimField(schema, T("minItems"));
    VerbatimField(schema, T("maxItems"));
    VerbatimField(schema, T("required"));
  }

  lemma ClosedKept(schema: Json)
    ensures IsClosed(Normalise(schema)) == IsClosed(schema)
  {
    RoleOfAdditional();
    FieldNormalised(schema, T("additionalProperties"));
  }

  lemma ItemsKept(schema: Json)
    ensures Field(Normalise(schema), T("items"))
         == (var v := Field(schema, T("items")); if v.None? then None else Some(Normalise(v.value)))
  {
    RoleOfItems();
    FieldNormalised(schema, T("items"));
  }

  /** A property is the same schema as before, or it has been normalised itself. */
  lemma PropertyKept(rt: Runtime, schema: Json, key: Text)
    requires Proper(schema)
    ensures ProperField(Field(schema, T("properties"))) && ProperField(Field(Normalise(schema), T("properties")))
    ensures var f := Property(rt, Field(schema, T("properties")), key);
            var g := Property(rt, Field(Normalise(schema), T("properties")), key);
            g == f || (f.Own? && g == Own(Normalise(f.schema)))
  {
    FieldIsProper(schema, T("properties"));
    NormalisedIsProper(schema);
    FieldIsProper(Normalise(schema), T("properties"));
    RoleOfProperties();
    FieldNormalised(schema, T("properties"));
    var props := Field(schema, T("properties"));
    if props.Some? {
      MapKept(rt, props.value, key);
    }
  }

  /** The map of properties is normalised name by name. */
  lemma MapKept(rt: Runtime, props: Json, key: Text)
    requires Proper(props) && Proper(NormaliseValue(SchemaMap, props))
    ensures var f := Property(rt, Some(props), key);
            var g := Property(rt, Some(NormaliseValue(SchemaMap, props)), key);
            g == f || (f.Own? && g == Own(Normalise(f.schema)))
  {
    if props.Obj? {
      LookupEach(props.members, key);
      var v := Lookup(props.members, key);
      if v.Some? {
        assert Normalise(v.value).Obj? == v.value.Obj?;
      }
    }
  }

  // ---- Normalising keeps the meaning ----------------------------------------------------

  /** The validator returns the identical error list for a schema and its normalisation, on all data. */
  lemma {:induction false} NormaliseKeepsMeaning(rt: Runtime, data: Json, schema: Json, path: Text, strict: bool)
    requires Proper(data) && Proper(schema)
    ensures Proper(Normalise(schema))
    ensures Validate(rt, data, Normalise(schema), path, strict) == Validate(rt, data, schema, path, strict)
    decreases data, 2
  {
    NormalisedIsProper(schema);
    KeywordsAreProper(schema);
    KeywordsKept(schema);
    TypedKept(rt, data, KeywordsOf(schema), schema, path, strict);
  }

  lemma {:induction false} TypedKept(rt: Runtime, data: Json, k: Keywords, schema: Json, path: Text, strict: bool)
    requires Proper(data) && Proper(schema) && Proper(Normalise(schema)) && ProperKeywords(k)
    ensures TypedErrors(rt, data, k, Normalise(schema), path, strict) == TypedErrors(rt, data, k, schema, path, strict)
    decreases data, 1
  {
    match data
    case Arr(items) => SubErrorsKept(rt, items, schema, path, strict);
    case Obj(ms) => MemberErrorsKept(rt, ms, schema, path, strict);
    case _ =>
  }

  lemma {:induction false} SubErrorsKept(rt: Runtime, items: seq<Json>, schema: Json, path: Text, strict: bool)
    requires (forall i :: 0 <= i < |items| ==> Proper(items[i])) && Proper(schema) && Proper(Normalise(schema))
    ensures SubErrors(rt, items, Normalise(schema), path, strict) == SubErrors(rt, items, schema, path, strict)
    decreases items, 1
  {
    ItemsKept(schema);
    var sub := Field(schema, T("items"));
    if HasItems(sub) {
      FieldIsProper(schema, T("items"));
      NormalisedIsProper(sub.value);
      ItemErrorsKept(rt, items, sub.value, path, strict);
    }
  }

  lemma {:induction false} ItemErrorsKept(rt: Runtime, items: seq<Json>, schema: Json, path: Text, strict: bool)
    requires (forall i :: 0 <= i < |items| ==> Proper(items[i])) && Proper(schema) && Proper(Normalise(schema))
    ensures ItemErrors(rt, items, Normalise(schema), path, strict) == ItemErrors(rt, items, schema, path, strict)
    decreases items, 0
  {
    if items != [] {
      var n := |items| - 1;
      ItemErrorsKept(rt, items[..n], schema, path, strict);
      NormaliseKeepsMeaning(rt, items[n], schema, ItemPath(path, n), strict);
      ItemsAgree(rt, items, Normalise(schema), schema, path, strict, n);
    }
  }

  lemma {:induction false} MemberErrorKept(rt: Runtime, m: Entry<Json>, schema: Json, path: Text, strict: bool)
    requires Proper(m.value) && Proper(schema) && Proper(Normalise(schema))
    ensures MemberError(rt, m, Normalise(schema), path, strict) == MemberError(rt, m, schema, path, strict)
    decreases m, 3
  {
    PropertyKept(rt, schema, m.key);
    ClosedKept(schema);
    var f := Property(rt, Field(schema, T("properties")), m.key);
    if f.Own? {
      NormaliseKeepsMeaning(rt, m.value, f.schema, PropertyPath(path, m.key), strict);
    }
  }

  lemma {:induction false} MemberErrorsKept(rt: Runtime, ms: seq<Entry<Json>>, schema: Json, path: Text, strict: bool)
    requires (forall i :: 0 <= i < |ms| ==> Proper(ms[i].value)) && Proper(schema) && Proper(Normalise(schema))
    ensures MemberErrors(rt, ms, Normalise(schema), path, strict) == MemberErrors(rt, ms, schema, path, strict)
    decreases ms, 0
  {
    if ms != [] {
      var n := |ms| - 1;
      MemberErrorsKept(rt, ms[..n], schema, path, strict);
      MemberErrorKept(rt, ms[n], schema, path, strict);
      MembersAgree(rt, ms, Normalise(schema), schema, path, strict, n);
    }
  }
}
