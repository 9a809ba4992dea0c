/** Normalising and comparing JSON schemas (src/cloud/capability-candidates.ts). */
module Schemas {
  import opened Common
  import opened Numbers
  import opened Json
  import opened JsonLaws

  /** What `normaliseSchema` does with a member of this name. */
  datatype Role = Annotation | SchemaMap | SchemaValue | SchemaArray | Verbatim

  function RoleOf(k: Text): Role
  {
    if k == T("description") || k == T("title") || k == T("examples") || k == T("default") || k == T("$comment")
    then Annotation
    else if k == T("properties") || k == T("patternProperties") || k == T("$defs") then SchemaMap
    else if k == T("items") || k == T("additionalProperties") || k == T("not") || k == T("if") || k == T("then")
         || k == T("else") || k == T("contains") then SchemaValue
    else if k == T("prefixItems") || k == T("allOf") || k == T("anyOf") || k == T("oneOf") then SchemaArray
    else Verbatim
  }

  /** `normaliseSchema`. */
  function Normalise(s: Json): Json
    decreases s, 0
  {
    match s
    case Obj(ms) => Obj(NormaliseMembers(ms))
    case _ => s
  }

  /** What becomes of the value of a member that stays. */
  function NormaliseValue(role: Role, v: Json): Json
    decreases v, 1
  {
    if role == SchemaMap && v.Obj? then Obj(NormaliseEach(v.members))
    else if role == SchemaValue then Normalise(v)
    else if role == SchemaArray && v.Arr? then Arr(NormaliseItems(v.items))
    else v
  }

  /** Annotations go, schemas below are normalised, everything else stays as it is. */
  function NormaliseMembers(ms: seq<Entry<Json>>): seq<Entry<Json>>
  {
    if ms == [] then []
    else
      var role, rest := RoleOf(ms[0].key), NormaliseMembers(ms[1..]);
      if role == Annotation then rest else [Entry(ms[0].key, NormaliseValue(role, ms[0].value))] + rest
  }

  /** The member values of a map of schemas; all names stay. */
  function NormaliseEach(ms: seq<Entry<Json>>): seq<Entry<Json>>
  {
    if ms == [] then [] else [Entry(ms[0].key, Normalise(ms[0].value))] + NormaliseEach(ms[1..])
  }

  function NormaliseItems(items: seq<Json>): (r: seq<Json>)
    ensures |r| == |items|
  {
    if items == [] then [] else [Normalise(items[0])] + NormaliseItems(items[1..])
  }

  /** `hasDollarKeyword`: a member named `$...` other than `$comment` at any depth. */
  predicate HasDollar(v: Json)
  {
    match v
    case Arr(items) => exists i :: 0 <= i < |items| && HasDollar(items[i])
    case Obj(ms) => exists i :: 0 <= i < |ms| && (IsDollar(ms[i].key) || HasDollar(ms[i].value))
    case _ => false
  }

  predicate IsDollar(k: Text)
  {
    k != [] && k[0] == '$' as int && k != T("$comment")
  }

  /** The own member k. */
  function Lookup(ms: seq<Entry<Json>>, k: Text): Option<Json>
  {
    var i := KeyIndex(ms, k);
    if i < |ms| then Some(ms[i].value) else None
  }

  /** `hasProperties`; None stands for undefined. */
  predicate HasProperties(s: Option<Json>)
  {
    s.Some? && s.value.Obj? &&
    var p := Lookup(s.value.members, T("properties"));
    p.Some? && p.value.Obj?
  }

  // ---- Normal schemas are proper and look up as expected ----------------------------

  lemma {:induction false} LookupNormalised(ms: seq<Entry<Json>>, k: Text)
    ensures Lookup(NormaliseMembers(ms), k)
         == (var v := Lookup(ms, k);
             if RoleOf(k) == Annotation || v.None? then None else Some(NormaliseValue(RoleOf(k), v.value)))
  {
    if ms != [] {
      LookupNormalised(ms[1..], k);
      LookupCons(ms[0], ms[1..], k);
      assert ms == [ms[0]] + ms[1..];
      var role := RoleOf(ms[0].key);
      if role != Annotation {
        LookupCons(Entry(ms[0].key, NormaliseValue(role, ms[0].value)), NormaliseMembers(ms[1..]), k);
      }
    }
  }

  lemma LookupCons(m: Entry<Json>, ms: seq<Entry<Json>>, k: Text)
    ensures Lookup([m] + ms, k) == if m.key == k then Some(m.value) else Lookup(ms, k)
  {
    assert ([m] + ms)[1..] == ms;
  }

  lemma {:induction false} LookupEach(ms: seq<Entry<Json>>, k: Text)
    ensures Lookup(NormaliseEach(ms), k)
         == (var v := Lookup(ms, k); if v.None? then None else Some(Normalise(v.value)))
  {
    if ms != [] {
      LookupEach(ms[1..], k);
      LookupCons(ms[0], ms[1..], k);
      assert ms == [ms[0]] + ms[1..];
      LookupCons(Entry(ms[0].key, Normalise(ms[0].value)), NormaliseEach(ms[1..]), k);
    }
  }

  ghost predicate HasKey(ms: seq<Entry<Json>>, k: Text)
  {
    Lookup(ms, k).Some?
  }

  lemma {:induction false} HasKeyIff(ms: seq<Entry<Json>>, k: Text)
    ensures HasKey(ms, k) <==> exists i :: 0 <= i < |ms| && ms[i].key == k
  {
    var i := KeyIndex(ms, k);
    if i < |ms| {
      assert ms[i].key == k;
    }
  }

  ghost predicate ProperMembers(ms: seq<Entry<Json>>)
  {
    DistinctKeys(ms) && forall i :: 0 <= i < |ms| ==> Proper(ms[i].value)
  }

  lemma ProperCons(m: Entry<Json>, ms: seq<Entry<Json>>)
    ensures ProperMembers([m] + ms) <==> !HasKey(ms, m.key) && Proper(m.value) && ProperMembers(ms)
  {
    var s := [m] + ms;
    HasKeyIff(ms, m.key);
    if ProperMembers(s) {
      forall i | 0 <= i < |ms| ensures ms[i].key != m.key && Proper(ms[i].value) {
        assert s[0] == m && s[i + 1] == ms[i] && Proper(s[i + 1].value);
      }
      assert Proper(s[0].value);
      forall i, j | 0 <= i < j < |ms| ensures ms[i].key != ms[j].key {
        assert s[i + 1] == ms[i] && s[j + 1] == ms[j];
      }
    }
    if !HasKey(ms, m.key) && Proper(m.value) && ProperMembers(ms) {
      forall i | 0 <= i < |s| ensures Proper(s[i].value) && forall j :: i < j < |s| ==> s[i].key != s[j].key {
        assert i > 0 ==> s[i] == ms[i - 1];
        assert forall j :: i < j < |s| ==> s[j] == ms[j - 1];
      }
    }
  }

  lemma {:induction false} NormalisedIsProper(s: Json)
    requires Proper(s)
    ensures Proper(Normalise(s))
    decreases s, 2
  {
    if s.Obj? {
      NormalisedMembersAreProper(s.members);
    }
  }

  lemma {:induction false} NormalisedValueIsProper(role: Role, v: Json)
    requires Proper(v)
    ensures Proper(NormaliseValue(role, v))
    decreases v, 3
  {
    if role == SchemaMap && v.Obj? {
      NormalisedEachIsProper(v.members);
    } else if role == SchemaValue {
      NormalisedIsProper(v);
    } else if role == SchemaArray && v.Arr? {
      NormalisedItemsAreProper(v.items);
    }
  }

  lemma {:induction false} NormalisedItemsAreProper(items: seq<Json>)
    requires forall i :: 0 <= i < |items| ==> Proper(items[i])
    ensures forall i :: 0 <= i < |items| ==> Proper(NormaliseItems(items)[i])
    decreases items, 0
  {
    if items != [] {
      NormalisedIsProper(items[0]);
      NormalisedItemsAreProper(items[1..]);
    }
  }

  lemma {:induction false} NormalisedMembersAreProper(ms: seq<Entry<Json>>)
    requires ProperMembers(ms)
    ensures ProperMembers(NormaliseMembers(ms))
    decreases ms, 0
  {
    if ms != [] {
      assert ms == [ms[0]] + ms[1..];
      ProperCons(ms[0], ms[1..]);
      NormalisedMembersAreProper(ms[1..]);
      var role := RoleOf(ms[0].key);
      NormalisedValueIsProper(role, ms[0].value);
      LookupNormalised(ms[1..], ms[0].key);
      ProperCons(Entry(ms[0].key, NormaliseValue(role, ms[0].value)), NormaliseMembers(ms[1..]));
    }
  }

  lemma {:induction false} NormalisedEachIsProper(ms: seq<Entry<Json>>)
    requires ProperMembers(ms)
    ensures ProperMembers(NormaliseEach(ms))
    decreases ms, 0
  {
    if ms != [] {
      assert ms == [ms[0]] + ms[1..];
      ProperCons(ms[0], ms[1..]);
      NormalisedEachIsProper(ms[1..]);
      NormalisedIsProper(ms[0].value);
      LookupEach(ms[1..], ms[0].key);
      ProperCons(Entry(ms[0].key, Normalise(ms[0].value)), NormaliseEach(ms[1..]));
    }
  }

  // ---- Comparing --------------------------------------------------------------------

  /** `canonicalSchema`. */
  function CanonicalSchema(s: Json): Option<Text>
    requires Proper(s)
  {
    NormalisedIsProper(s);
    Jcs(Normalise(s))
  }

  /** The schemas a query or a phenotype gives for input and output; None where there is none. */
  datatype Sides = Sides(input: Option<Json>, output: Option<Json>)

  predicate ProperSide(s: Option<Json>)
  {
    s.Some? ==> Proper(s.value)
  }

  predicate ProperSides(p: Sides)
  {
    ProperSide(p.input) && ProperSide(p.output)
  }

  datatype Problem = QueryWithoutProperties | CandidateWithoutProperties | DollarKeyword | NoCanonicalForm | Differs

  datatype Incompatibility = Incompatibility(problem: Problem, ofInput: bool)

  /** One turn of the loop in `schemaIncompatibility`. */
  function SideProblem(q: Option<Json>, c: Option<Json>): Option<Problem>
    requires ProperSide(q) && ProperSide(c)
  {
    if !HasProperties(q) then Some(QueryWithoutProperties)
    else if !HasProperties(c) then Some(CandidateWithoutProperties)
    else if HasDollar(q.value) || HasDollar(c.value) then Some(DollarKeyword)
    else
      var qc, cc := CanonicalSchema(q.value), CanonicalSchema(c.value);
      if qc.None? || cc.None? then Some(NoCanonicalForm)
      else if qc != cc then Some(Differs)
      else None
  }

  /** `schemaIncompatibility`; None means compatible. */
  function SchemaIncompatibility(query: Sides, candidate: Sides): Option<Incompatibility>
    requires ProperSides(query) && ProperSides(candidate)
  {
    var input := SideProblem(query.input, candidate.input);
    if input.Some? then Some(Incompatibility(input.value, true))
    else
      var output := SideProblem(query.output, candidate.output);
      if output.Some? then Some(Incompatibility(output.value, false)) else None
  }

  /** A schema that can be compared at all. */
  ghost predicate Comparable(s: Option<Json>)
    requires ProperSide(s)
  {
    HasProperties(s) && !HasDollar(s.value) && CanonicalSchema(s.value).Some?
  }

  /** The same schema but for annotations, order of members and spelling of numbers. */
  ghost predicate SameSchema(s: Option<Json>, t: Option<Json>)
  {
    s.Some? && t.Some? && Same(Normalise(s.value), Normalise(t.value))
  }

  /** Two sides pass exactly if both can be compared and are the same schema. */
  lemma SidePasses(q: Option<Json>, c: Option<Json>)
    requires ProperSide(q) && ProperSide(c)
    ensures SideProblem(q, c).None? <==> Comparable(q) && Comparable(c) && SameSchema(q, c)
  {
    if Comparable(q) && Comparable(c) {
      NormalisedIsProper(q.value);
      NormalisedIsProper(c.value);
      TextIsFaithful(Normalise(q.value), Normalise(c.value));
    }
  }

  lemma CompatibleExactlyIf(q: Sides, c: Sides)
    requires ProperSides(q) && ProperSides(c)
    ensures SchemaIncompatibility(q, c).None? <==>
            && Comparable(q.input) && Comparable(c.input) && SameSchema(q.input, c.input)
            && Comparable(q.output) && Comparable(c.output) && SameSchema(q.output, c.output)
  {
    SidePasses(q.input, c.input);
    SidePasses(q.output, c.output);
  }
}
