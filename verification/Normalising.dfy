/** What normalising drops and keeps. */
module Normalising {
  import opened Common
  import opened Numbers
  import opened Json
  import opened Schemas

  // ---- Annotations -------------------------------------------------------------------------

  lemma {:induction false} NormaliseConcat(a: seq<Entry<Json>>, b: seq<Entry<Json>>)
    ensures NormaliseMembers(a + b) == NormaliseMembers(a) + NormaliseMembers(b)
  {
    if a == [] {
      assert a + b == b;
    } else {
      assert (a + b)[1..] == a[1..] + b && (a + b)[0] == a[0];
      NormaliseConcat(a[1..], b);
    }
  }

  lemma DroppedAlone(m: Entry<Json>)
    requires RoleOf(m.key) == Annotation
    ensures NormaliseMembers([m]) == []
  {
    assert [m][1..] == [];
  }

  lemma DroppedBetween(a: seq<Entry<Json>>, m: Entry<Json>, b: seq<Entry<Json>>)
    requires RoleOf(m.key) == Annotation
    ensures NormaliseMembers(a + [m] + b) == NormaliseMembers(a + b)
  {
    DroppedAlone(m);
    NormaliseConcat(a + [m], b);
    NormaliseConcat(a, [m]);
    NormaliseConcat(a, b);
    assert NormaliseMembers(a) + [] == NormaliseMembers(a);
  }

  lemma NameOfAnnotation(name: string)
    requires name in {"description", "title", "examples", "default", "$comment"}
    ensures RoleOf(T(name)) == Annotation
  {
  }

  /** A description, title, examples, default or comment changes nothing, wherever it stands. */
  lemma AnnotationsDoNotCount(ms: seq<Entry<Json>>, i: nat, name: string, v: Json)
    requires i <= |ms| && name in {"description", "title", "examples", "default", "$comment"}
    ensures Normalise(Obj(ms[..i] + [Entry(T(name), v)] + ms[i..])) == Normalise(Obj(ms))
  {
    NameOfAnnotation(name);
    DroppedBetween(ms[..i], Entry(T(name), v), ms[i..]);
    assert ms[..i] + ms[i..] == ms;
  }

  // ---- What becomes of the other members ------------------------------------------------------

  predicate IsAnnotation(k: Text)
  {
    k == T("description") || k == T("title") || k == T("examples") || k == T("default") || k == T("$comment")
  }

  predicate NamesMap(k: Text)
  {
    k == T("properties") || k == T("patternProperties") || k == T("$defs")
  }

  predicate NamesSchema(k: Text)
  {
    k == T("items") || k == T("additionalProperties") || k == T("not") || k == T("if") || k == T("then")
    || k == T("else") || k == T("contains")
  }

  predicate NamesList(k: Text)
  {
    k == T("prefixItems") || k == T("allOf") || k == T("anyOf") || k == T("oneOf")
  }

  /** Every schema of a map is normalised under its own name. */
  ghost predicate MapBecomes(v: seq<Entry<Json>>, w: seq<Entry<Json>>)
  {
    forall p: Text :: Lookup(w, p) == match Lookup(v, p) case None => None case Some(sub) => Some(Normalise(sub))
  }

  /** w is v with the schemas in it normalised: those of a map, v itself, those of a list, or none. */
  ghost predicate Becomes(k: Text, v: Json, w: Json)
  {
    if NamesMap(k) then (if v.Obj? then w.Obj? && MapBecomes(v.members, w.members) else w == v)
    else if NamesSchema(k) then w == Normalise(v)
    else if NamesList(k) && v.Arr? then
      w.Arr? && |w.items| == |v.items| && forall i :: 0 <= i < |v.items| ==> w.items[i] == Normalise(v.items[i])
    else w == v
  }

  lemma RolesAre(k: Text)
    ensures RoleOf(k) == if IsAnnotation(k) then Annotation else if NamesMap(k) then SchemaMap
                         else if NamesSchema(k) then SchemaValue else if NamesList(k) then SchemaArray else Verbatim
  {
  }

  lemma {:induction false} ItemsBecome(items: seq<Json>)
    ensures forall i :: 0 <= i < |items| ==> NormaliseItems(items)[i] == Normalise(items[i])
  {
    if items != [] {
      ItemsBecome(items[1..]);
      assert forall i :: 0 < i < |items| ==> items[i] == items[1..][i - 1];
    }
  }

  lemma EachBecomes(ms: seq<Entry<Json>>)
    ensures MapBecomes(ms, NormaliseEach(ms))
  {
    forall p: Text
      ensures Lookup(NormaliseEach(ms), p) ==
              match Lookup(ms, p) case None => None case Some(sub) => Some(Normalise(sub))
    {
      LookupEach(ms, p);
    }
  }

  lemma ValueBecomes(k: Text, v: Json, role: Role)
    requires role == RoleOf(k) && role != Annotation
    ensures Becomes(k, v, NormaliseValue(role, v))
  {
    RolesAre(k);
    if v.Obj? {
      EachBecomes(v.members);
    } else if v.Arr? {
      ItemsBecome(v.items);
    }
  }

  /** Every member but an annotation stays. */
  lemma MembersStay(ms: seq<Entry<Json>>, k: Text)
    requires !IsAnnotation(k)
    ensures match Lookup(ms, k)
            case None => Lookup(NormaliseMembers(ms), k) == None
            case Some(v) =>
              var w := Lookup(NormaliseMembers(ms), k);
              w.Some? && Becomes(k, v, w.value)
  {
    LookupNormalised(ms, k);
    RolesAre(k);
    if Lookup(ms, k).Some? {
      ValueBecomes(k, Lookup(ms, k).value, RoleOf(k));
    }
  }

  // ---- Twice is once ------------------------------------------------------------------------------

  /** Normalising again changes nothing. */
  lemma {:induction false} NormaliseTwice(s: Json)
    ensures Normalise(Normalise(s)) == Normalise(s)
    decreases s, 0
  {
    if s.Obj? {
      MembersTwice(s.members);
    }
  }

  lemma {:induction false} ValueTwice(role: Role, v: Json)
    ensures NormaliseValue(role, NormaliseValue(role, v)) == NormaliseValue(role, v)
    decreases v, 1
  {
    if role == SchemaMap && v.Obj? {
      EachTwice(v.members);
    } else if role == SchemaValue {
      NormaliseTwice(v);
    } else if role == SchemaArray && v.Arr? {
      ItemsTwice(v.items);
    }
  }

  lemma {:induction false} MembersTwice(ms: seq<Entry<Json>>)
    ensures NormaliseMembers(NormaliseMembers(ms)) == NormaliseMembers(ms)
  {
    if ms != [] {
      MembersTwice(ms[1..]);
      ValueTwice(RoleOf(ms[0].key), ms[0].value);
    }
  }

  lemma {:induction false} EachTwice(ms: seq<Entry<Json>>)
    ensures NormaliseEach(NormaliseEach(ms)) == NormaliseEach(ms)
  {
    if ms != [] {
      EachTwice(ms[1..]);
      NormaliseTwice(ms[0].value);
    }
  }

  lemma {:induction false} ItemsTwice(items: seq<Json>)
    ensures NormaliseItems(NormaliseItems(items)) == NormaliseItems(items)
  {
    if items != [] {
      ItemsTwice(items[1..]);
      NormaliseTwice(items[0]);
    }
  }

  // ---- Names with a dollar --------------------------------------------------------------------------

  /** Some object in v, at whatever depth, has a member of this name. */
  ghost predicate Occurs(k: Text, v: Json)
  {
    match v
    case Arr(items) => exists i :: 0 <= i < |items| && Occurs(k, items[i])
    case Obj(ms) => exists i :: 0 <= i < |ms| && (ms[i].key == k || Occurs(k, ms[i].value))
    case _ => false
  }

  /** A schema is refused for a dollar exactly if a name that starts with one, other than $comment, occurs in it. */
  lemma DollarExactlyIf(v: Json)
    ensures HasDollar(v) <==> exists k: Text :: Occurs(k, v) && k != [] && k[0] == '$' as int && k != T("$comment")
  {
    if HasDollar(v) {
      var k := DollarIn(v);
    }
    forall k: Text | Occurs(k, v) && k != [] && k[0] == '$' as int && k != T("$comment") ensures HasDollar(v) {
      DollarFound(k, v);
    }
  }

  lemma {:induction false} DollarIn(v: Json) returns (k: Text)
    requires HasDollar(v)
    ensures Occurs(k, v) && k != [] && k[0] == '$' as int && k != T("$comment")
  {
    if v.Arr? {
      var i :| 0 <= i < |v.items| && HasDollar(v.items[i]);
      k := DollarIn(v.items[i]);
    } else {
      var i :| 0 <= i < |v.members| && (IsDollar(v.members[i].key) || HasDollar(v.members[i].value));
      if IsDollar(v.members[i].key) {
        k := v.members[i].key;
      } else {
        k := DollarIn(v.members[i].value);
      }
    }
  }

  lemma {:induction false} DollarFound(k: Text, v: Json)
    requires Occurs(k, v) && k != [] && k[0] == '$' as int && k != T("$comment")
    ensures HasDollar(v)
  {
    if v.Arr? {
      var i :| 0 <= i < |v.items| && Occurs(k, v.items[i]);
      DollarFound(k, v.items[i]);
    } else {
      var i :| 0 <= i < |v.members| && (v.members[i].key == k || Occurs(k, v.members[i].value));
      if v.members[i].key != k {
        DollarFound(k, v.members[i].value);
      }
    }
  }

  // ---- Why two schemas cannot be matched ------------------------------------------------------------

  /** An object with a member `properties` that is an object. */
  ghost predicate HasPropertyMap(s: Option<Json>)
  {
    s.Some? && s.value.Obj? &&
    exists i :: 0 <= i < |s.value.members| && s.value.members[i].key == T("properties") && s.value.members[i].value.Obj?
  }

  ghost predicate UsesDollar(v: Json)
  {
    exists k: Text :: Occurs(k, v) && k != [] && k[0] == '$' as int && k != T("$comment")
  }

  lemma PropertiesExactlyIf(s: Option<Json>)
    requires ProperSide(s)
    ensures HasProperties(s) <==> HasPropertyMap(s)
  {
    if s.Some? && s.value.Obj? {
      var ms := s.value.members;
      var i := KeyIndex(ms, T("properties"));
      if HasPropertyMap(s) {
        var j :| 0 <= j < |ms| && ms[j].key == T("properties") && ms[j].value.Obj?;
        assert i == j;
      }
    }
  }

  lemma HasTextExactlyIf(s: Json)
    requires Proper(s)
    ensures Proper(Normalise(s)) && (CanonicalSchema(s).Some? <==> Computable(Normalise(s)))
  {
    NormalisedIsProper(s);
    JcsPrintsCanon(Normalise(s));
  }

  lemma DifferExactlyIf(q: Option<Json>, c: Option<Json>)
    requires ProperSide(q) && ProperSide(c) && Comparable(q) && Comparable(c)
    ensures SideProblem(q, c) == if SameSchema(q, c) then None else Some(Differs)
  {
    SidePasses(q, c);
  }

  /** Which problem is reported for one side: the first of these that there is. */
  lemma ProblemIs(q: Option<Json>, c: Option<Json>)
    requires ProperSide(q) && ProperSide(c)
    ensures HasPropertyMap(q) ==> Proper(Normalise(q.value))
    ensures HasPropertyMap(c) ==> Proper(Normalise(c.value))
    ensures SideProblem(q, c) ==
            if !HasPropertyMap(q) then Some(QueryWithoutProperties)
            else if !HasPropertyMap(c) then Some(CandidateWithoutProperties)
            else if UsesDollar(q.value) || UsesDollar(c.value) then Some(DollarKeyword)
            else if !Computable(Normalise(q.value)) || !Computable(Normalise(c.value)) then Some(NoCanonicalForm)
            else if !SameSchema(q, c) then Some(Differs)
            else None
  {
    PropertiesExactlyIf(q);
    PropertiesExactlyIf(c);
    if HasPropertyMap(q) && HasPropertyMap(c) {
      DollarExactlyIf(q.value);
      DollarExactlyIf(c.value);
      HasTextExactlyIf(q.value);
      HasTextExactlyIf(c.value);
      if Comparable(q) && Comparable(c) {
        DifferExactlyIf(q, c);
      }
    } else if HasPropertyMap(q) {
      NormalisedIsProper(q.value);
    } else if HasPropertyMap(c) {
      NormalisedIsProper(c.value);
    }
  }
}
