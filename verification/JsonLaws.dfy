/** Canonical text is the same exactly for the same JSON value. */
module JsonLaws {
  import opened Common
  import opened Numbers
  import opened JsonText
  import opened Json
  import opened JsonReader

  /** Equality of JSON values: numbers by amount, objects by their members in any order. */
  ghost predicate Same(v: Json, w: Json)
    decreases v
  {
    match v
    case Num(x) => w.Num? && (if Finite(x) && Finite(w.x) then Amount(x) == Amount(w.x) else x == w.x)
    case Arr(items) => w.Arr? && |items| == |w.items| && forall i :: 0 <= i < |items| ==> Same(items[i], w.items[i])
    case Obj(ms) =>
      && w.Obj?
      && (forall i :: 0 <= i < |ms| ==>
            var j := KeyIndex(w.members, ms[i].key);
            j < |w.members| && Same(ms[i].value, w.members[j].value))
      && (forall j :: 0 <= j < |w.members| ==> KeyIndex(ms, w.members[j].key) < |ms|)
    case _ => v == w
  }

  ghost predicate SameMember(m: Entry<Json>, n: Entry<Json>)
  {
    m.key == n.key && Same(m.value, n.value)
  }

  // ---- Sorting ----------------------------------------------------------------------

  ghost predicate Sorted(ms: seq<Entry<Json>>)
  {
    forall i, j :: 0 <= i < j < |ms| ==> KeyLess(ms[i].key, ms[j].key)
  }

  lemma {:induction false} InsertContains(e: Entry<Json>, ms: seq<Entry<Json>>, x: Entry<Json>)
    ensures x in InsertEntry(e, ms) <==> x == e || x in ms
  {
    if !(ms == [] || !KeyLess(ms[0].key, e.key)) {
      InsertContains(e, ms[1..], x);
      assert ms == [ms[0]] + ms[1..];
    }
  }

  lemma {:induction false} SortContains(ms: seq<Entry<Json>>, x: Entry<Json>)
    ensures x in SortEntries(ms) <==> x in ms
  {
    if ms != [] {
      SortContains(ms[1..], x);
      InsertContains(ms[0], SortEntries(ms[1..]), x);
      assert ms == [ms[0]] + ms[1..];
    }
  }

  ghost predicate NewKey(e: Entry<Json>, ms: seq<Entry<Json>>)
  {
    WellFormed(e.key) && forall x :: x in ms ==> WellFormed(x.key) && x.key != e.key
  }

  ghost predicate AllAbove(k: Text, ms: seq<Entry<Json>>)
  {
    forall x :: x in ms ==> KeyLess(k, x.key)
  }

  lemma SortedFront(e: Entry<Json>, ms: seq<Entry<Json>>)
    requires AllAbove(e.key, ms) && Sorted(ms)
    ensures Sorted([e] + ms)
  {
    var s := [e] + ms;
    forall i, j | 0 <= i < j < |s| ensures KeyLess(s[i].key, s[j].key) {
      assert s[j] == ms[j - 1] && ms[j - 1] in ms;
      if i > 0 {
        assert s[i] == ms[i - 1];
      }
    }
  }

  lemma SortedTail(e: Entry<Json>, ms: seq<Entry<Json>>)
    requires Sorted([e] + ms)
    ensures AllAbove(e.key, ms) && Sorted(ms)
  {
    var s := [e] + ms;
    forall x | x in ms ensures KeyLess(e.key, x.key) {
      var j :| 0 <= j < |ms| && ms[j] == x;
      assert s[j + 1] == x && s[0] == e;
    }
    forall i, j | 0 <= i < j < |ms| ensures KeyLess(ms[i].key, ms[j].key) {
      assert s[i + 1] == ms[i] && s[j + 1] == ms[j];
    }
  }

  lemma SortedCons(e: Entry<Json>, ms: seq<Entry<Json>>)
    ensures Sorted([e] + ms) <==> AllAbove(e.key, ms) && Sorted(ms)
  {
    if AllAbove(e.key, ms) && Sorted(ms) {
      SortedFront(e, ms);
    }
    if Sorted([e] + ms) {
      SortedTail(e, ms);
    }
  }

  lemma {:induction false} InsertSorted(e: Entry<Json>, ms: seq<Entry<Json>>)
    requires Sorted(ms) && NewKey(e, ms)
    ensures Sorted(InsertEntry(e, ms))
  {
    if ms == [] {
    } else if !KeyLess(ms[0].key, e.key) {
      assert ms == [ms[0]] + ms[1..];
      SortedCons(ms[0], ms[1..]);
      KeysTotal(e.key, ms[0].key);
      forall x | x in ms ensures KeyLess(e.key, x.key) {
        if x != ms[0] {
          assert x in ms[1..];
          LexTransitive(Utf16(e.key), Utf16(ms[0].key), Utf16(x.key));
        }
      }
      SortedCons(e, ms);
    } else {
      assert ms == [ms[0]] + ms[1..];
      SortedCons(ms[0], ms[1..]);
      InsertSorted(e, ms[1..]);
      forall x | x in InsertEntry(e, ms[1..]) ensures KeyLess(ms[0].key, x.key) {
        InsertContains(e, ms[1..], x);
      }
      SortedCons(ms[0], InsertEntry(e, ms[1..]));
    }
  }

  lemma {:induction false} SortSorts(ms: seq<Entry<Json>>)
    requires DistinctKeys(ms) && WellFormedKeys(ms)
    ensures Sorted(SortEntries(ms))
  {
    if ms != [] {
      var rest := ms[1..];
      assert DistinctKeys(rest) && WellFormedKeys(rest);
      SortSorts(rest);
      forall x | x in SortEntries(rest) ensures WellFormed(x.key) && x.key != ms[0].key {
        SortContains(rest, x);
        var j :| 0 <= j < |rest| && rest[j] == x;
        assert ms[j + 1] == x;
      }
      InsertSorted(ms[0], SortEntries(rest));
    }
  }

  ghost predicate SameEntries(ms: seq<Entry<Json>>, ns: seq<Entry<Json>>)
  {
    forall x :: x in ms <==> x in ns
  }

  lemma NotBelowItself(e: Entry<Json>, ms: seq<Entry<Json>>)
    requires AllAbove(e.key, ms)
    ensures e !in ms
  {
    if e in ms {
      LexIrreflexive(Utf16(e.key));
      assert false;
    }
  }

  /** The first of two sorted lists with the same entries is the same. */
  lemma SameFirst(e: Entry<Json>, ms: seq<Entry<Json>>, d: Entry<Json>, ns: seq<Entry<Json>>)
    requires AllAbove(e.key, ms) && AllAbove(d.key, ns) && SameEntries([e] + ms, [d] + ns)
    ensures e == d && SameEntries(ms, ns)
  {
    assert e in [e] + ms && d in [d] + ns;
    if e != d {
      assert e in ns && d in ms;
      LexTransitive(Utf16(e.key), Utf16(d.key), Utf16(e.key));
      LexIrreflexive(Utf16(e.key));
      assert false;
    }
    NotBelowItself(e, ms);
    NotBelowItself(d, ns);
    forall x ensures x in ms <==> x in ns {
      assert x in [e] + ms <==> x in [d] + ns;
    }
  }

  lemma HasFirst(ms: seq<Entry<Json>>)
    ensures ms == [] <==> forall x :: x !in ms
  {
    if ms != [] {
      assert ms[0] in ms;
    }
  }

  lemma {:induction false} SortedUnique(ms: seq<Entry<Json>>, ns: seq<Entry<Json>>)
    requires Sorted(ms) && Sorted(ns) && SameEntries(ms, ns)
    ensures ms == ns
  {
    HasFirst(ms);
    HasFirst(ns);
    if ms != [] {
      assert ms == [ms[0]] + ms[1..] && ns == [ns[0]] + ns[1..];
      SortedCons(ms[0], ms[1..]);
      SortedCons(ns[0], ns[1..]);
      SameFirst(ms[0], ms[1..], ns[0], ns[1..]);
      SortedUnique(ms[1..], ns[1..]);
    }
  }

  /** Sorting forgets the order and nothing else. */
  lemma SortForgetsOrder(ms: seq<Entry<Json>>, ns: seq<Entry<Json>>)
    requires DistinctKeys(ms) && WellFormedKeys(ms) && DistinctKeys(ns) && WellFormedKeys(ns)
    ensures SortEntries(ms) == SortEntries(ns) <==> SameEntries(ms, ns)
  {
    SortSorts(ms);
    SortSorts(ns);
    forall x ensures (x in ms <==> x in SortEntries(ms)) && (x in ns <==> x in SortEntries(ns)) {
      SortContains(ms, x);
      SortContains(ns, x);
    }
    if SameEntries(ms, ns) {
      forall x ensures x in SortEntries(ms) <==> x in SortEntries(ns) {
        assert x in ms <==> x in ns;
      }
      SortedUnique(SortEntries(ms), SortEntries(ns));
    }
  }

  // ---- Same value, same canonical form ------------------------------------------------

  lemma {:induction false} SameIsSameCanon(v: Json, w: Json)
    requires Proper(v) && Proper(w) && Computable(v) && Computable(w)
    ensures Same(v, w) <==> Canon(v) == Canon(w)
    decreases v, 1
  {
    match v
    case Num(x) =>
      if w.Num? {
        SameNormal(x, w.x);
      }
    case Arr(items) =>
      if w.Arr? && |items| == |w.items| {
        forall i | 0 <= i < |items| ensures Same(items[i], w.items[i]) <==> Canon(items[i]) == Canon(w.items[i]) {
          SameIsSameCanon(items[i], w.items[i]);
        }
        SameItems(items, w.items);
      } else if w.Arr? {
        assert |CanonItems(items)| != |CanonItems(w.items)|;
      }
    case Obj(ms) =>
      if w.Obj? {
        SameObjects(v, w);
      }
    case _ =>
  }

  lemma SameItems(items: seq<Json>, others: seq<Json>)
    requires |items| == |others|
    ensures CanonItems(items) == CanonItems(others)
         <==> forall i :: 0 <= i < |items| ==> Canon(items[i]) == Canon(others[i])
  {
    if CanonItems(items) == CanonItems(others) {
      forall i | 0 <= i < |items| ensures Canon(items[i]) == Canon(others[i]) {
        assert CanonItems(items)[i] == CanonItems(others)[i];
      }
    }
  }

  lemma {:induction false} SameObjects(v: Json, w: Json)
    requires v.Obj? && w.Obj? && Proper(v) && Proper(w) && Computable(v) && Computable(w)
    ensures Same(v, w) <==> Canon(v) == Canon(w)
    decreases v, 0
  {
    var a, b := CanonMembers(v.members), CanonMembers(w.members);
    SortForgetsOrder(a, b);
    forall i, j | 0 <= i < |a| && 0 <= j < |b| ensures SameMember(v.members[i], w.members[j]) <==> a[i] == b[j] {
      SameIsSameCanon(v.members[i].value, w.members[j].value);
    }
    if Same(v, w) {
      forall x ensures x in a <==> x in b {
        SameGivesEntries(v, w, a, b, x);
      }
    }
    if SameEntries(a, b) {
      EntriesGiveSame(v, w, a, b);
    }
  }

  /** The members of two objects match exactly where the canonical ones are equal. */
  ghost predicate Matching(v: Json, w: Json, a: seq<Entry<Json>>, b: seq<Entry<Json>>)
    requires v.Obj? && w.Obj?
  {
    && |a| == |v.members| && |b| == |w.members|
    && forall i, j :: 0 <= i < |a| && 0 <= j < |b| ==> (SameMember(v.members[i], w.members[j]) <==> a[i] == b[j])
  }

  lemma {:induction false} EntriesGiveSame(v: Json, w: Json, a: seq<Entry<Json>>, b: seq<Entry<Json>>)
    requires v.Obj? && w.Obj? && Matching(v, w, a, b) && SameEntries(a, b) && Proper(w)
    ensures Same(v, w)
  {
    var ms, ns := v.members, w.members;
    forall i | 0 <= i < |ms|
      ensures var j := KeyIndex(ns, ms[i].key); j < |ns| && Same(ms[i].value, ns[j].value)
    {
      assert a[i] in b;
      var j :| 0 <= j < |b| && b[j] == a[i];
      assert SameMember(ms[i], ns[j]);
      assert KeyIndex(ns, ms[i].key) == j;
    }
    forall j | 0 <= j < |ns| ensures KeyIndex(ms, ns[j].key) < |ms| {
      assert b[j] in a;
      var i :| 0 <= i < |a| && a[i] == b[j];
      assert SameMember(ms[i], ns[j]);
    }
  }

  lemma {:induction false} MatchOf(v: Json, w: Json, i: nat) returns (j: nat)
    requires v.Obj? && w.Obj? && Same(v, w) && i < |v.members|
    ensures j < |w.members| && SameMember(v.members[i], w.members[j])
  {
    j := KeyIndex(w.members, v.members[i].key);
  }

  lemma {:induction false} SameGivesEntries(v: Json, w: Json, a: seq<Entry<Json>>, b: seq<Entry<Json>>, x: Entry<Json>)
    requires v.Obj? && w.Obj? && Same(v, w) && Matching(v, w, a, b) && DistinctKeys(w.members)
    ensures x in a <==> x in b
  {
    if x in a {
      var i: nat :| i < |a| && a[i] == x;
      var j := MatchOf(v, w, i);
      assert b[j] == x;
    }
    if x in b {
      var j: nat :| j < |b| && b[j] == x;
      var i := KeyIndex(v.members, w.members[j].key);
      var j' := MatchOf(v, w, i);
      assert j' == j;
      assert a[i] == x;
    }
  }

  /** Canonical text is faithful: two values that have one have the same text exactly if they are the same value. */
  lemma TextIsFaithful(v: Json, w: Json)
    requires Proper(v) && Proper(w) && Jcs(v).Some? && Jcs(w).Some?
    ensures Jcs(v) == Jcs(w) <==> Same(v, w)
  {
    SameTextSameCanon(v, w);
    JcsPrintsCanon(v);
    JcsPrintsCanon(w);
    SameIsSameCanon(v, w);
  }
}
