/**
 * Options, bytes, how often a list holds a number, and the lexicographic order on sequences of
 * numbers that records and sorted keys are compared with.
 */
module Common {

  datatype Option<+T> = None | Some(value: T)

  type byte = n: int | 0 <= n < 256

  /** How often x stands in s. */
  function CountIn(s: seq<nat>, x: nat): nat
  {
    if s == [] then 0 else CountIn(s[..|s| - 1], x) + if s[|s| - 1] == x then 1 else 0
  }

  lemma CountInSnoc(s: seq<nat>, y: nat, x: nat)
    ensures CountIn(s + [y], x) == CountIn(s, x) + if x == y then 1 else 0
  {
    assert (s + [y])[..|s|] == s;
  }

  lemma Regroup<T>(a: seq<T>, b: seq<T>, c: seq<T>)
    ensures a + (b + c) == (a + b) + c
  {
  }

  /** Python's `<` on byte strings, and the order of a sort on encoded keys. */
  predicate LexLess(a: seq<int>, b: seq<int>)
  {
    if b == [] then false
    else if a == [] then true
    else a[0] < b[0] || (a[0] == b[0] && LexLess(a[1..], b[1..]))
  }

  lemma {:induction false} LexIrreflexive(a: seq<int>)
    ensures !LexLess(a, a)
  {
    if a != [] {
      LexIrreflexive(a[1..]);
    }
  }

  lemma {:induction false} LexTransitive(a: seq<int>, b: seq<int>, c: seq<int>)
    requires LexLess(a, b) && LexLess(b, c)
    ensures LexLess(a, c)
  {
    if a != [] && a[0] == b[0] == c[0] {
      LexTransitive(a[1..], b[1..], c[1..]);
    }
  }

  lemma {:induction false} LexTotal(a: seq<int>, b: seq<int>)
    ensures a == b || LexLess(a, b) || LexLess(b, a)
  {
    if a != [] && b != [] && a[0] == b[0] {
      LexTotal(a[1..], b[1..]);
      assert a == [a[0]] + a[1..] && b == [b[0]] + b[1..];
    }
  }

  /** Up to place k the two are the same, and there a ends or has the smaller entry. */
  ghost predicate DepartsAt(a: seq<int>, b: seq<int>, k: nat)
  {
    k <= |a| && k < |b| && a[..k] == b[..k] && (k == |a| || a[k] < b[k])
  }

  /** a is a proper prefix of b, or smaller at the first place where they differ. */
  ghost predicate ComesFirst(a: seq<int>, b: seq<int>)
  {
    exists k: nat :: DepartsAt(a, b, k)
  }

  lemma {:induction false} LexLessExactlyIf(a: seq<int>, b: seq<int>)
    ensures LexLess(a, b) <==> ComesFirst(a, b)
  {
    if a != [] && b != [] && a[0] == b[0] {
      LexLessExactlyIf(a[1..], b[1..]);
      if k: nat :| DepartsAt(a[1..], b[1..], k) {
        assert a[..k + 1] == [a[0]] + a[1..][..k] && b[..k + 1] == [b[0]] + b[1..][..k];
        assert DepartsAt(a, b, k + 1);
      }
      if k: nat :| DepartsAt(a, b, k) {
        assert a[1..][..k - 1] == a[..k][1..] && b[1..][..k - 1] == b[..k][1..];
        assert DepartsAt(a[1..], b[1..], k - 1);
      }
    } else {
      if LexLess(a, b) {
        assert DepartsAt(a, b, 0);
      }
      if k: nat :| DepartsAt(a, b, k) && k > 0 {
        assert a[..k][0] == b[..k][0];
      }
    }
  }
}
