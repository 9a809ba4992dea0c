/** The failover agent of examples/api-apocalypse/rotifer-agent.ts. */
module Failover {
  import opened Common

  const FITNESS_INITIAL := 0.5
  const FITNESS_REWARD := 0.05
  const FITNESS_PENALTY := 0.15
  const FITNESS_FLOOR := 0.0
  const FITNESS_CEILING := 1.0

  /**
   * A registered gene. The number of its registration stands for the object itself; what its
   * `express` does in a turn is a parameter of the turn.
   */
  datatype Gene = Gene(id: nat, name: string, fitness: real, successes: nat, failures: nat)

  type Pool = seq<Gene>

  datatype SourceResult =
    | FetchError
    | ParseError(geneUsed: string)
    | Success(temperature: real, geneUsed: string, switchedFrom: Option<string>)

  /** What each gene answers in a turn: a temperature, or None when `express` throws. */
  type Outcomes = nat -> Option<real>

  /** No gene stands in the pool twice; names may. */
  predicate Distinct(pool: Pool)
  {
    forall i, j :: 0 <= i < j < |pool| ==> pool[i].id != pool[j].id
  }

  predicate HasId(pool: Pool, id: nat)
  {
    exists i :: 0 <= i < |pool| && pool[i].id == id
  }

  predicate Bounded(pool: Pool)
  {
    forall i :: 0 <= i < |pool| ==> FITNESS_FLOOR <= pool[i].fitness <= FITNESS_CEILING
  }

  predicate Named(pool: Pool, name: string)
  {
    exists i :: 0 <= i < |pool| && pool[i].name == name
  }

  /** `updateFitness`. */
  function Scored(g: Gene, success: bool): (r: Gene)
    ensures FITNESS_FLOOR <= g.fitness <= FITNESS_CEILING ==> FITNESS_FLOOR <= r.fitness <= FITNESS_CEILING
    ensures r.name == g.name && r.id == g.id
    ensures (r.successes, r.failures)
         == if success then (g.successes + 1, g.failures) else (g.successes, g.failures + 1)
  {
    if success then
      var f := g.fitness + FITNESS_REWARD;
      g.(fitness := if f < FITNESS_CEILING then f else FITNESS_CEILING, successes := g.successes + 1)
    else
      var f := g.fitness - FITNESS_PENALTY;
      g.(fitness := if f > FITNESS_FLOOR then f else FITNESS_FLOOR, failures := g.failures + 1)
  }

  /** `updateFitness` of one gene, wherever it stands in the pool. */
  function ScoreIn(pool: Pool, id: nat, success: bool): (r: Pool)
    ensures |r| == |pool|
    ensures forall i :: 0 <= i < |pool| ==> r[i].name == pool[i].name && r[i].id == pool[i].id
  {
    seq(|pool|, i requires 0 <= i < |pool| =>
      if pool[i].id == id then Scored(pool[i], success) else pool[i])
  }

  // ---- Ranking a pool -----------------------------------------------------------

  /** Gene a of the pool is tried before gene b: higher fitness, or an earlier place at equal fitness. */
  predicate Better(pool: Pool, a: nat, b: nat)
    requires a < |pool| && b < |pool|
  {
    pool[a].fitness > pool[b].fitness || (pool[a].fitness == pool[b].fitness && a < b)
  }

  /** Different places in the pool, best gene first. */
  predicate Ranked(pool: Pool, places: seq<nat>)
  {
    && (forall i :: 0 <= i < |places| ==> places[i] < |pool|)
    && (forall i, j :: 0 <= i < j < |places| ==> Better(pool, places[i], places[j]))
  }

  /** `places` with n, the latest place so far, put behind all that are no worse. */
  function Insert(pool: Pool, places: seq<nat>, n: nat): (r: seq<nat>)
    requires n < |pool| && Ranked(pool, places) && forall k: nat :: k in places ==> k < n
    ensures Ranked(pool, r) && |r| == |places| + 1
    ensures forall k: nat :: k in r <==> k in places || k == n
  {
    if places == [] then [n]
    else if pool[places[0]].fitness >= pool[n].fitness then
      assert places[0] in places;
      assert forall k: nat :: k in places[1..] ==> k in places;
      var rest := Insert(pool, places[1..], n);
      assert forall j :: 0 <= j < |rest| ==> rest[j] in rest;
      [places[0]] + rest
    else [n] + places
  }

  /** The first n places as Array.prototype.sort with `(a, b) => b.fitness - a.fitness` orders them. */
  function Ranking(pool: Pool, n: nat): (r: seq<nat>)
    requires n <= |pool|
    ensures Ranked(pool, r) && |r| == n && forall k: nat :: k in r <==> k < n
  {
    if n == 0 then [] else Insert(pool, Ranking(pool, n - 1), n - 1)
  }

  /** `.filter((g) => g.name !== activeName)`. */
  function Without(pool: Pool, places: seq<nat>, name: string): (r: seq<nat>)
    requires Ranked(pool, places)
    ensures Ranked(pool, r) && forall k: nat :: k in r <==> k in places && k < |pool| && pool[k].name != name
  {
    if places == [] then []
    else
      var rest := Without(pool, places[1..], name);
      assert forall k: nat :: k in rest ==> k in places[1..];
      assert forall i :: 0 <= i < |rest| ==> rest[i] in rest;
      if pool[places[0]].name == name then rest else [places[0]] + rest
  }

  /** `order` lists every place of a pool of n genes once. */
  ghost predicate IsOrder(order: seq<nat>, n: nat)
  {
    && |order| == n
    && (forall i :: 0 <= i < n ==> order[i] < n)
    && (forall i, j :: 0 <= i < j < n ==> order[i] != order[j])
    && (forall x: nat :: x < n ==> x in order)
  }

  // ---- The others, once the active gene has failed -----------------------------------

  /** Gene x of the pool after the calls to the genes at `tried`. */
  function Effect(pool: Pool, tried: seq<nat>, outcomes: Outcomes, x: nat): Gene
    requires x < |pool|
  {
    if x in tried then Scored(pool[x], outcomes(pool[x].id).Some?) else pool[x]
  }

  /** The pool afterwards: the same genes in some order, each with the effect of its call, if any. */
  ghost predicate Applied(before: Pool, after: Pool, order: seq<nat>, tried: seq<nat>, outcomes: Outcomes)
  {
    && |after| == |before| && IsOrder(order, |before|)
    && forall i :: 0 <= i < |after| ==> after[i] == Effect(before, tried, outcomes, order[i])
  }

  /** None was called, or the last one called threw. */
  predicate NoneAnswered(pool: Pool, tried: seq<nat>, outcomes: Outcomes)
    requires tried != [] ==> tried[|tried| - 1] < |pool|
  {
    tried == [] || outcomes(pool[tried[|tried| - 1]].id).None?
  }

  /** Which genes of other names were called, in which order, and why no other was. */
  ghost predicate TriedInOrder(pool: Pool, name: string, tried: seq<nat>, outcomes: Outcomes)
  {
    && Ranked(pool, tried)
    && (forall i :: 0 <= i < |tried| ==> pool[tried[i]].name != name)
    && (forall i :: 0 <= i < |tried| - 1 ==> outcomes(pool[tried[i]].id).None?)
    && (forall i, x: nat :: 0 <= i < |tried| && x < |pool| && pool[x].name != name && x !in tried
                        ==> Better(pool, tried[i], x))
    && (NoneAnswered(pool, tried, outcomes) ==> forall x: nat :: x < |pool| && pool[x].name != name ==> x in tried)
  }

  /** What is reported for the domain, and which name is active afterwards. */
  function Verdict(pool: Pool, name: string, tried: seq<nat>, outcomes: Outcomes): (SourceResult, string)
    requires tried != [] ==> tried[|tried| - 1] < |pool|
  {
    if NoneAnswered(pool, tried, outcomes) then (ParseError(name), name)
    else
      var last := pool[tried[|tried| - 1]];
      (Success(outcomes(last.id).value, last.name, Some(name)), last.name)
  }

  /** The call of one gene and `updateFitness`, on a pool that stands in `order`. */
  lemma OneCall(before: Pool, after: Pool, order: seq<nat>, tried: seq<nat>, outcomes: Outcomes, x: nat)
    requires Distinct(before) && Applied(before, after, order, tried, outcomes)
    requires x < |before| && x !in tried
    ensures var id := before[x].id;
            Applied(before, ScoreIn(after, id, outcomes(id).Some?), order, tried + [x], outcomes)
  {
    var id := before[x].id;
    forall i | 0 <= i < |after| ensures order[i] == x <==> after[i].id == id {
      assert after[i].id == before[order[i]].id;
    }
  }

  lemma ReadsRanking(pool: Pool, order: seq<nat>)
    requires Ranked(pool, order) && |order| == |pool| && forall x: nat :: x < |pool| ==> x in order
    ensures IsOrder(order, |pool|)
  {
  }

  /** The failover succeeds exactly if some gene of another name answers. */
  lemma Recovers(pool: Pool, name: string, tried: seq<nat>, outcomes: Outcomes)
    requires TriedInOrder(pool, name, tried, outcomes)
    ensures Verdict(pool, name, tried, outcomes).0.Success?
       <==> exists x: nat :: x < |pool| && pool[x].name != name && outcomes(pool[x].id).Some?
  {
    if NoneAnswered(pool, tried, outcomes) {
      assert forall i :: 0 <= i < |tried| ==> outcomes(pool[tried[i]].id).None?;
      forall x: nat | x < |pool| && pool[x].name != name ensures outcomes(pool[x].id).None? {
        assert x in tried;
      }
    }
  }

  /** `find((g) => g.name === name)`. */
  function PlaceOf(pool: Pool, name: string): (k: nat)
    requires Named(pool, name)
    ensures k < |pool| && pool[k].name == name
  {
    if pool[0].name == name then 0 else
      var i :| 0 <= i < |pool| && pool[i].name == name;
      assert pool[1..][i - 1].name == name;
      1 + PlaceOf(pool[1..], name)
  }

  /** `getGenesByDomain`: the pool sorted by fitness. */
  function Resort(pool: Pool): (r: (Pool, seq<nat>))
    ensures |r.0| == |r.1| == |pool| && Ranked(pool, r.1)
    ensures forall k: nat :: k in r.1 <==> k < |pool|
    ensures forall i :: 0 <= i < |pool| ==> r.0[i] == pool[r.1[i]]
  {
    var places := Ranking(pool, |pool|);
    (seq(|pool|, i requires 0 <= i < |pool| => pool[places[i]]), places)
  }

  /** `getGenesByDomain(domain).filter(...)`: all genes of other names, best first. */
  function CandidatesOf(pool: Pool, name: string): (c: seq<nat>)
    ensures Ranked(pool, c) && forall k: nat :: k in c <==> k < |pool| && pool[k].name != name
  {
    Without(pool, Resort(pool).1, name)
  }

  /** After the first k candidates failed, candidate k is the next to be tried. */
  lemma TriedSoFar(pool: Pool, name: string, candidates: seq<nat>, k: nat, outcomes: Outcomes)
    requires Ranked(pool, candidates) && k <= |candidates|
    requires forall x: nat :: x in candidates <==> x < |pool| && pool[x].name != name
    requires forall i :: 0 <= i < k - 1 ==> outcomes(pool[candidates[i]].id).None?
    requires k == |candidates| || (k > 0 && outcomes(pool[candidates[k - 1]].id).Some?)
    ensures TriedInOrder(pool, name, candidates[..k], outcomes)
  {
    FirstAreBest(pool, name, candidates, k);
    if k == |candidates| {
      assert candidates[..k] == candidates;
    }
  }

  /** The candidates tried rank above all those that were not. */
  lemma FirstAreBest(pool: Pool, name: string, candidates: seq<nat>, k: nat)
    requires Ranked(pool, candidates) && k <= |candidates|
    requires forall x: nat :: x in candidates <==> x < |pool| && pool[x].name != name
    ensures Ranked(pool, candidates[..k]) && forall i :: 0 <= i < k ==> pool[candidates[i]].name != name
    ensures forall i, x: nat :: 0 <= i < k && x < |pool| && pool[x].name != name && x !in candidates[..k]
                            ==> Better(pool, candidates[i], x)
  {
    forall i | 0 <= i < k ensures pool[candidates[i]].name != name {
      assert candidates[i] in candidates;
    }
    forall i, x: nat | 0 <= i < k && x < |pool| && pool[x].name != name && x !in candidates[..k]
      ensures Better(pool, candidates[i], x)
    {
      assert x in candidates;
      var j :| 0 <= j < |candidates| && candidates[j] == x;
      assert j >= k;
    }
  }

  /** What the catch branch does from a pool: sort it by fitness, then call the others until one answers. */
  ghost predicate Recovery(pool: Pool, name: string, after: Pool, newActive: string, result: SourceResult,
                           order: seq<nat>, tried: seq<nat>, outcomes: Outcomes)
  {
    && Applied(pool, after, order, tried, outcomes) && Ranked(pool, order)
    && TriedInOrder(pool, name, tried, outcomes)
    && (result, newActive) == Verdict(pool, name, tried, outcomes)
    && (newActive == name || Named(pool, newActive))
  }

  /** Candidate k is called after those before it. */
  lemma NextCall(pool: Pool, after: Pool, order: seq<nat>, candidates: seq<nat>, k: nat, outcomes: Outcomes)
    requires Distinct(pool) && Ranked(pool, candidates) && k < |candidates|
    requires Applied(pool, after, order, candidates[..k], outcomes)
    ensures var id := pool[candidates[k]].id;
            Applied(pool, ScoreIn(after, id, outcomes(id).Some?), order, candidates[..k + 1], outcomes)
  {
    assert candidates[..k + 1] == candidates[..k] + [candidates[k]];
    OneCall(pool, after, order, candidates[..k], outcomes, candidates[k]);
  }

  /** Candidate k answered, or there was none left. */
  lemma Recovered(pool: Pool, name: string, after: Pool, order: seq<nat>, candidates: seq<nat>, k: nat,
                  outcomes: Outcomes)
    requires candidates == CandidatesOf(pool, name) && k <= |candidates|
    requires forall i :: 0 <= i < k - 1 ==> outcomes(pool[candidates[i]].id).None?
    requires if k > 0 && outcomes(pool[candidates[k - 1]].id).Some? then true else k == |candidates|
    requires Applied(pool, after, order, candidates[..k], outcomes) && Ranked(pool, order)
    ensures Ranked(pool, candidates[..k])
    ensures var v := Verdict(pool, name, candidates[..k], outcomes);
            Recovery(pool, name, after, v.1, v.0, order, candidates[..k], outcomes)
  {
    TriedSoFar(pool, name, candidates, k, outcomes);
  }

  /** The call of candidate k, after those before it threw. */
  method CallNext(pool: Pool, name: string, before: Pool, ghost order: seq<nat>, candidates: seq<nat>, k: nat,
                  outcomes: Outcomes)
    returns (after: Pool, answer: Option<real>)
    requires Distinct(pool) && candidates == CandidatesOf(pool, name) && k < |candidates|
    requires Applied(pool, before, order, candidates[..k], outcomes)
    ensures answer == outcomes(pool[candidates[k]].id)
    ensures Applied(pool, after, order, candidates[..k + 1], outcomes)
  {
    var c := pool[candidates[k]];
    NextCall(pool, before, order, candidates, k, outcomes);
    answer := outcomes(c.id);
    after := ScoreIn(before, c.id, answer.Some?);
  }

  /** The catch branch, once the active gene is penalised: re-sort, and try the others one by one. */
  method FailOver(pool: Pool, name: string, outcomes: Outcomes)
    returns (after: Pool, newActive: string, result: SourceResult, ghost order: seq<nat>, ghost tried: seq<nat>)
    requires Distinct(pool)
    ensures Recovery(pool, name, after, newActive, result, order, tried, outcomes)
  {
    var sorted := Resort(pool);
    var candidates := CandidatesOf(pool, name);
    after, order := sorted.0, sorted.1;
    ReadsRanking(pool, order);
    for k := 0 to |candidates|
      invariant Applied(pool, after, order, candidates[..k], outcomes)
      invariant forall i :: 0 <= i < k ==> outcomes(pool[candidates[i]].id).None?
    {
      var answer;
      after, answer := CallNext(pool, name, after, order, candidates, k, outcomes);
      if answer.Some? {
        Recovered(pool, name, after, order, candidates, k + 1, outcomes);
        var c := pool[candidates[k]].name;
        return after, c, Success(answer.value, c, Some(name)), order, candidates[..k + 1];
      }
    }
    Recovered(pool, name, after, order, candidates, |candidates|, outcomes);
    newActive, result, tried := name, ParseError(name), candidates[..|candidates|];
  }
}
