/** Fitness and failover in numbers. */
module Fitness {
  import opened Common
  import opened Failover
  import opened Agent

  // ---- Fitness in one turn -----------------------------------------------------------

  /**
   * A gene that answers gains 0.05 but stops at 1, one that throws loses 0.15 but stops at 0, and one
   * that is not called keeps its fitness, in whichever pool it is.
   */
  lemma TurnFitness(domains: seq<string>, d: string, s: State, t: State, v: Visit, feed: Feed, n: nat, e: string,
                    id: nat)
    requires Visited(domains, d, s, t, v, feed) && Holds(s.pools, n, e, id) && Bounded(s.pools[e])
    ensures Holds(t.pools, n, e, id)
    ensures var f, f' := GeneOf(s.pools[e], id).fitness, GeneOf(t.pools[e], id).fitness;
            if !Called(d, s, v, feed, id) then f' == f
            else if feed.outcomes(d, id).Some? then
              f' == (if f + 0.05 > 1.0 then 1.0 else f + 0.05) && f <= f' && (f < 1.0 ==> f < f')
            else
              f' == (if f - 0.15 < 0.0 then 0.0 else f - 0.15) && f' <= f && (f > 0.0 ==> f' < f)
  {
    TurnGrows(domains, d, s, t, v, feed, n, e, id);
    var i := PlaceOfId(s.pools[e], id);
    assert 0.0 <= s.pools[e][i].fitness <= 1.0;
  }

  /** Of two genes of equal fitness the one that answered ends above the one that threw. */
  lemma AnsweredAboveFailed(domains: seq<string>, d: string, s: State, t: State, v: Visit, feed: Feed, n: nat,
                            e: string, id: nat, e': string, id': nat)
    requires Visited(domains, d, s, t, v, feed) && Holds(s.pools, n, e, id) && Holds(s.pools, n, e', id')
    requires Bounded(s.pools[e]) && Bounded(s.pools[e'])
    requires GeneOf(s.pools[e], id).fitness == GeneOf(s.pools[e'], id').fitness
    requires Called(d, s, v, feed, id) && feed.outcomes(d, id).Some?
    requires Called(d, s, v, feed, id') && feed.outcomes(d, id').None?
    ensures Holds(t.pools, n, e, id) && Holds(t.pools, n, e', id')
    ensures GeneOf(t.pools[e], id).fitness > GeneOf(t.pools[e'], id').fitness
  {
    TurnFitness(domains, d, s, t, v, feed, n, e, id);
    TurnFitness(domains, d, s, t, v, feed, n, e', id');
  }

  /** A fitter gene is tried first: if the other one is called at all, it has been called before it and threw. */
  lemma FitterIsTriedFirst(pool: Pool, name: string, tried: seq<nat>, outcomes: Outcomes, a: nat, j: nat)
    requires TriedInOrder(pool, name, tried, outcomes) && j < |tried|
    requires a < |pool| && pool[a].name != name && pool[a].fitness > pool[tried[j]].fitness
    ensures exists i :: 0 <= i < j && tried[i] == a && outcomes(pool[a].id).None?
  {
    assert !Better(pool, tried[j], a);
    assert a in tried;
    var i :| 0 <= i < |tried| && tried[i] == a;
    assert i != j && !(j < i);
    assert i < j && outcomes(pool[tried[i]].id).None?;
  }

  // ---- Fitness over a run ---------------------------------------------------------------

  /**
   * Over any run, with a answers and k failures, a gene's fitness is between its start less 0.15 k and its
   * start plus 0.05 a, is the start plus 0.05 a less 0.15 k where those bounds lie within [0, 1], and stays
   * in [0, 1].
   */
  lemma RunFitness(domains: seq<string>, start: State, runs: seq<Trace>, feeds: seq<Feed>, registered: nat, e: string,
                   id: nat, n: nat)
    requires IsRun(domains, start, runs, feeds) && n <= |runs|
    requires Holds(start.pools, registered, e, id) && Bounded(start.pools[e])
    ensures Holds(StateAfter(start, runs, n).pools, registered, e, id)
    ensures var f, f' := GeneOf(start.pools[e], id).fitness, GeneOf(StateAfter(start, runs, n).pools[e], id).fitness;
            var a := Calls(domains, runs, feeds, id, true, n) as real;
            var k := Calls(domains, runs, feeds, id, false, n) as real;
            && 0.0 <= f' <= 1.0 && f - 0.15 * k <= f' <= f + 0.05 * a
            && (f - 0.15 * k >= 0.0 && f + 0.05 * a <= 1.0 ==> f' == f + 0.05 * a - 0.15 * k)
  {
    RunCounts(domains, start, runs, feeds, registered, e, id, n);
    var after := StateAfter(start, runs, n).pools[e];
    var i := PlaceOfId(after, id);
    assert FITNESS_FLOOR <= after[i].fitness <= FITNESS_CEILING;
  }

  // ---- What a turn reports ------------------------------------------------------------------

  /** The gene at x answers, and every other one of another name than the active that answers is worse. */
  ghost predicate BestAnswering(pool: Pool, name: string, outcomes: Outcomes, x: nat)
  {
    && x < |pool| && pool[x].name != name && outcomes(pool[x].id).Some?
    && forall y: nat :: y < |pool| && y != x && pool[y].name != name && outcomes(pool[y].id).Some? ==>
         pool[y].fitness < pool[x].fitness || (pool[y].fitness == pool[x].fitness && x < y)
  }

  /** A failover reports the best gene of another name that answers, and makes it active. */
  lemma FailoverReports(pool: Pool, name: string, after: Pool, active: string, result: SourceResult, order: seq<nat>,
                        tried: seq<nat>, outcomes: Outcomes)
    requires Recovery(pool, name, after, active, result, order, tried, outcomes)
    ensures if forall x: nat :: x < |pool| && pool[x].name != name ==> outcomes(pool[x].id).None? then
              result == ParseError(name) && active == name
            else
              exists x: nat ::
                && BestAnswering(pool, name, outcomes, x)
                && result == Success(outcomes(pool[x].id).value, pool[x].name, Some(name)) && active == pool[x].name
  {
    Recovers(pool, name, tried, outcomes);
    if !NoneAnswered(pool, tried, outcomes) {
      var x := tried[|tried| - 1];
      forall y: nat | y < |pool| && y != x && pool[y].name != name && outcomes(pool[y].id).Some?
        ensures pool[y].fitness < pool[x].fitness || (pool[y].fitness == pool[x].fitness && x < y)
      {
        assert y !in tried;
        assert Better(pool, tried[|tried| - 1], y);
      }
      assert BestAnswering(pool, name, outcomes, x);
    }
  }

  /** The penalty of the gene found by name leaves those of other names as they were. */
  lemma OthersUntouched(pools: Pools, n: nat, h: string, p: nat, d: string, x: nat)
    requires Identified(pools, n) && h in pools && p < |pools[h]| && d in pools && x < |pools[d]|
    requires pools[d][x].name != pools[h][p].name
    ensures Credit(pools, h, p, false)[d][x] == pools[d][x]
  {
    assert HasId(pools[h], pools[h][p].id) && HasId(pools[d], pools[d][x].id);
  }

  /** What the domain shows after its turn, and which gene is active. */
  ghost predicate Reports(d: string, s: State, t: State, result: SourceResult, g: Gene, outcomes: Outcomes)
    requires d in s.pools && d in s.active
  {
    var pool, name := s.pools[d], s.active[d];
    if outcomes(g.id).Some? then
      result == Success(outcomes(g.id).value, name, None) && t.active == s.active
    else if forall x: nat :: x < |pool| && pool[x].name != name ==> outcomes(pool[x].id).None? then
      result == ParseError(name) && t.active == s.active
    else
      exists x: nat ::
        && BestAnswering(pool, name, outcomes, x)
        && result == Success(outcomes(pool[x].id).value, pool[x].name, Some(name))
        && t.active == s.active[d := pool[x].name]
  }

  /**
   * With data, the active gene's answer is reported if it answers; otherwise that of the fittest other gene
   * of the pool that does, which becomes active; if none does, the turn fails and the active gene stays.
   */
  lemma TurnReports(domains: seq<string>, d: string, s: State, t: State, v: Visit, feed: Feed, n: nat)
    requires Visited(domains, d, s, t, v, feed) && feed.fetched(d) && Identified(s.pools, n)
    ensures s.pools[v.home][v.first].name == s.active[d]
    ensures Reports(d, s, t, v.result, s.pools[v.home][v.first], Answers(feed, d))
  {
    FoundHasName(domains, s.pools, s.active[d]);
    if Answers(feed, d)(s.pools[v.home][v.first].id).None? {
      FailedTurnReports(d, s, t, v, Answers(feed, d), n);
    }
  }

  lemma FailedTurnReports(d: string, s: State, t: State, v: Visit, o: Outcomes, n: nat)
    requires Identified(s.pools, n) && d in s.pools && d in s.active && v.home in s.pools
    requires v.first < |s.pools[v.home]| && s.pools[v.home][v.first].name == s.active[d]
    requires Served(d, s, t, v, o) && o(s.pools[v.home][v.first].id).None?
    ensures Reports(d, s, t, v.result, s.pools[v.home][v.first], o)
  {
    var name, pool := s.active[d], Credit(s.pools, v.home, v.first, false)[d];
    FailoverReports(pool, name, t.pools[d], t.active[d], v.result, v.order, v.tried, o);
    forall x: nat | x < |pool| && s.pools[d][x].name != name ensures pool[x] == s.pools[d][x] {
      OthersUntouched(s.pools, n, v.home, v.first, d, x);
    }
    SameReport(s.pools[d], pool, name, o);
    assert s.active[d := name] == s.active;
  }

  lemma SameReport(before: Pool, after: Pool, name: string, o: Outcomes)
    requires |before| == |after|
    requires forall x: nat :: x < |before| ==> after[x].name == before[x].name && after[x].id == before[x].id
    requires forall x: nat :: x < |before| && before[x].name != name ==> after[x] == before[x]
    ensures forall x: nat :: BestAnswering(after, name, o, x) ==> BestAnswering(before, name, o, x)
  {
  }

  // ---- Which gene is active ------------------------------------------------------------------

  /** The look-up finds the first gene of the name in the first domain that has one. */
  lemma {:induction false} FoundIsFirst(domains: seq<string>, pools: Pools, name: string)
    requires forall e :: e in domains ==> e in pools
    ensures match GetGene(domains, pools, name)
            case None => forall i :: 0 <= i < |domains| ==> !Named(pools[domains[i]], name)
            case Some(r) =>
              && r.0 in domains && r.1 < |pools[r.0]| && pools[r.0][r.1].name == name
              && (forall k :: 0 <= k < r.1 ==> pools[r.0][k].name != name)
              && FirstWith(domains, pools, r.0, name)
  {
    if domains != [] {
      if Named(pools[domains[0]], name) {
        FirstOfName(pools[domains[0]], name);
      } else {
        FoundIsFirst(domains[1..], pools, name);
        var found := GetGene(domains, pools, name);
        if found.Some? {
          LaterDomain(domains, pools, found.value.0, name);
        }
        assert forall i :: 0 < i < |domains| ==> domains[i] == domains[1..][i - 1];
      }
    }
  }

  lemma {:induction false} FirstOfName(pool: Pool, name: string)
    requires Named(pool, name)
    ensures forall k :: 0 <= k < PlaceOf(pool, name) ==> pool[k].name != name
  {
    if pool[0].name != name {
      var i :| 0 <= i < |pool| && pool[i].name == name;
      assert pool[1..][i - 1].name == name;
      FirstOfName(pool[1..], name);
    }
  }

  /** No domain before d has the name. */
  ghost predicate FirstWith(domains: seq<string>, pools: Pools, d: string, name: string)
    requires forall e :: e in domains ==> e in pools
  {
    exists i :: 0 <= i < |domains| && domains[i] == d && NoneBefore(domains, pools, i, name)
  }

  ghost predicate NoneBefore(domains: seq<string>, pools: Pools, i: nat, name: string)
    requires i <= |domains| && forall e :: e in domains ==> e in pools
  {
    forall j :: 0 <= j < i ==> !Named(pools[domains[j]], name)
  }

  lemma LaterDomain(domains: seq<string>, pools: Pools, d: string, name: string)
    requires (forall e :: e in domains ==> e in pools) && domains != [] && !Named(pools[domains[0]], name)
    requires FirstWith(domains[1..], pools, d, name)
    ensures FirstWith(domains, pools, d, name)
  {
    var i :| 0 <= i < |domains[1..]| && domains[1..][i] == d && NoneBefore(domains[1..], pools, i, name);
    forall j | 0 <= j < i + 1 ensures !Named(pools[domains[j]], name) {
      if j > 0 {
        assert domains[1..][j - 1] == domains[j];
      }
    }
    assert domains[i + 1] == d && NoneBefore(domains, pools, i + 1, name);
  }

  /** After a failover the pool stands in order of fitness, equal ones as before, before the calls are scored. */
  lemma SortedByFitness(pool: Pool, name: string, after: Pool, active: string, result: SourceResult, order: seq<nat>,
                        tried: seq<nat>, outcomes: Outcomes, i: nat, j: nat)
    requires Recovery(pool, name, after, active, result, order, tried, outcomes) && i < j < |after|
    ensures |order| == |after| == |pool| && order[i] < |pool| && order[j] < |pool|
    ensures after[i].id == pool[order[i]].id && after[j].id == pool[order[j]].id
    ensures pool[order[i]].fitness >= pool[order[j]].fitness
    ensures pool[order[i]].fitness == pool[order[j]].fitness ==> order[i] < order[j]
  {
    assert Better(pool, order[i], order[j]);
  }

  // ---- Sources ----------------------------------------------------------------------------------

  /** A domain's source is what stands behind its last dot, or the whole domain if it has none. */
  lemma {:induction false} SourceIsLastPart(domain: string)
    ensures '.' !in SourceId(domain)
    ensures domain == SourceId(domain) || exists front: string :: domain == front + "." + SourceId(domain)
  {
    if domain != [] && ('.' in domain[1..] || domain[0] == '.') {
      var rest, id := domain[1..], SourceId(domain);
      SourceIsLastPart(rest);
      assert domain == [domain[0]] + rest;
      if rest == id {
        assert domain == "" + "." + id;
      } else {
        var front: string :| rest == front + "." + id;
        assert domain == ([domain[0]] + front) + "." + id;
      }
    }
  }
}
