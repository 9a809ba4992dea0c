/** The agent object: its registered genes, its active genes, and whole ticks. */
module Agent {
  import opened Common
  import opened Failover

  /** `domain.split(".").pop()`. */
  function SourceId(domain: string): string
  {
    if domain == [] then []
    else if '.' in domain[1..] || domain[0] == '.' then SourceId(domain[1..])
    else domain
  }

  // ---- What scoring and sorting keep ----------------------------------------------

  /** The same genes, in any order: by number and by name. */
  ghost predicate SameGenes(before: Pool, after: Pool)
  {
    && (forall id: nat :: HasId(after, id) <==> HasId(before, id))
    && (forall name :: Named(after, name) <==> Named(before, name))
  }

  /** Scoring one gene keeps all of them, and fitness in [0, 1]. */
  lemma ScoreKeeps(pool: Pool, id: nat, success: bool)
    requires Distinct(pool)
    ensures var after := ScoreIn(pool, id, success);
            Distinct(after) && (Bounded(pool) ==> Bounded(after)) && SameGenes(pool, after)
  {
    var after := ScoreIn(pool, id, success);
    forall i | 0 <= i < |pool| ensures after[i].id == pool[i].id && after[i].name == pool[i].name {
    }
    SameInPlaces(pool, after);
  }

  lemma SameInPlaces(pool: Pool, after: Pool)
    requires |after| == |pool| && forall i :: 0 <= i < |pool| ==> after[i].id == pool[i].id
    requires forall i :: 0 <= i < |pool| ==> after[i].name == pool[i].name
    ensures SameGenes(pool, after)
  {
    forall id: nat ensures HasId(after, id) <==> HasId(pool, id) {
      if HasId(pool, id) {
        var i :| 0 <= i < |pool| && pool[i].id == id;
        assert after[i].id == id;
      }
    }
    forall name ensures Named(after, name) <==> Named(pool, name) {
      if Named(pool, name) {
        var i :| 0 <= i < |pool| && pool[i].name == name;
        assert after[i].name == name;
      }
    }
  }

  /** Scoring and sorting change no pool's membership, and keep fitness in [0, 1]. */
  lemma AppliedKeeps(before: Pool, after: Pool, order: seq<nat>, tried: seq<nat>, outcomes: Outcomes)
    requires Distinct(before) && Applied(before, after, order, tried, outcomes)
    ensures Distinct(after) && (Bounded(before) ==> Bounded(after)) && SameGenes(before, after)
  {
    forall i | 0 <= i < |after| ensures after[i].name == before[order[i]].name && after[i].id == before[order[i]].id {
    }
    forall id: nat | HasId(before, id) ensures HasId(after, id) {
      var x :| 0 <= x < |before| && before[x].id == id;
      var i := PlaceIn(order, x);
      assert after[i].id == id;
    }
    forall name | Named(before, name) ensures Named(after, name) {
      var x :| 0 <= x < |before| && before[x].name == name;
      var i := PlaceIn(order, x);
      assert after[i].name == name;
    }
  }

  lemma PlaceIn(order: seq<nat>, x: nat) returns (i: nat)
    requires IsOrder(order, |order|) && x < |order|
    ensures i < |order| && order[i] == x
  {
    assert x in order;
    i :| 0 <= i < |order| && order[i] == x;
  }

  // ---- The state of an agent ----------------------------------------------------

  type Pools = map<string, Pool>

  ghost predicate GoodPool(pool: Pool)
  {
    pool != [] && Bounded(pool)
  }

  /** Fitness in [0, 1], and every active gene in its domain's pool. */
  ghost predicate WellFormed(domains: seq<string>, pools: Pools, active: map<string, string>)
  {
    && (forall d :: d in domains <==> d in pools)
    && (forall i, j :: 0 <= i < j < |domains| ==> domains[i] != domains[j])
    && (forall d :: d in pools ==> GoodPool(pools[d]))
    && (forall d :: d in active ==> d in pools && Named(pools[d], active[d]))
  }

  /** No gene stands in two places. */
  ghost predicate IdsApart(pools: Pools)
  {
    && (forall d :: d in pools ==> Distinct(pools[d]))
    && (forall d, e, id: nat {:trigger HasId(pools[d], id), HasId(pools[e], id)} ::
          d in pools && e in pools && HasId(pools[d], id) && HasId(pools[e], id) ==> d == e)
  }

  /** Every gene has a number of its own below n. */
  ghost predicate Identified(pools: Pools, n: nat)
  {
    && IdsApart(pools)
    && (forall d, id: nat :: d in pools && HasId(pools[d], id) ==> id < n)
  }

  /** No gene name is used in two pools. */
  ghost predicate NamesApart(pools: Pools)
  {
    forall d, e, name {:trigger Named(pools[d], name), Named(pools[e], name)} ::
      d in pools && e in pools && Named(pools[d], name) && Named(pools[e], name) ==> d == e
  }

  /** A pool replaced by one of the same genes. */
  lemma ReplacePool(domains: seq<string>, pools: Pools, active: map<string, string>, n: nat, d: string, after: Pool)
    requires WellFormed(domains, pools, active) && Identified(pools, n) && d in pools
    requires GoodPool(after) && Distinct(after) && SameGenes(pools[d], after)
    ensures WellFormed(domains, pools[d := after], active) && Identified(pools[d := after], n)
    ensures NamesApart(pools) ==> NamesApart(pools[d := after])
  {
    ReplacedIdentified(pools, n, d, after);
    if NamesApart(pools) {
      ReplacedNames(pools, d, after);
    }
  }

  lemma ReplacedIdentified(pools: Pools, n: nat, d: string, after: Pool)
    requires Identified(pools, n) && d in pools && Distinct(after) && SameGenes(pools[d], after)
    ensures Identified(pools[d := after], n)
  {
  }

  lemma ReplacedNames(pools: Pools, d: string, after: Pool)
    requires NamesApart(pools) && d in pools && SameGenes(pools[d], after)
    ensures NamesApart(pools[d := after])
  {
  }

  lemma SetActive(domains: seq<string>, pools: Pools, active: map<string, string>, d: string, name: string)
    requires WellFormed(domains, pools, active) && d in pools && Named(pools[d], name)
    ensures WellFormed(domains, pools, active[d := name])
  {
  }

  // ---- Registration ---------------------------------------------------------------

  lemma NamedAppend(pool: Pool, g: Gene, name: string)
    ensures Named(pool + [g], name) <==> Named(pool, name) || name == g.name
  {
    if Named(pool, name) {
      var i :| 0 <= i < |pool| && pool[i].name == name;
      assert (pool + [g])[i].name == name;
    }
    assert (pool + [g])[|pool|] == g;
  }

  lemma HasIdAppend(pool: Pool, g: Gene, id: nat)
    ensures HasId(pool + [g], id) <==> HasId(pool, id) || id == g.id
  {
    if HasId(pool, id) {
      var i :| 0 <= i < |pool| && pool[i].id == id;
      assert (pool + [g])[i].id == id;
    }
    assert (pool + [g])[|pool|] == g;
  }

  function PoolOf(pools: Pools, d: string): Pool
  {
    if d in pools then pools[d] else []
  }

  function Registered(pools: Pools, d: string, g: Gene): Pools
  {
    pools[d := PoolOf(pools, d) + [g]]
  }

  function DomainsWith(domains: seq<string>, pools: Pools, d: string): seq<string>
  {
    if d in pools then domains else domains + [d]
  }

  lemma AddGene(domains: seq<string>, pools: Pools, active: map<string, string>, d: string, g: Gene)
    requires WellFormed(domains, pools, active) && FITNESS_FLOOR <= g.fitness <= FITNESS_CEILING
    ensures WellFormed(DomainsWith(domains, pools, d), Registered(pools, d, g), active)
  {
    var before := PoolOf(pools, d);
    forall n ensures Named(before + [g], n) <==> Named(before, n) || n == g.name {
      NamedAppend(before, g, n);
    }
    assert GoodPool(before + [g]);
  }

  lemma AddIdentified(pools: Pools, d: string, g: Gene)
    requires Identified(pools, g.id)
    ensures Identified(Registered(pools, d, g), g.id + 1)
  {
    var before, more := PoolOf(pools, d), Registered(pools, d, g);
    forall id: nat ensures HasId(more[d], id) <==> HasId(before, id) || id == g.id {
      HasIdAppend(before, g, id);
    }
    forall i | 0 <= i < |before| ensures before[i].id < g.id {
      assert HasId(before, before[i].id);
    }
  }

  /** The gene's name is in no other pool. */
  ghost predicate NameFree(pools: Pools, d: string, name: string)
  {
    forall e :: e in pools && e != d ==> !Named(pools[e], name)
  }

  /** Adding a gene keeps the pools' names apart exactly if they were apart and no other pool has its name. */
  lemma AddApart(pools: Pools, d: string, g: Gene)
    ensures NamesApart(Registered(pools, d, g)) <==> NamesApart(pools) && NameFree(pools, d, g.name)
  {
    var before, more := PoolOf(pools, d), Registered(pools, d, g);
    forall n ensures Named(more[d], n) <==> Named(before, n) || n == g.name {
      NamedAppend(before, g, n);
    }
    if NamesApart(more) {
      assert Named(more[d], g.name);
      forall e | e in pools && e != d ensures !Named(pools[e], g.name) {
        assert more[e] == pools[e];
      }
      forall e, f, n {:trigger Named(pools[e], n), Named(pools[f], n)}
        | e in pools && f in pools && Named(pools[e], n) && Named(pools[f], n) ensures e == f
      {
        assert Named(more[e], n) && Named(more[f], n);
      }
    }
  }

  /** The two statements of `registerGene`, on the value of the pools. */
  method Register(domains: seq<string>, pools: Pools, d: string, g: Gene) returns (keys: seq<string>, more: Pools)
    ensures keys == DomainsWith(domains, pools, d) && more == Registered(pools, d, g)
  {
    keys, more := domains, pools;
    if d !in more {
      keys, more := keys + [d], more[d := []];
    }
    more := more[d := more[d] + [g]];
  }

  lemma RegisterKeeps(domains: seq<string>, pools: Pools, active: map<string, string>, d: string, g: Gene)
    requires WellFormed(domains, pools, active) && FITNESS_FLOOR <= g.fitness <= FITNESS_CEILING
    requires Identified(pools, g.id)
    ensures WellFormed(DomainsWith(domains, pools, d), Registered(pools, d, g), active)
    ensures Identified(Registered(pools, d, g), g.id + 1)
  {
    AddGene(domains, pools, active, d, g);
    AddIdentified(pools, d, g);
  }

  // ---- Looking up a name -----------------------------------------------------------

  /** `getGene`: the pool and place of the first gene of this name, over all pools in order. */
  function GetGene(domains: seq<string>, pools: Pools, name: string): Option<(string, nat)>
    requires forall d :: d in domains ==> d in pools
  {
    if domains == [] then None
    else if Named(pools[domains[0]], name) then Some((domains[0], PlaceOf(pools[domains[0]], name)))
    else GetGene(domains[1..], pools, name)
  }

  /** A name that some pool has is found, in the first pool that has it. */
  lemma {:induction false} NameIsFound(domains: seq<string>, pools: Pools, d: string, name: string)
    requires (forall e :: e in domains ==> e in pools) && d in domains && Named(pools[d], name)
    ensures var r := GetGene(domains, pools, name);
            && r.Some? && r.value.0 in domains && Named(pools[r.value.0], name)
            && r.value.1 == PlaceOf(pools[r.value.0], name)
  {
    if !Named(pools[domains[0]], name) {
      NameIsFound(domains[1..], pools, d, name);
    }
  }

  /** Where no name is in two pools, an active gene is found in its own domain's pool. */
  lemma {:induction false} ActiveGeneIsFound(domains: seq<string>, pools: Pools, d: string, name: string)
    requires forall e :: e in domains ==> e in pools
    requires NamesApart(pools) && d in domains && Named(pools[d], name)
    ensures GetGene(domains, pools, name) == Some((d, PlaceOf(pools[d], name)))
  {
    if !Named(pools[domains[0]], name) {
      ActiveGeneIsFound(domains[1..], pools, d, name);
    }
  }

  // ---- One domain in one tick -------------------------------------------------------

  datatype State = State(pools: Pools, active: map<string, string>)

  /** Which domains' data arrive in a tick, and what each gene makes of a domain's data. */
  datatype Feed = Feed(fetched: string -> bool, outcomes: (string, nat) -> Option<real>)

  function Answers(feed: Feed, d: string): Outcomes
  {
    (id: nat) => feed.outcomes(d, id)
  }

  /**
   * Where the gene of the active name was found, the order the domain's pool was left in, the genes
   * of it that were tried after the first, and the result.
   */
  datatype Visit = Visit(home: string, first: nat, order: seq<nat>, tried: seq<nat>, result: SourceResult)

  /** `updateFitness` of gene p of pool e. */
  function Credit(pools: Pools, e: string, p: nat, success: bool): Pools
    requires e in pools && p < |pools[e]|
  {
    pools[e := ScoreIn(pools[e], pools[e][p].id, success)]
  }

  /** The visit's first gene is where looking up the active name leads. */
  ghost predicate Looked(domains: seq<string>, d: string, s: State, v: Visit)
  {
    && (forall e :: e in domains ==> e in s.pools)
    && d in domains && d in s.active && v.home in domains && v.first < |s.pools[v.home]|
    && GetGene(domains, s.pools, s.active[d]) == Some((v.home, v.first))
  }

  /** What the turn does once the data is there. */
  ghost predicate Served(d: string, s: State, t: State, v: Visit, outcomes: Outcomes)
    requires d in s.pools && d in s.active && v.home in s.pools && v.first < |s.pools[v.home]|
  {
    var name := s.active[d];
    match outcomes(s.pools[v.home][v.first].id)
    case Some(temp) =>
      && t == State(Credit(s.pools, v.home, v.first, true), s.active)
      && v.tried == [] && v.result == Success(temp, name, None)
    case None =>
      var penalised := Credit(s.pools, v.home, v.first, false);
      && d in t.pools && t.pools == penalised[d := t.pools[d]]
      && d in t.active && t.active == s.active[d := t.active[d]]
      && Recovery(penalised[d], name, t.pools[d], t.active[d], v.result, v.order, v.tried, outcomes)
  }

  /** A domain's turn: nothing happens if its data could not be fetched. */
  ghost predicate Visited(domains: seq<string>, d: string, s: State, t: State, v: Visit, feed: Feed)
  {
    && Looked(domains, d, s, v)
    && if !feed.fetched(d) then t == s && v.result == FetchError && v.tried == []
       else Served(d, s, t, v, Answers(feed, d))
  }

  ghost predicate AllActive(domains: seq<string>, active: map<string, string>)
  {
    forall d :: d in domains ==> d in active
  }

  /** The agent's fields are in order and every domain has an active gene. */
  ghost predicate Ready(domains: seq<string>, s: State, n: nat)
  {
    WellFormed(domains, s.pools, s.active) && Identified(s.pools, n) && AllActive(domains, s.active)
  }

  lemma ActiveIsFound(domains: seq<string>, d: string, s: State, n: nat)
    requires Ready(domains, s, n) && d in domains
    ensures d in s.pools && d in s.active && Named(s.pools[d], s.active[d])
    ensures var r := GetGene(domains, s.pools, s.active[d]);
            r.Some? && r.value.0 in domains && r.value.0 in s.pools && r.value.1 < |s.pools[r.value.0]|
  {
    NameIsFound(domains, s.pools, d, s.active[d]);
  }

  /** Scoring any gene leaves the agent ready. */
  lemma CreditReady(domains: seq<string>, s: State, n: nat, e: string, p: nat, success: bool)
    requires Ready(domains, s, n) && e in s.pools && p < |s.pools[e]|
    ensures Ready(domains, State(Credit(s.pools, e, p, success), s.active), n)
    ensures NamesApart(s.pools) ==> NamesApart(Credit(s.pools, e, p, success))
  {
    ScoreKeeps(s.pools[e], s.pools[e][p].id, success);
    ReplacePool(domains, s.pools, s.active, n, e, ScoreIn(s.pools[e], s.pools[e][p].id, success));
  }

  /** So does a failover. */
  lemma RecoveryReady(domains: seq<string>, s: State, n: nat, d: string, after: Pool, name: string,
                      result: SourceResult, order: seq<nat>, tried: seq<nat>, outcomes: Outcomes)
    requires Ready(domains, s, n) && d in s.pools && d in s.active
    requires Recovery(s.pools[d], s.active[d], after, name, result, order, tried, outcomes)
    ensures Ready(domains, State(s.pools[d := after], s.active[d := name]), n)
    ensures NamesApart(s.pools) ==> NamesApart(s.pools[d := after])
  {
    AppliedKeeps(s.pools[d], after, order, tried, outcomes);
    ReplacePool(domains, s.pools, s.active, n, d, after);
    SetActive(domains, s.pools[d := after], s.active, d, name);
  }

  /** A turn leaves the agent ready for the next. */
  lemma TurnKeeps(domains: seq<string>, d: string, s: State, t: State, v: Visit, feed: Feed, n: nat)
    requires Ready(domains, s, n) && Visited(domains, d, s, t, v, feed)
    ensures Ready(domains, t, n) && (NamesApart(s.pools) ==> NamesApart(t.pools))
  {
    if feed.fetched(d) {
      var o := Answers(feed, d)(s.pools[v.home][v.first].id);
      CreditReady(domains, s, n, v.home, v.first, o.Some?);
      if o.None? {
        var mid := State(Credit(s.pools, v.home, v.first, false), s.active);
        RecoveryReady(domains, mid, n, d, t.pools[d], t.active[d], v.result, v.order, v.tried, Answers(feed, d));
        assert t == State(mid.pools[d := t.pools[d]], mid.active[d := t.active[d]]);
      }
    }
  }

  /** Where no name is in two pools a turn changes its own domain only. */
  lemma OwnDomainOnly(domains: seq<string>, d: string, s: State, t: State, v: Visit, feed: Feed, n: nat)
    requires Ready(domains, s, n) && Visited(domains, d, s, t, v, feed) && NamesApart(s.pools)
    ensures v.home == d && d in t.pools && t.pools == s.pools[d := t.pools[d]]
    ensures d in t.active && t.active == s.active[d := t.active[d]]
  {
    FoundAtHome(domains, d, s, n);
    HomeTurn(domains, d, s, t, v, feed);
  }

  lemma FoundAtHome(domains: seq<string>, d: string, s: State, n: nat)
    requires Ready(domains, s, n) && d in domains && NamesApart(s.pools)
    ensures d in s.active && GetGene(domains, s.pools, s.active[d]).Some?
    ensures GetGene(domains, s.pools, s.active[d]).value.0 == d
  {
    ActiveIsFound(domains, d, s, n);
    ActiveGeneIsFound(domains, s.pools, d, s.active[d]);
  }

  lemma HomeTurn(domains: seq<string>, d: string, s: State, t: State, v: Visit, feed: Feed)
    requires Visited(domains, d, s, t, v, feed) && v.home == d
    ensures d in t.pools && t.pools == s.pools[d := t.pools[d]]
    ensures d in t.active && t.active == s.active[d := t.active[d]]
  {
    assert s.active[d := s.active[d]] == s.active && s.pools[d := s.pools[d]] == s.pools;
  }

  /** The turn once the data is there: the gene found by name, and the others if it throws. */
  method ServeData(domains: seq<string>, pools: Pools, active: map<string, string>, d: string, e: string, p: nat,
                   outcomes: Outcomes, ghost n: nat)
    returns (newPools: Pools, newActive: map<string, string>, result: SourceResult, ghost v: Visit)
    requires Ready(domains, State(pools, active), n)
    requires d in pools && d in active && e in pools && p < |pools[e]|
    ensures v.home == e && v.first == p && v.result == result
    ensures Served(d, State(pools, active), State(newPools, newActive), v, outcomes)
  {
    var name, answer := active[d], outcomes(pools[e][p].id);
    newPools, newActive := Credit(pools, e, p, answer.Some?), active;
    if answer.Some? {
      result := Success(answer.value, name, None);
      v := Visit(e, p, [], [], result);
    } else {
      CreditReady(domains, State(pools, active), n, e, p, false);
      var after, next;
      ghost var order, tried;
      after, next, result, order, tried := FailOver(newPools[d], name, outcomes);
      newPools, newActive := newPools[d := after], active[d := next];
      v := Visit(e, p, order, tried, result);
    }
  }

  /** The turn of one domain, on the values of the agent's fields. */
  method Serve(domains: seq<string>, pools: Pools, active: map<string, string>, d: string, feed: Feed, ghost n: nat)
    returns (newPools: Pools, newActive: map<string, string>, result: SourceResult, ghost t: State, ghost v: Visit)
    requires Ready(domains, State(pools, active), n) && d in domains
    ensures t == State(newPools, newActive) && v.result == result && Ready(domains, t, n)
    ensures Visited(domains, d, State(pools, active), t, v, feed)
  {
    ghost var s := State(pools, active);
    ActiveIsFound(domains, d, s, n);
    var found := GetGene(domains, pools, active[d]).value;
    if feed.fetched(d) {
      newPools, newActive, result, v := ServeData(domains, pools, active, d, found.0, found.1, Answers(feed, d), n);
    } else {
      newPools, newActive, result := pools, active, FetchError;
      v := Visit(found.0, found.1, [], [], FetchError);
    }
    t := State(newPools, newActive);
    TurnKeeps(domains, d, s, t, v, feed, n);
  }

  /** With data a turn succeeds exactly if the gene found by name or one of another name in the pool answers. */
  lemma TurnSucceeds(domains: seq<string>, d: string, s: State, t: State, v: Visit, feed: Feed)
    requires Visited(domains, d, s, t, v, feed) && feed.fetched(d)
    ensures v.result.Success? <==>
              || feed.outcomes(d, s.pools[v.home][v.first].id).Some?
              || exists x: nat ::
                   x < |s.pools[d]| && s.pools[d][x].name != s.active[d] && feed.outcomes(d, s.pools[d][x].id).Some?
  {
    var o, g := Answers(feed, d), s.pools[v.home][v.first];
    if o(g.id).None? {
      var pool := Credit(s.pools, v.home, v.first, false)[d];
      Recovers(pool, s.active[d], v.tried, o);
      assert forall x: nat :: x < |s.pools[d]| ==> pool[x].name == s.pools[d][x].name && pool[x].id == s.pools[d][x].id;
    }
  }

  // ---- A tick and its report -----------------------------------------------------------

  /** The states between the turns of a tick, and the turns. */
  datatype Trace = Trace(states: seq<State>, log: seq<Visit>)

  /** The first k domains have had their turns, one after the other. */
  ghost predicate Chain(domains: seq<string>, k: int, run: Trace, feed: Feed)
  {
    && 0 <= k <= |domains| && |run.log| == k && |run.states| == k + 1
    && forall i :: 0 <= i < k ==> Visited(domains, domains[i], run.states[i], run.states[i + 1], run.log[i], feed)
  }

  lemma ChainStep(domains: seq<string>, k: nat, run: Trace, t: State, v: Visit, feed: Feed)
    requires k < |domains| && Chain(domains, k, run, feed)
    requires Visited(domains, domains[k], run.states[k], t, v, feed)
    ensures Chain(domains, k + 1, Trace(run.states + [t], run.log + [v]), feed)
  {
    var more := Trace(run.states + [t], run.log + [v]);
    forall i | 0 <= i < k + 1
      ensures Visited(domains, domains[i], more.states[i], more.states[i + 1], more.log[i], feed)
    {
      if i < k {
        assert Visited(domains, domains[i], run.states[i], run.states[i + 1], run.log[i], feed);
      }
    }
  }

  /** No later one of the first k domains has the source of domain i. */
  ghost predicate LastOfSource(domains: seq<string>, i: int, k: int)
    requires 0 <= i < k <= |domains|
  {
    forall j :: i < j < k ==> SourceId(domains[j]) != SourceId(domains[i])
  }

  /** Each source shows the result of the last of its domains. */
  ghost predicate Reported(domains: seq<string>, k: int, sources: map<string, SourceResult>, log: seq<Visit>)
  {
    && 0 <= k <= |domains| && |log| == k
    && (forall id :: id in sources ==> exists i :: 0 <= i < k && SourceId(domains[i]) == id)
    && (forall i :: 0 <= i < k ==> SourceId(domains[i]) in sources)
    && (forall i :: 0 <= i < k && LastOfSource(domains, i, k) ==> sources[SourceId(domains[i])] == log[i].result)
  }

  lemma ReportedStep(domains: seq<string>, k: nat, sources: map<string, SourceResult>, log: seq<Visit>, v: Visit)
    requires k < |domains| && Reported(domains, k, sources, log)
    ensures Reported(domains, k + 1, sources[SourceId(domains[k]) := v.result], log + [v])
  {
    var id := SourceId(domains[k]);
    var more := sources[id := v.result];
    forall x | x in more ensures exists i :: 0 <= i < k + 1 && SourceId(domains[i]) == x {
      if x in sources {
        var i :| 0 <= i < k && SourceId(domains[i]) == x;
        assert SourceId(domains[i]) == x;
      }
    }
    forall i | 0 <= i < k + 1 && LastOfSource(domains, i, k + 1)
      ensures more[SourceId(domains[i])] == (log + [v])[i].result
    {
      if i < k {
        assert LastOfSource(domains, i, k);
      }
    }
  }

  class RotiferAgent {
    /** The keys of `genePool`, in insertion order. */
    var domains: seq<string>
    var genePool: Pools
    var activeGenes: map<string, string>
    var tickCount: nat
    /** How many genes were registered: the number of the next. */
    var registered: nat

    ghost predicate Valid()
      reads this
    {
      WellFormed(domains, genePool, activeGenes) && Identified(genePool, registered)
    }

    /** Every domain has an active gene: `start` has run since the last domain was added. */
    ghost predicate Started()
      reads this
    {
      AllActive(domains, activeGenes)
    }

    ghost function Now(): State
      reads this
    {
      State(genePool, activeGenes)
    }

    constructor ()
      ensures Valid() && genePool == map[] && activeGenes == map[] && tickCount == 0 && registered == 0
    {
      domains, genePool, activeGenes, tickCount, registered := [], map[], map[], 0, 0;
    }

    method RegisterGene(name: string, domain: string)
      requires Valid()
      modifies this
      ensures Valid() && activeGenes == old(activeGenes) && tickCount == old(tickCount)
      ensures domains == DomainsWith(old(domains), old(genePool), domain)
      ensures genePool == Registered(old(genePool), domain, Gene(old(registered), name, 0.5, 0, 0))
      ensures registered == old(registered) + 1
      ensures NamesApart(genePool) <==> NamesApart(old(genePool)) && NameFree(old(genePool), domain, name)
    {
      var g := Gene(registered, name, FITNESS_INITIAL, 0, 0);
      RegisterKeeps(domains, genePool, activeGenes, domain, g);
      AddApart(genePool, domain, g);
      var keys, pools := Register(domains, genePool, domain, g);
      domains, genePool, registered := keys, pools, registered + 1;
    }

    method Start()
      requires Valid()
      modifies this
      ensures Valid() && Started() && genePool == old(genePool) && domains == old(domains) && tickCount == 0
      ensures registered == old(registered)
      ensures forall d :: d in domains ==> activeGenes[d] == genePool[d][0].name
    {
      tickCount := 0;
      for k := 0 to |domains|
        invariant Valid() && genePool == old(genePool) && domains == old(domains) && tickCount == 0
        invariant registered == old(registered)
        invariant StartedUpTo(domains, k, Now())
      {
        StartedNext(domains, k, Now());
        activeGenes := activeGenes[domains[k] := genePool[domains[k]][0].name];
      }
    }

    /** The part of `tick` for one domain. */
    method ServeDomain(d: string, feed: Feed) returns (result: SourceResult, ghost t: State, ghost v: Visit)
      requires Valid() && Started() && d in domains
      modifies this`genePool, this`activeGenes
      ensures Valid() && Started()
      ensures t == Now() && v.result == result && Visited(domains, d, old(Now()), t, v, feed)
    {
      genePool, activeGenes, result, t, v := Serve(domains, genePool, activeGenes, d, feed, registered);
    }

    /** One tick: `feed` says which domains' data arrive, and what each gene makes of them. */
    method Tick(feed: Feed) returns (sources: map<string, SourceResult>, ghost run: Trace)
      requires Valid() && Started()
      modifies this
      ensures Valid() && Started()
      ensures domains == old(domains) && tickCount == old(tickCount) + 1 && registered == old(registered)
      ensures Chain(domains, |domains|, run, feed) && run.states[0] == old(Now()) && run.states[|domains|] == Now()
      ensures Reported(domains, |domains|, sources, run.log)
    {
      tickCount := tickCount + 1;
      sources, run := map[], Trace([Now()], []);
      for k := 0 to |domains|
        invariant Valid() && Started()
        invariant domains == old(domains) && tickCount == old(tickCount) + 1 && registered == old(registered)
        invariant Chain(domains, k, run, feed) && run.states[0] == old(Now()) && run.states[k] == Now()
        invariant Reported(domains, k, sources, run.log)
      {
        sources, run := TickDomain(k, feed, sources, run);
      }
    }

    /** One turn of the loop of `tick`. */
    method TickDomain(k: nat, feed: Feed, before: map<string, SourceResult>, ghost runBefore: Trace)
      returns (sources: map<string, SourceResult>, ghost run: Trace)
      requires Valid() && Started() && k < |domains|
      requires Chain(domains, k, runBefore, feed) && runBefore.states[k] == Now()
      requires Reported(domains, k, before, runBefore.log)
      modifies this`genePool, this`activeGenes
      ensures Valid() && Started()
      ensures Chain(domains, k + 1, run, feed) && run.states[k + 1] == Now() && run.states[0] == runBefore.states[0]
      ensures Reported(domains, k + 1, sources, run.log)
    {
      var d := domains[k];
      assert d in domains;
      var result;
      ghost var t, v;
      result, t, v := ServeDomain(d, feed);
      ChainStep(domains, k, runBefore, t, v, feed);
      ReportedStep(domains, k, before, runBefore.log, v);
      sources, run := before[SourceId(d) := result], Trace(runBefore.states + [t], runBefore.log + [v]);
    }

    /** The loop of the experiment: one tick after the other. */
    method RunTicks(feeds: seq<Feed>) returns (ghost runs: seq<Trace>)
      requires Valid() && Started()
      modifies this
      ensures Valid() && Started()
      ensures domains == old(domains) && tickCount == old(tickCount) + |feeds| && registered == old(registered)
      ensures |runs| == |feeds| && IsRun(domains, old(Now()), runs, feeds)
      ensures StateAfter(old(Now()), runs, |feeds|) == Now()
    {
      runs := [];
      ghost var start := Now();
      for i := 0 to |feeds|
        invariant Valid() && Started()
        invariant domains == old(domains) && tickCount == old(tickCount) + i && registered == old(registered)
        invariant |runs| == i && IsRun(domains, start, runs, feeds) && StateAfter(start, runs, i) == Now()
      {
        var sources;
        ghost var run;
        sources, run := Tick(feeds[i]);
        RunOneMore(domains, start, runs, feeds, run);
        runs := runs + [run];
      }
    }
  }

  ghost predicate StartedUpTo(domains: seq<string>, k: nat, s: State)
  {
    k <= |domains| && forall i :: 0 <= i < k ==> IsStarted(domains[i], s)
  }

  /** The first gene of the domain's pool is active. */
  ghost predicate IsStarted(d: string, s: State)
  {
    d in s.active && d in s.pools && s.pools[d] != [] && s.active[d] == s.pools[d][0].name
  }

  lemma StartedNext(domains: seq<string>, k: nat, s: State)
    requires k < |domains| && StartedUpTo(domains, k, s) && WellFormed(domains, s.pools, s.active)
    ensures domains[k] in s.pools && s.pools[domains[k]] != []
    ensures var active := s.active[domains[k] := s.pools[domains[k]][0].name];
            WellFormed(domains, s.pools, active) && StartedUpTo(domains, k + 1, State(s.pools, active))
  {
    var d := domains[k];
    assert d in domains && GoodPool(s.pools[d]);
    var name := s.pools[d][0].name;
    assert Named(s.pools[d], name);
    SetActive(domains, s.pools, s.active, d, name);
    forall i | 0 <= i < k + 1 ensures IsStarted(domains[i], State(s.pools, s.active[d := name])) {
      if i < k {
        assert IsStarted(domains[i], s);
      }
    }
  }

  // ---- Whole runs ---------------------------------------------------------------

  /** The state after the first n ticks. */
  ghost function StateAfter(start: State, runs: seq<Trace>, n: nat): State
    requires n <= |runs|
  {
    if n == 0 || runs[n - 1].states == [] then start
    else runs[n - 1].states[|runs[n - 1].states| - 1]
  }

  /** Tick i, from the state the one before left. */
  ghost predicate IsTick(domains: seq<string>, start: State, runs: seq<Trace>, i: nat, feed: Feed)
    requires i < |runs|
  {
    Chain(domains, |domains|, runs[i], feed) && runs[i].states[0] == StateAfter(start, runs, i)
  }

  /** A run of ticks on the first of the feeds. */
  ghost predicate IsRun(domains: seq<string>, start: State, runs: seq<Trace>, feeds: seq<Feed>)
  {
    |runs| <= |feeds| && forall i :: 0 <= i < |runs| ==> IsTick(domains, start, runs, i, feeds[i])
  }

  lemma RunOneMore(domains: seq<string>, start: State, runs: seq<Trace>, feeds: seq<Feed>, run: Trace)
    requires IsRun(domains, start, runs, feeds) && |runs| < |feeds|
    requires Chain(domains, |domains|, run, feeds[|runs|]) && run.states[0] == StateAfter(start, runs, |runs|)
    ensures IsRun(domains, start, runs + [run], feeds)
    ensures StateAfter(start, runs + [run], |runs| + 1) == run.states[|domains|]
  {
    var more := runs + [run];
    forall i | 0 <= i < |more| ensures IsTick(domains, start, more, i, feeds[i]) {
      assert StateAfter(start, more, i) == StateAfter(start, runs, i);
      if i < |runs| {
        assert IsTick(domains, start, runs, i, feeds[i]);
      }
    }
  }

  // ---- Who was called ------------------------------------------------------------------

  /** The gene was called in the turn: as the one found by name, or after it. */
  ghost predicate Called(d: string, s: State, v: Visit, feed: Feed, id: nat)
  {
    && feed.fetched(d) && d in s.pools && v.home in s.pools && v.first < |s.pools[v.home]|
    && (s.pools[v.home][v.first].id == id || CalledLater(s.pools[d], v.tried, id))
  }

  ghost predicate CalledLater(pool: Pool, tried: seq<nat>, id: nat)
  {
    exists x: nat :: x < |pool| && x in tried && pool[x].id == id
  }

  function PlaceOfId(pool: Pool, id: nat): (k: nat)
    requires HasId(pool, id)
    ensures k < |pool| && pool[k].id == id
  {
    if pool[0].id == id then 0 else
      var i :| 0 <= i < |pool| && pool[i].id == id;
      assert pool[1..][i - 1].id == id;
      1 + PlaceOfId(pool[1..], id)
  }

  function GeneOf(pool: Pool, id: nat): Gene
    requires HasId(pool, id)
  {
    pool[PlaceOfId(pool, id)]
  }

  lemma OnlyGene(pool: Pool, id: nat, i: nat)
    requires Distinct(pool) && i < |pool| && pool[i].id == id
    ensures HasId(pool, id) && GeneOf(pool, id) == pool[i]
  {
    assert HasId(pool, id);
    var k := PlaceOfId(pool, id);
    assert pool[k].id == pool[i].id;
  }

  /** The pool keeps its genes, and one of them answers and throws so often. */
  ghost predicate Grown(before: Pool, after: Pool, id: nat, successes: nat, failures: nat)
  {
    && Distinct(after) && (Bounded(before) ==> Bounded(after)) && SameGenes(before, after)
    && HasId(before, id) && HasId(after, id)
    && GeneOf(after, id).successes == GeneOf(before, id).successes + successes
    && GeneOf(after, id).failures == GeneOf(before, id).failures + failures
    && (Bounded(before) ==> Moves(GeneOf(before, id).fitness, GeneOf(after, id).fitness, successes, failures))
  }

  /**
   * From fitness f to f' by so many answers and failures: at most 0.05 more for each answer and 0.15 less
   * for each failure, and exactly that where neither 0 nor 1 can be reached; answers alone, or failures
   * alone, stop at 1 or 0.
   */
  ghost predicate Moves(f: real, f': real, successes: nat, failures: nat)
  {
    var up, down := f + 0.05 * successes as real, f - 0.15 * failures as real;
    && down <= f' <= up
    && (down >= 0.0 && up <= 1.0 ==> f' == up + down - f)
    && (failures == 0 ==> f' == if up > 1.0 then 1.0 else up)
    && (successes == 0 ==> f' == if down < 0.0 then 0.0 else down)
  }

  lemma MovesTwice(f: real, g: real, h: real, s: nat, k: nat, s': nat, k': nat)
    requires Moves(f, g, s, k) && Moves(g, h, s', k')
    ensures Moves(f, h, s + s', k + k')
  {
    assert (s + s') as real == s as real + s' as real && (k + k') as real == k as real + k' as real;
  }

  lemma GrownTwice(a: Pool, b: Pool, c: Pool, id: nat, s: nat, f: nat, s': nat, f': nat)
    requires Grown(a, b, id, s, f) && Grown(b, c, id, s', f')
    ensures Grown(a, c, id, s + s', f + f')
  {
    if Bounded(a) {
      MovesTwice(GeneOf(a, id).fitness, GeneOf(b, id).fitness, GeneOf(c, id).fitness, s, f, s', f');
    }
  }

  lemma NotGrown(pool: Pool, id: nat)
    requires Distinct(pool) && HasId(pool, id)
    ensures Grown(pool, pool, id, 0, 0)
  {
  }

  function Tally(called: bool, o: Option<real>, success: bool): nat
  {
    if called && o.Some? == success then 1 else 0
  }

  /** Scoring one gene counts for that one. */
  lemma ScoreGrows(pool: Pool, scored: nat, o: Option<real>, id: nat)
    requires Distinct(pool) && HasId(pool, id)
    ensures Grown(pool, ScoreIn(pool, scored, o.Some?), id,
                  Tally(scored == id, o, true), Tally(scored == id, o, false))
  {
    var after, i := ScoreIn(pool, scored, o.Some?), PlaceOfId(pool, id);
    ScoreKeeps(pool, scored, o.Some?);
    OnlyGene(after, id, i);
  }

  /** A failover counts for the genes it tried. */
  lemma RecoveryGrows(before: Pool, after: Pool, order: seq<nat>, tried: seq<nat>, outcomes: Outcomes, id: nat)
    requires Distinct(before) && HasId(before, id) && Applied(before, after, order, tried, outcomes)
    ensures var called := CalledLater(before, tried, id);
            Grown(before, after, id, Tally(called, outcomes(id), true), Tally(called, outcomes(id), false))
  {
    AppliedKeeps(before, after, order, tried, outcomes);
    var x := PlaceOfId(before, id);
    TriedAt(before, tried, id);
    var i := PlaceIn(order, x);
    assert after[i] == Effect(before, tried, outcomes, x);
    OnlyGene(after, id, i);
  }

  lemma TriedAt(pool: Pool, tried: seq<nat>, id: nat)
    requires Distinct(pool) && HasId(pool, id)
    ensures CalledLater(pool, tried, id) <==> PlaceOfId(pool, id) in tried
  {
    var k := PlaceOfId(pool, id);
    if CalledLater(pool, tried, id) {
      var x: nat :| x < |pool| && x in tried && pool[x].id == id;
      assert pool[x].id == pool[k].id;
    }
  }

  /** What the lookup finds has the name looked for. */
  lemma {:induction false} FoundHasName(domains: seq<string>, pools: Pools, name: string)
    requires (forall e :: e in domains ==> e in pools) && GetGene(domains, pools, name).Some?
    ensures var r := GetGene(domains, pools, name).value;
            r.0 in domains && r.1 < |pools[r.0]| && pools[r.0][r.1].name == name
  {
    if !Named(pools[domains[0]], name) {
      FoundHasName(domains[1..], pools, name);
    }
  }

  lemma CreditGrows(pools: Pools, n: nat, h: string, p: nat, o: Option<real>, e: string, id: nat)
    requires Identified(pools, n) && h in pools && p < |pools[h]| && e in pools && HasId(pools[e], id)
    ensures var after, first := Credit(pools, h, p, o.Some?), pools[h][p].id == id;
            Identified(after, n) && Grown(pools[e], after[e], id, Tally(first, o, true), Tally(first, o, false))
  {
    var g := pools[h][p];
    assert HasId(pools[h], g.id);
    ScoreKeeps(pools[h], g.id, o.Some?);
    ReplacedIdentified(pools, n, h, ScoreIn(pools[h], g.id, o.Some?));
    if e == h {
      ScoreGrows(pools[e], g.id, o, id);
    } else {
      NotGrown(pools[e], id);
    }
  }

  lemma FailoverGrows(pools: Pools, n: nat, d: string, after: Pool, order: seq<nat>, tried: seq<nat>, o: Outcomes,
                      e: string, id: nat)
    requires Identified(pools, n) && d in pools && e in pools && HasId(pools[e], id)
    requires Applied(pools[d], after, order, tried, o)
    ensures var later := CalledLater(pools[d], tried, id);
            && Identified(pools[d := after], n)
            && Grown(pools[e], pools[d := after][e], id, Tally(later, o(id), true), Tally(later, o(id), false))
  {
    AppliedKeeps(pools[d], after, order, tried, o);
    ReplacedIdentified(pools, n, d, after);
    if e == d {
      RecoveryGrows(pools[d], after, order, tried, o, id);
    } else {
      if CalledLater(pools[d], tried, id) {
        assert HasId(pools[d], id);
        assert false;
      }
      NotGrown(pools[e], id);
    }
  }

  /** No gene is called twice in a turn: those tried later have other names than the first. */
  lemma FirstIsNotTried(pools: Pools, n: nat, h: string, p: nat, d: string, tried: seq<nat>, o: Outcomes)
    requires Identified(pools, n) && h in pools && p < |pools[h]| && d in pools
    requires TriedInOrder(pools[d], pools[h][p].name, tried, o)
    ensures !CalledLater(pools[d], tried, pools[h][p].id)
  {
    var g := pools[h][p];
    assert HasId(pools[h], g.id);
    forall x: nat | x < |pools[d]| && x in tried ensures pools[d][x].id != g.id {
      var i :| 0 <= i < |tried| && tried[i] == x;
      assert pools[d][tried[i]].name != g.name;
      assert pools[d][x].id == g.id ==> HasId(pools[d], g.id);
    }
  }

  lemma SameLater(pool: Pool, scored: nat, success: bool, tried: seq<nat>, id: nat)
    ensures CalledLater(ScoreIn(pool, scored, success), tried, id) <==> CalledLater(pool, tried, id)
  {
    var after := ScoreIn(pool, scored, success);
    if CalledLater(pool, tried, id) {
      var x: nat :| x < |pool| && x in tried && pool[x].id == id;
      assert after[x].id == id;
    }
  }

  /** The second half of a turn in which the first gene throws. */
  lemma FailedTurnGrows(d: string, s: State, t: State, v: Visit, o: Outcomes, n: nat, e: string, id: nat)
    requires Identified(s.pools, n) && e in s.pools && HasId(s.pools[e], id)
    requires d in s.pools && d in s.active && v.home in s.pools && v.first < |s.pools[v.home]|
    requires s.pools[v.home][v.first].name == s.active[d] && o(s.pools[v.home][v.first].id).None?
    requires Served(d, s, t, v, o)
    ensures Identified(t.pools, n) && e in t.pools
    ensures var called := s.pools[v.home][v.first].id == id || CalledLater(s.pools[d], v.tried, id);
            Grown(s.pools[e], t.pools[e], id, Tally(called, o(id), true), Tally(called, o(id), false))
  {
    var g := s.pools[v.home][v.first];
    var p1 := Credit(s.pools, v.home, v.first, false);
    CreditGrows(s.pools, n, v.home, v.first, o(g.id), e, id);
    FailoverGrows(p1, n, d, t.pools[d], v.order, v.tried, o, e, id);
    FirstIsNotTried(p1, n, v.home, v.first, d, v.tried, o);
    var first, later := g.id == id, CalledLater(p1[d], v.tried, id);
    SameLater(s.pools[d], g.id, false, v.tried, id);
    GrownTwice(s.pools[e], p1[e], t.pools[e], id, Tally(first, o(g.id), true), Tally(first, o(g.id), false),
               Tally(later, o(id), true), Tally(later, o(id), false));
  }

  /** One turn: of every gene of every pool the counters grow by its call, if it was called. */
  lemma TurnGrows(domains: seq<string>, d: string, s: State, t: State, v: Visit, feed: Feed, n: nat, e: string, id: nat)
    requires Visited(domains, d, s, t, v, feed) && Identified(s.pools, n) && e in s.pools && HasId(s.pools[e], id)
    ensures Identified(t.pools, n) && e in t.pools
    ensures var called, o := Called(d, s, v, feed, id), feed.outcomes(d, id);
            Grown(s.pools[e], t.pools[e], id, Tally(called, o, true), Tally(called, o, false))
  {
    FoundHasName(domains, s.pools, s.active[d]);
    var o, g := Answers(feed, d), s.pools[v.home][v.first];
    if !feed.fetched(d) {
      NotGrown(s.pools[e], id);
    } else if o(g.id).Some? {
      CreditGrows(s.pools, n, v.home, v.first, o(g.id), e, id);
      assert !CalledLater(s.pools[d], v.tried, id);
    } else {
      FailedTurnGrows(d, s, t, v, o, n, e, id);
    }
  }

  /** f(0) + ... + f(n - 1). */
  ghost function SumOf(n: nat, f: nat -> nat): nat
  {
    if n == 0 then 0 else SumOf(n - 1, f) + f(n - 1)
  }

  /** A pool that grows from one moment to the next grows by the sum. */
  lemma {:induction false} GrownBySum(at: nat -> Pool, id: nat, k: nat, hits: nat -> nat, misses: nat -> nat)
    requires Distinct(at(0)) && HasId(at(0), id)
    requires forall j: nat :: j < k ==> Grown(at(j), at(j + 1), id, hits(j), misses(j))
    ensures Grown(at(0), at(k), id, SumOf(k, hits), SumOf(k, misses))
  {
    if k == 0 {
      NotGrown(at(0), id);
    } else {
      GrownBySum(at, id, k - 1, hits, misses);
      assert Grown(at(k - 1), at(k - 1 + 1), id, hits(k - 1), misses(k - 1));
      GrownTwice(at(0), at(k - 1), at(k), id, SumOf(k - 1, hits), SumOf(k - 1, misses), hits(k - 1), misses(k - 1));
    }
  }

  /** Whether the gene was called in turn k of a tick, and ended in this way: 1 or 0. */
  ghost function TurnCall(domains: seq<string>, run: Trace, feed: Feed, id: nat, success: bool, k: nat): nat
  {
    if k < |domains| && k < |run.log| && k < |run.states| then
      Tally(Called(domains[k], run.states[k], run.log[k], feed, id), feed.outcomes(domains[k], id), success)
    else 0
  }

  ghost function TurnCalls(domains: seq<string>, run: Trace, feed: Feed, id: nat, success: bool): nat -> nat
  {
    (k: nat) => TurnCall(domains, run, feed, id, success, k)
  }

  /** How often the gene was called in a tick, and ended in this way. */
  ghost function TickCalls(domains: seq<string>, run: Trace, feed: Feed, id: nat, success: bool): nat
  {
    SumOf(|domains|, TurnCalls(domains, run, feed, id, success))
  }

  /** The gene is in pool e, and every gene has a number of its own. */
  ghost predicate Holds(pools: Pools, n: nat, e: string, id: nat)
  {
    Identified(pools, n) && e in pools && HasId(pools[e], id)
  }

  /** Turn k of a tick. */
  lemma TurnGrowsAt(domains: seq<string>, run: Trace, feed: Feed, n: nat, e: string, id: nat, k: nat)
    requires Chain(domains, |domains|, run, feed) && k < |domains| && Holds(run.states[k].pools, n, e, id)
    ensures Holds(run.states[k + 1].pools, n, e, id)
    ensures Grown(run.states[k].pools[e], run.states[k + 1].pools[e], id,
                  TurnCalls(domains, run, feed, id, true)(k), TurnCalls(domains, run, feed, id, false)(k))
  {
    TurnGrows(domains, domains[k], run.states[k], run.states[k + 1], run.log[k], feed, n, e, id);
  }

  lemma {:induction false} TickHolds(domains: seq<string>, run: Trace, feed: Feed, n: nat, e: string, id: nat, k: nat)
    requires Chain(domains, |domains|, run, feed) && k <= |domains| && Holds(run.states[0].pools, n, e, id)
    ensures Holds(run.states[k].pools, n, e, id)
  {
    if k > 0 {
      TickHolds(domains, run, feed, n, e, id, k - 1);
      TurnGrowsAt(domains, run, feed, n, e, id, k - 1);
    }
  }

  /** Pool e after k turns of a tick. */
  ghost function PoolsInTick(run: Trace, e: string): nat -> Pool
  {
    (k: nat) => if k < |run.states| then PoolOf(run.states[k].pools, e) else []
  }

  lemma PoolGrows(domains: seq<string>, run: Trace, feed: Feed, n: nat, e: string, id: nat, k: nat, p: Pool, q: Pool,
                  hit: nat, miss: nat)
    requires Chain(domains, |domains|, run, feed) && k < |domains| && Holds(run.states[k].pools, n, e, id)
    requires p == PoolOf(run.states[k].pools, e) && q == PoolOf(run.states[k + 1].pools, e)
    requires hit == TurnCall(domains, run, feed, id, true, k) && miss == TurnCall(domains, run, feed, id, false, k)
    ensures Grown(p, q, id, hit, miss)
  {
    TurnGrowsAt(domains, run, feed, n, e, id, k);
  }

  lemma PoolsGrow(domains: seq<string>, run: Trace, feed: Feed, n: nat, e: string, id: nat, at: nat -> Pool,
                  hits: nat -> nat, misses: nat -> nat)
    requires Chain(domains, |domains|, run, feed) && Holds(run.states[0].pools, n, e, id)
    requires at == PoolsInTick(run, e)
    requires hits == TurnCalls(domains, run, feed, id, true) && misses == TurnCalls(domains, run, feed, id, false)
    ensures forall j: nat :: j < |domains| ==> Grown(at(j), at(j + 1), id, hits(j), misses(j))
  {
    forall j: nat | j < |domains| ensures Grown(at(j), at(j + 1), id, hits(j), misses(j)) {
      TickHolds(domains, run, feed, n, e, id, j);
      PoolGrows(domains, run, feed, n, e, id, j, at(j), at(j + 1), hits(j), misses(j));
    }
  }

  /** Over a tick the gene answers and throws as often as it is called. */
  lemma TickGrows(domains: seq<string>, run: Trace, feed: Feed, n: nat, e: string, id: nat)
    requires Chain(domains, |domains|, run, feed) && Holds(run.states[0].pools, n, e, id)
    ensures Holds(run.states[|domains|].pools, n, e, id)
    ensures Grown(run.states[0].pools[e], run.states[|domains|].pools[e], id,
                  TickCalls(domains, run, feed, id, true), TickCalls(domains, run, feed, id, false))
  {
    var at := PoolsInTick(run, e);
    var hits, misses := TurnCalls(domains, run, feed, id, true), TurnCalls(domains, run, feed, id, false);
    PoolsGrow(domains, run, feed, n, e, id, at, hits, misses);
    assert at(0) == run.states[0].pools[e];
    GrownBySum(at, id, |domains|, hits, misses);
    TickHolds(domains, run, feed, n, e, id, |domains|);
  }

  /** How often the gene was called in tick i of a run, and ended in this way. */
  ghost function RunCalls(domains: seq<string>, runs: seq<Trace>, feeds: seq<Feed>, id: nat, success: bool): nat -> nat
  {
    (i: nat) => if i < |runs| && i < |feeds| then TickCalls(domains, runs[i], feeds[i], id, success) else 0
  }

  /** How often the gene was called in the first n ticks, for whichever domain, and ended in this way. */
  ghost function Calls(domains: seq<string>, runs: seq<Trace>, feeds: seq<Feed>, id: nat, success: bool, n: nat): nat
  {
    SumOf(n, RunCalls(domains, runs, feeds, id, success))
  }

  /** Tick i of a run. */
  lemma TickGrowsAt(domains: seq<string>, start: State, runs: seq<Trace>, feeds: seq<Feed>, n: nat, e: string,
                    id: nat, i: nat)
    requires IsRun(domains, start, runs, feeds) && i < |runs| && Holds(StateAfter(start, runs, i).pools, n, e, id)
    ensures Holds(StateAfter(start, runs, i + 1).pools, n, e, id)
    ensures Grown(StateAfter(start, runs, i).pools[e], StateAfter(start, runs, i + 1).pools[e], id,
                  RunCalls(domains, runs, feeds, id, true)(i), RunCalls(domains, runs, feeds, id, false)(i))
  {
    assert IsTick(domains, start, runs, i, feeds[i]);
    TickGrows(domains, runs[i], feeds[i], n, e, id);
  }

  lemma TickHoldsAt(domains: seq<string>, start: State, runs: seq<Trace>, feeds: seq<Feed>, n: nat, e: string, id: nat,
                    i: nat)
    requires IsRun(domains, start, runs, feeds) && i < |runs| && Holds(StateAfter(start, runs, i).pools, n, e, id)
    ensures Holds(StateAfter(start, runs, i + 1).pools, n, e, id)
  {
    TickGrowsAt(domains, start, runs, feeds, n, e, id, i);
  }

  lemma {:induction false} RunHolds(domains: seq<string>, start: State, runs: seq<Trace>, feeds: seq<Feed>,
                                    registered: nat, e: string, id: nat, n: nat)
    requires IsRun(domains, start, runs, feeds) && n <= |runs| && Holds(start.pools, registered, e, id)
    ensures Holds(StateAfter(start, runs, n).pools, registered, e, id)
  {
    if n > 0 {
      RunHolds(domains, start, runs, feeds, registered, e, id, n - 1);
      TickHoldsAt(domains, start, runs, feeds, registered, e, id, n - 1);
    }
  }

  /** Pool e after i ticks of a run. */
  ghost function PoolsInRun(start: State, runs: seq<Trace>, e: string): nat -> Pool
  {
    (i: nat) => if i <= |runs| then PoolOf(StateAfter(start, runs, i).pools, e) else []
  }

  /**
   * Over any run of ticks every pool keeps its genes, their fitness stays in [0, 1], and of each gene
   * the successes and failures grow by exactly the calls in which it answered or threw. Its fitness
   * is at most 0.05 higher for each answer and 0.15 lower for each failure, and exactly that where the
   * bounds 0 and 1 are out of reach.
   */
  lemma RunCounts(domains: seq<string>, start: State, runs: seq<Trace>, feeds: seq<Feed>, registered: nat, e: string,
                  id: nat, n: nat)
    requires IsRun(domains, start, runs, feeds) && n <= |runs| && Holds(start.pools, registered, e, id)
    ensures var pools := StateAfter(start, runs, n).pools;
            && Holds(pools, registered, e, id)
            && Grown(start.pools[e], pools[e], id,
                     Calls(domains, runs, feeds, id, true, n), Calls(domains, runs, feeds, id, false, n))
  {
    var at := PoolsInRun(start, runs, e);
    var hits, misses := RunCalls(domains, runs, feeds, id, true), RunCalls(domains, runs, feeds, id, false);
    forall j: nat | j < n ensures Grown(at(j), at(j + 1), id, hits(j), misses(j)) {
      RunHolds(domains, start, runs, feeds, registered, e, id, j);
      TickGrowsAt(domains, start, runs, feeds, registered, e, id, j);
    }
    assert at(0) == start.pools[e];
    GrownBySum(at, id, n, hits, misses);
    RunHolds(domains, start, runs, feeds, registered, e, id, n);
  }
}
