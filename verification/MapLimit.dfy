/** The bounded parallel map of src/commands/arena-audit.ts. */
module MapLimit {
  import opened Common

  /**
   * One runner between two of its steps: about to take `next++`, waiting for the worker
   * on item i, returned, or stopped by the worker's rejection on item i.
   */
  datatype Runner = Ready | Awaiting(i: nat) | Returned | Rejected(i: nat)

  /** The cursor and the result slots the runners share; `calls` logs the worker calls. */
  datatype State<R> = State(next: nat, results: seq<Option<R>>, runners: seq<Runner>, calls: seq<nat>)

  /** What the worker answers for each item; None is a rejection. */
  type Answers<R> = seq<Option<R>>

  function RunnerCount(limit: int, n: nat): nat
  {
    if limit < 0 then 0 else if limit < n then limit else n
  }

  function Init<R>(n: nat, limit: int): State<R>
  {
    State(0, seq(n, _ => None), seq(RunnerCount(limit, n), _ => Ready), [])
  }

  // ---- The steps ----------------------------------------------------------------

  /** `const i = next++`, then either return or call the worker on item i. */
  function Fetch<R>(s: State<R>, r: nat): State<R>
    requires r < |s.runners|
  {
    if s.next >= |s.results| then s.(next := s.next + 1, runners := s.runners[r := Returned])
    else s.(next := s.next + 1, runners := s.runners[r := Awaiting(s.next)], calls := s.calls + [s.next])
  }

  /** The awaited worker settles: its value is stored, or the runner stops. */
  function Settle<R>(a: Answers<R>, s: State<R>, r: nat): State<R>
    requires r < |s.runners| && s.runners[r].Awaiting? && s.runners[r].i < |s.results| == |a|
  {
    var i := s.runners[r].i;
    if a[i].Some? then s.(results := s.results[i := a[i]], runners := s.runners[r := Ready])
    else s.(runners := s.runners[r := Rejected(i)])
  }

  /** Any runner may take the next step. */
  ghost predicate Step<R>(a: Answers<R>, s: State<R>, t: State<R>)
  {
    exists r: nat :: r < |s.runners| && StepOf(a, s, r, t)
  }

  ghost predicate StepOf<R>(a: Answers<R>, s: State<R>, r: nat, t: State<R>)
    requires r < |s.runners|
  {
    match s.runners[r]
    case Ready => t == Fetch(s, r)
    case Awaiting(i) => i < |s.results| == |a| && t == Settle(a, s, r)
    case Returned => false
    case Rejected(_) => false
  }

  /** A run from the start, each state a step of the one before. */
  ghost predicate Run<R>(a: Answers<R>, limit: int, states: seq<State<R>>)
  {
    && |states| > 0 && states[0] == Init(|a|, limit)
    && forall k :: 0 < k < |states| ==> Step(a, states[k - 1], states[k])
  }

  predicate Finished<R>(s: State<R>)
  {
    forall r :: 0 <= r < |s.runners| ==> s.runners[r].Returned? || s.runners[r].Rejected?
  }

  /** `Promise.all` resolves: every runner has returned. */
  predicate Resolved<R>(s: State<R>)
  {
    forall r :: 0 <= r < |s.runners| ==> s.runners[r].Returned?
  }

  // ---- The invariant ------------------------------------------------------------

  /** Item i is with runner r, which is waiting for it or was stopped by it. */
  predicate Holds(q: Runner, i: nat)
  {
    (q.Awaiting? || q.Rejected?) && q.i == i
  }

  /** Item i is finished with its answer, or held by some runner. */
  ghost predicate HandedOut<R>(a: Answers<R>, s: State<R>, i: nat)
    requires i < |s.results| == |a|
  {
    s.results[i].Some? || exists r :: 0 <= r < |s.runners| && Holds(s.runners[r], i)
  }

  ghost predicate Shape<R>(a: Answers<R>, limit: int, s: State<R>)
  {
    && |s.results| == |a| && |s.runners| == RunnerCount(limit, |a|)
    && (forall i :: 0 <= i < |a| ==> s.results[i] == None || (i < s.next && s.results[i] == a[i]))
    && (forall r :: 0 <= r < |s.runners| && s.runners[r].Returned? ==> s.next >= |a|)
  }

  /** A runner that holds an item holds one that was taken and has no result. */
  ghost predicate HolderOk<R>(a: Answers<R>, s: State<R>, q: Runner)
    requires |s.results| == |a|
  {
    q.Awaiting? || q.Rejected? ==>
      q.i < s.next && q.i < |a| && s.results[q.i] == None && (q.Rejected? ==> a[q.i] == None)
  }

  predicate SameItem(p: Runner, q: Runner)
  {
    (p.Awaiting? || p.Rejected?) && (q.Awaiting? || q.Rejected?) && p.i == q.i
  }

  /** Every item taken so far has exactly one holder or a result, and those not taken have neither. */
  ghost predicate Ownership<R>(a: Answers<R>, s: State<R>)
    requires |s.results| == |a|
  {
    && (forall r :: 0 <= r < |s.runners| ==> HolderOk(a, s, s.runners[r]))
    && (forall r, q :: 0 <= r < q < |s.runners| ==> !SameItem(s.runners[r], s.runners[q]))
    && (forall i :: 0 <= i < |a| && i < s.next ==> HandedOut(a, s, i))
  }

  function Min(a: nat, b: nat): nat { if a < b then a else b }

  /** The worker is called on item 0, then 1, and so on, once each. */
  ghost predicate InOrder<R>(s: State<R>)
  {
    s.calls == seq(Min(s.next, |s.results|), i => i)
  }

  ghost predicate Inv<R>(a: Answers<R>, limit: int, s: State<R>)
  {
    Shape(a, limit, s) && Ownership(a, s) && InOrder(s)
  }

  lemma FetchKeepsInv<R>(a: Answers<R>, limit: int, s: State<R>, r: nat)
    requires Inv(a, limit, s) && r < |s.runners| && s.runners[r].Ready?
    ensures Inv(a, limit, Fetch(s, r))
  {
    var t := Fetch(s, r);
    forall i | 0 <= i < |a| && i < t.next ensures HandedOut(a, t, i) {
      if i < s.next {
        assert HandedOut(a, s, i);
        if !s.results[i].Some? {
          var q :| 0 <= q < |s.runners| && Holds(s.runners[q], i);
          assert Holds(t.runners[q], i);
        }
      } else {
        assert Holds(t.runners[r], i);
      }
    }
    assert InOrder(t) by {
      assert s.next < |a| ==> t.calls == s.calls + [s.next];
    }
  }

  lemma SettleKeepsInv<R>(a: Answers<R>, limit: int, s: State<R>, r: nat)
    requires Inv(a, limit, s) && r < |s.runners| && s.runners[r].Awaiting? && s.runners[r].i < |a|
    ensures Inv(a, limit, Settle(a, s, r))
  {
    var t, j := Settle(a, s, r), s.runners[r].i;
    assert HolderOk(a, s, s.runners[r]);
    forall q | 0 <= q < |t.runners| && q != r ensures HolderOk(a, t, t.runners[q]) {
      assert HolderOk(a, s, s.runners[q]);
      assert !SameItem(s.runners[if q < r then q else r], s.runners[if q < r then r else q]);
    }
    forall i | 0 <= i < |a| && i < t.next ensures HandedOut(a, t, i) {
      assert HandedOut(a, s, i);
      if !s.results[i].Some? {
        var q :| 0 <= q < |s.runners| && Holds(s.runners[q], i);
        assert i == j || Holds(t.runners[q], i);
        assert a[j].None? ==> Holds(t.runners[r], j);
      }
    }
  }

  lemma StepKeepsInv<R>(a: Answers<R>, limit: int, s: State<R>, t: State<R>)
    requires Inv(a, limit, s) && Step(a, s, t)
    ensures Inv(a, limit, t)
  {
    var r: nat :| r < |s.runners| && StepOf(a, s, r, t);
    if s.runners[r].Ready? {
      FetchKeepsInv(a, limit, s, r);
    } else {
      SettleKeepsInv(a, limit, s, r);
    }
  }

  /** Every state of every run keeps the invariant. */
  lemma {:induction false} RunKeepsInv<R>(a: Answers<R>, limit: int, states: seq<State<R>>)
    requires Run(a, limit, states)
    ensures Inv(a, limit, states[|states| - 1])
  {
    var n := |states| - 1;
    if n > 0 {
      RunKeepsInv(a, limit, states[..n]);
      StepKeepsInv(a, limit, states[n - 1], states[n]);
    }
  }

  // ---- Worker calls in flight ---------------------------------------------------

  /** The runners whose worker call has not settled. */
  function InFlight(runners: seq<Runner>): set<int>
  {
    set r | 0 <= r < |runners| && runners[r].Awaiting?
  }

  lemma {:induction false} BelowSize(s: set<int>, n: nat)
    requires forall r: int :: r in s ==> 0 <= r < n
    ensures |s| <= n
  {
    if n == 0 {
      assert forall r: int :: r !in s;
    } else {
      BelowSize(s - {n - 1}, n - 1);
    }
  }

  /** After the first k runners have taken an item each. */
  function Busy<R>(n: nat, runners: nat, k: nat): State<R>
    requires k <= runners <= n
  {
    State(k, seq(n, _ => None), seq(runners, r requires r >= 0 => if r < k then Awaiting(r) else Ready), seq(k, i => i))
  }

  lemma BusyStep<R>(a: Answers<R>, runners: nat, k: nat)
    requires k < runners <= |a|
    ensures Step(a, Busy(|a|, runners, k), Busy(|a|, runners, k + 1))
  {
    var s: State<R>, t: State<R> := Busy(|a|, runners, k), Busy(|a|, runners, k + 1);
    assert t.runners == s.runners[k := Awaiting(k)];
    assert t.calls == s.calls + [k];
    assert StepOf(a, s, k, t);
  }

  lemma RunGrows<R>(a: Answers<R>, limit: int, states: seq<State<R>>, t: State<R>)
    requires Run(a, limit, states) && Step(a, states[|states| - 1], t)
    ensures Run(a, limit, states + [t])
  {
    var more := states + [t];
    forall k | 0 < k < |more| ensures Step(a, more[k - 1], more[k]) {
      if k < |states| {
        assert Step(a, states[k - 1], states[k]);
      }
    }
  }

  lemma NoneBusy<R>(n: nat, limit: int)
    ensures Init<R>(n, limit) == Busy(n, RunnerCount(limit, n), 0)
    ensures InFlight(Init<R>(n, limit).runners) == {}
  {
    assert Init<R>(n, limit).calls == seq(0, i => i);
    assert Init<R>(n, limit).runners == Busy<R>(n, RunnerCount(limit, n), 0).runners;
  }

  lemma OneMoreBusy<R>(n: nat, runners: nat, k: nat)
    requires k < runners <= n
    ensures |InFlight(Busy<R>(n, runners, k + 1).runners)| == |InFlight(Busy<R>(n, runners, k).runners)| + 1
  {
    var s, t := InFlight(Busy<R>(n, runners, k).runners), InFlight(Busy<R>(n, runners, k + 1).runners);
    assert t == s + {k as int};
  }

  /** The limit can be used to the full: a run exists with this many calls in flight. */
  lemma {:induction false} LimitIsReached<R>(a: Answers<R>, limit: int, k: nat) returns (states: seq<State<R>>)
    requires k <= limit && k <= |a|
    ensures Run(a, limit, states) && |InFlight(states[|states| - 1].runners)| == k
    ensures states[|states| - 1] == Busy(|a|, RunnerCount(limit, |a|), k)
  {
    var runners := RunnerCount(limit, |a|);
    if k == 0 {
      NoneBusy<R>(|a|, limit);
      states := [Init(|a|, limit)];
    } else {
      var before := LimitIsReached(a, limit, k - 1);
      BusyStep(a, runners, k - 1);
      OneMoreBusy<R>(|a|, runners, k - 1);
      RunGrows(a, limit, before, Busy(|a|, runners, k));
      states := before + [Busy(|a|, runners, k)];
    }
  }

  // ---- Termination --------------------------------------------------------------

  function Weight(runners: seq<Runner>): nat
  {
    if runners == [] then 0
    else Weight(runners[1..]) + match runners[0] case Ready => 1 case Awaiting(_) => 2 case _ => 0
  }

  function StepsLeft<R>(s: State<R>): nat
  {
    3 * (|s.results| - Min(s.next, |s.results|)) + Weight(s.runners)
  }

  lemma {:induction false} WeightUpdate(runners: seq<Runner>, r: nat, q: Runner)
    requires r < |runners|
    ensures Weight(runners[r := q]) == Weight(runners) - Weight([runners[r]]) + Weight([q])
  {
    if r > 0 {
      WeightUpdate(runners[1..], r - 1, q);
      assert runners[r := q][1..] == runners[1..][r - 1 := q];
    } else {
      assert runners[r := q][1..] == runners[1..];
    }
  }

  lemma StepDecreases<R>(a: Answers<R>, s: State<R>, t: State<R>)
    requires Step(a, s, t)
    ensures StepsLeft(t) < StepsLeft(s)
  {
    var r: nat :| r < |s.runners| && StepOf(a, s, r, t);
    WeightUpdate(s.runners, r, t.runners[r]);
  }

  lemma {:induction false} RunIsBounded<R>(a: Answers<R>, limit: int, states: seq<State<R>>)
    requires Run(a, limit, states)
    ensures |states| - 1 + StepsLeft(states[|states| - 1]) <= StepsLeft(states[0])
  {
    var n := |states| - 1;
    if n > 0 {
      RunIsBounded(a, limit, states[..n]);
      StepDecreases(a, states[n - 1], states[n]);
    }
  }

  lemma {:induction false} InitialWeight(k: nat)
    ensures Weight(seq(k, _ => Ready)) == k
  {
    if k > 0 {
      InitialWeight(k - 1);
      assert seq(k, _ => Ready)[1..] == seq(k - 1, _ => Ready);
    }
  }

  // ---- The theorem --------------------------------------------------------------

  /**
   * At every point of every interleaving: the worker has been called on the first items in
   * order, once each; at most min(limit, n) calls are in flight; the run can go on until
   * all runners have stopped, and does so within 3n + min(limit, n) steps.
   */
  lemma EveryInterleaving<R>(a: Answers<R>, limit: int, states: seq<State<R>>)
    requires Run(a, limit, states)
    ensures var s := states[|states| - 1];
            && s.calls == seq(Min(s.next, |a|), i => i)
            && |InFlight(s.runners)| <= |a| && (limit >= 0 ==> |InFlight(s.runners)| <= limit)
            && (Finished(s) || exists t :: Step(a, s, t))
            && |states| <= 4 * |a| + 1 && (limit >= 0 ==> |states| <= 3 * |a| + limit + 1)
  {
    var s := states[|states| - 1];
    RunKeepsInv(a, limit, states);
    RunIsBounded(a, limit, states);
    InitialWeight(RunnerCount(limit, |a|));
    BelowSize(InFlight(s.runners), |s.runners|);
    if !Finished(s) {
      var r :| 0 <= r < |s.runners| && !s.runners[r].Returned? && !s.runners[r].Rejected?;
      if s.runners[r].Ready? {
        assert StepOf(a, s, r, Fetch(s, r));
        assert Step(a, s, Fetch(s, r));
      } else {
        assert HolderOk(a, s, s.runners[r]);
        assert StepOf(a, s, r, Settle(a, s, r));
        assert Step(a, s, Settle(a, s, r));
      }
    }
  }

  /**
   * When all runners have stopped: the map resolves exactly when the worker rejected no
   * item, and then slot i holds the answer for item i, for every i.
   */
  lemma FinishedResults<R>(a: Answers<R>, limit: int, states: seq<State<R>>)
    requires limit >= 1 && Run(a, limit, states) && Finished(states[|states| - 1])
    ensures var s := states[|states| - 1];
            && (Resolved(s) <==> forall i :: 0 <= i < |a| ==> a[i].Some?)
            && (Resolved(s) ==> s.results == a)
  {
    var s := states[|states| - 1];
    RunKeepsInv(a, limit, states);
    if Resolved(s) {
      forall i | 0 <= i < |a| ensures s.results[i] == a[i] && a[i].Some? {
        assert s.runners[0].Returned?;
        assert HandedOut(a, s, i);
      }
    } else {
      var r :| 0 <= r < |s.runners| && !s.runners[r].Returned?;
      assert HolderOk(a, s, s.runners[r]);
    }
  }

  /** A limit below 1 starts no runner: the map resolves at once with every slot empty. */
  lemma NoRunners<R>(a: Answers<R>, limit: int, states: seq<State<R>>)
    requires limit < 1 && Run(a, limit, states)
    ensures |states| == 1 && Resolved(states[0])
    ensures states[0].results == a <==> a == seq(|a|, _ => None)
  {
    assert states[0].runners == [];
    assert |states| > 1 ==> Step(a, states[0], states[1]);
  }
}
