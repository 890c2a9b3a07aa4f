/** What the smart compiler optimises.

    A plan names for every row the row it is derived from, or -1 for none. Building a row from scratch
    costs its number of ones; deriving it costs one copy and a fixup for every difference. A plan
    without cycles is a spanning tree of the rows and a root standing for "no row". The compiler grows
    such a tree greedily, always taking the cheapest row next, and no plan is cheaper than its result. */
module SpanningPlans {
  import opened Schedules

  function Weight(cols: nat, B: seq<seq<bool>>, f: int, i: nat): nat
    requires IsBitmatrix(B, |B|, cols) && -1 <= f < |B| && i < |B|
  {
    if f == -1 then Ones(B[i], cols) else 1 + Distance(B[f], B[i], cols)
  }

  ghost predicate IsPlan(B: seq<seq<bool>>, par: seq<int>) {
    |par| == |B| && forall i | 0 <= i < |par| :: -1 <= par[i] < |B|
  }

  // Restricted to the open rows the plan has no cycle: every step to an open parent lowers the rank.
  ghost predicate Ranked(par: seq<int>, rank: seq<nat>, open: set<nat>) {
    && |rank| == |par|
    && forall i | i in open :: i < |par| && (par[i] in open ==> 0 <= par[i] < |par| && rank[par[i]] < rank[i])
  }

  ghost predicate Acyclic(par: seq<int>) {
    exists rank: seq<nat> :: Ranked(par, rank, AllRows(|par|))
  }

  // The cost of the open rows among the first n.
  ghost function Cost(cols: nat, B: seq<seq<bool>>, par: seq<int>, open: set<nat>, n: nat): nat
    requires IsBitmatrix(B, |B|, cols) && IsPlan(B, par) && n <= |B|
  {
    if n == 0 then 0 else
      Cost(cols, B, par, open, n - 1) + if n - 1 in open then Weight(cols, B, par[n - 1], n - 1) else 0
  }

  ghost function PlanCost(cols: nat, B: seq<seq<bool>>, par: seq<int>): nat
    requires IsBitmatrix(B, |B|, cols) && IsPlan(B, par)
  {
    Cost(cols, B, par, AllRows(|B|), |B|)
  }

  lemma DistanceSymmetric(a: seq<bool>, b: seq<bool>, n: nat)
    requires n <= |a| && n <= |b|
    ensures Distance(a, b, n) == Distance(b, a, n)
  {
  }

  lemma CostWithout(cols: nat, B: seq<seq<bool>>, par: seq<int>, open: set<nat>, n: nat, v: nat)
    requires IsBitmatrix(B, |B|, cols) && IsPlan(B, par) && n <= |B| && v in open && v < |B|
    ensures Cost(cols, B, par, open, n) ==
      Cost(cols, B, par, open - {v}, n) + if v < n then Weight(cols, B, par[v], v) else 0
  {
  }

  lemma CostIgnoresClosed(cols: nat, B: seq<seq<bool>>, par: seq<int>, open: set<nat>, n: nat, u: nat, f: int)
    requires IsBitmatrix(B, |B|, cols) && IsPlan(B, par) && n <= |B| && u !in open && u < |B| && -1 <= f < |B|
    ensures Cost(cols, B, par[u := f], open, n) == Cost(cols, B, par, open, n)
  {
    if n > 0 {
      CostIgnoresClosed(cols, B, par, open, n - 1, u, f);
    }
  }

  // Every edge from an open row to a closed row or to the root weighs at least d.
  ghost predicate Crossing(cols: nat, B: seq<seq<bool>>, open: set<nat>, d: nat)
    requires IsBitmatrix(B, |B|, cols)
  {
    forall f: int, u: nat | -1 <= f < |B| && u < |B| && f !in open && u in open :: d <= Weight(cols, B, f, u)
  }

  /** The exchange step: any plan for the open rows can be turned around so that it hangs from v, and
      the edge by which v's chain left the open rows pays for d. */
  lemma Reroot(cols: nat, B: seq<seq<bool>>, par: seq<int>, rank: seq<nat>, open: set<nat>, v: nat, d: nat)
    returns (par': seq<int>, rank': seq<nat>)
    requires IsBitmatrix(B, |B|, cols) && IsPlan(B, par) && Ranked(par, rank, open)
    requires v in open && Crossing(cols, B, open, d)
    ensures IsPlan(B, par') && Ranked(par', rank', open - {v})
    ensures Cost(cols, B, par', open - {v}, |B|) + d <= Cost(cols, B, par, open, |B|)
    ensures forall x | 0 <= x < |B| && rank[x] >= rank[v] && x != v :: par'[x] == par[x]
    decreases rank[v]
  {
    var u := par[v];
    CostWithout(cols, B, par, open, |B|, v);
    if u !in open {
      par', rank' := par, rank;
    } else {
      var par1, rank1 := Reroot(cols, B, par, rank, open, u, d);
      assert par1[v] == u;
      par' := par1[u := v];
      rank' := seq(|B|, x requires 0 <= x < |B| => if x == u then 0 else rank1[x] + 1);
      var rest := open - {u} - {v};
      assert open - {v} - {u} == rest;
      CostWithout(cols, B, par1, open - {u}, |B|, v);
      CostWithout(cols, B, par', open - {v}, |B|, u);
      CostIgnoresClosed(cols, B, par1, rest, |B|, u, v);
      DistanceSymmetric(B[u], B[v], cols);
    }
  }

  // Some plan for the open rows brings the total to no more than the given plan costs.
  ghost predicate Completable(cols: nat, B: seq<seq<bool>>, spent: nat, open: set<nat>, par0: seq<int>)
    requires IsBitmatrix(B, |B|, cols) && IsPlan(B, par0)
  {
    exists par, rank :: IsPlan(B, par) && Ranked(par, rank, open) &&
      spent + Cost(cols, B, par, open, |B|) <= PlanCost(cols, B, par0)
  }

  ghost predicate NoBetterPlan(cols: nat, B: seq<seq<bool>>, spent: nat, open: set<nat>)
    requires IsBitmatrix(B, |B|, cols)
  {
    forall par0 | IsPlan(B, par0) && Acyclic(par0) :: Completable(cols, B, spent, open, par0)
  }

  lemma PlansStart(cols: nat, B: seq<seq<bool>>)
    requires IsBitmatrix(B, |B|, cols)
    ensures NoBetterPlan(cols, B, 0, AllRows(|B|))
  {
    forall par0 | IsPlan(B, par0) && Acyclic(par0)
      ensures Completable(cols, B, 0, AllRows(|B|), par0)
    {
      var rank: seq<nat> :| Ranked(par0, rank, AllRows(|par0|));
      assert 0 + Cost(cols, B, par0, AllRows(|B|), |B|) <= PlanCost(cols, B, par0);
    }
  }

  // Taking the row with the cheapest edge leaves no plan behind.
  lemma PlansStep(cols: nat, B: seq<seq<bool>>, spent: nat, open: set<nat>, v: nat, d: nat)
    requires IsBitmatrix(B, |B|, cols) && NoBetterPlan(cols, B, spent, open)
    requires v in open && v < |B| && Crossing(cols, B, open, d)
    ensures NoBetterPlan(cols, B, spent + d, open - {v})
  {
    forall par0 | IsPlan(B, par0) && Acyclic(par0)
      ensures Completable(cols, B, spent + d, open - {v}, par0)
    {
      assert Completable(cols, B, spent, open, par0);
      var par, rank :| IsPlan(B, par) && Ranked(par, rank, open) &&
        spent + Cost(cols, B, par, open, |B|) <= PlanCost(cols, B, par0);
      var par', rank' := Reroot(cols, B, par, rank, open, v, d);
    }
  }

  lemma PlansEnd(cols: nat, B: seq<seq<bool>>, spent: nat, par0: seq<int>)
    requires IsBitmatrix(B, |B|, cols) && NoBetterPlan(cols, B, spent, {})
    requires IsPlan(B, par0) && Acyclic(par0)
    ensures spent <= PlanCost(cols, B, par0)
  {
    assert Completable(cols, B, spent, {}, par0);
  }

  // Building every row from scratch is one of the plans.
  function ScratchPlan(n: nat): seq<int> { seq(n, i => -1) }

  ghost function TotalOnes(cols: nat, B: seq<seq<bool>>, n: nat): nat
    requires n <= |B| && IsBitmatrix(B, |B|, cols)
  {
    if n == 0 then 0 else TotalOnes(cols, B, n - 1) + Ones(B[n - 1], cols)
  }

  lemma ScratchPlanCost(cols: nat, B: seq<seq<bool>>, n: nat)
    requires IsBitmatrix(B, |B|, cols) && n <= |B|
    ensures IsPlan(B, ScratchPlan(|B|)) && Acyclic(ScratchPlan(|B|))
    ensures Cost(cols, B, ScratchPlan(|B|), AllRows(|B|), n) == TotalOnes(cols, B, n)
  {
    if n > 0 {
      ScratchPlanCost(cols, B, n - 1);
    }
    var rank := seq(|B|, i => 0);
    assert Ranked(ScratchPlan(|B|), rank, AllRows(|B|));
  }

  lemma TotalOnesBound(cols: nat, B: seq<seq<bool>>, n: nat)
    requires n <= |B| && IsBitmatrix(B, |B|, cols)
    ensures TotalOnes(cols, B, n) <= n * cols
  {
    if n > 0 {
      TotalOnesBound(cols, B, n - 1);
      assert n * cols == (n - 1) * cols + cols;
    }
  }

  lemma SpentBound(cols: nat, B: seq<seq<bool>>, spent: nat, open: set<nat>)
    requires IsBitmatrix(B, |B|, cols) && NoBetterPlan(cols, B, spent, open)
    ensures spent <= TotalOnes(cols, B, |B|)
  {
    ScratchPlanCost(cols, B, |B|);
    assert Completable(cols, B, spent, open, ScratchPlan(|B|));
  }
}
