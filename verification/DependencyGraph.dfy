/** Dependency graphs over image names: paths, cycles, reachability, and the facts a depth-first
    check and a worklist closure need. */
module DependencyGraph {
  import opened Basics

  datatype Graph = Graph(succ: map<string, seq<string>>)

  function Succ(g: Graph, n: string): seq<string> {
    if n in g.succ then g.succ[n] else []
  }

  /** `m` is reached from `n` over exactly `k` dependencies. */
  ghost predicate Reach(g: Graph, n: string, m: string, k: nat)
    decreases k
  {
    if k == 0 then n == m else exists x :: x in Succ(g, n) && Reach(g, x, m, k - 1)
  }

  ghost predicate Cyclic(g: Graph) {
    exists n, k: nat :: k > 0 && Reach(g, n, n, k)
  }

  ghost predicate Reachable(g: Graph, roots: set<string>, m: string) {
    exists r, k :: r in roots && Reach(g, r, m, k)
  }

  ghost predicate Linked(g: Graph, p: seq<string>, i: int)
    requires 0 < i < |p|
  {
    p[i] in Succ(g, p[i - 1]) && p[i] in g.succ
  }

  /** A list of names, each depending on the next. */
  ghost predicate IsPath(g: Graph, p: seq<string>) {
    p != [] && p[0] in g.succ && forall i :: 0 < i < |p| ==> Linked(g, p, i)
  }

  /** A dependency path whose last name occurs in it before. */
  ghost predicate IsLoop(g: Graph, p: seq<string>) {
    IsPath(g, p) && p[|p| - 1] in p[..|p| - 1]
  }

  lemma PathAppend(g: Graph, p: seq<string>, n: string)
    requires IsPath(g, p) && n in g.succ && n in Succ(g, p[|p| - 1])
    ensures IsPath(g, p + [n])
  {
    forall i | 0 < i < |p + [n]| ensures Linked(g, p + [n], i) {
      assert i < |p| ==> Linked(g, p, i);
    }
  }

  lemma {:induction false} PathReach(g: Graph, p: seq<string>, i: nat)
    requires IsPath(g, p) && i < |p|
    ensures Reach(g, p[i], p[|p| - 1], |p| - 1 - i)
    decreases |p| - i
  {
    if i < |p| - 1 {
      assert Linked(g, p, i + 1);
      PathReach(g, p, i + 1);
    }
  }

  lemma PathEnd(g: Graph, p: seq<string>)
    requires IsPath(g, p)
    ensures p[|p| - 1] in g.succ
  {
    if |p| > 1 { assert Linked(g, p, |p| - 1); }
  }

  lemma LoopIsCycle(g: Graph, p: seq<string>)
    requires IsLoop(g, p)
    ensures Cyclic(g)
  {
    var i :| 0 <= i < |p| - 1 && p[i] == p[|p| - 1];
    PathReach(g, p, i);
  }

  lemma {:induction false} ReachAppend(g: Graph, n: string, m: string, k: nat, x: string)
    requires Reach(g, n, m, k) && x in Succ(g, m)
    ensures Reach(g, n, x, k + 1)
    decreases k
  {
    if k == 0 {
      assert Reach(g, x, x, 0);
    } else {
      var y :| y in Succ(g, n) && Reach(g, y, m, k - 1);
      ReachAppend(g, y, m, k - 1, x);
    }
  }

  ghost predicate Closed(g: Graph, s: set<string>) {
    forall n, m :: n in s && m in Succ(g, n) ==> m in s
  }

  lemma {:induction false} ClosedKeeps(g: Graph, s: set<string>, n: string, m: string, k: nat)
    requires Closed(g, s) && n in s && Reach(g, n, m, k)
    ensures m in s
    decreases k
  {
    if k > 0 {
      var x :| x in Succ(g, n) && Reach(g, x, m, k - 1);
      ClosedKeeps(g, s, x, m, k - 1);
    }
  }

  /** Names whose whole dependency subgraph is known to hold no cycle. */
  ghost predicate Settled(g: Graph, s: set<string>) {
    Closed(g, s) && forall n, k: nat :: n in s && k > 0 ==> !Reach(g, n, n, k)
  }

  lemma SettledAdd(g: Graph, s: set<string>, n: string)
    requires Settled(g, s) && n !in s && forall m :: m in Succ(g, n) ==> m in s
    ensures Settled(g, s + {n})
  {
    forall k: nat | k > 0 ensures !Reach(g, n, n, k) {
      if Reach(g, n, n, k) {
        var x :| x in Succ(g, n) && Reach(g, x, n, k - 1);
        ClosedKeeps(g, s, x, n, k - 1);
        assert false;
      }
    }
  }

  lemma SettledAcyclic(g: Graph, s: set<string>)
    requires Settled(g, s) && g.succ.Keys <= s
    ensures !Cyclic(g)
  {
    forall n, k: nat | k > 0 ensures !Reach(g, n, n, k) {
      if n !in s { assert Succ(g, n) == []; }
    }
  }

  /** A closed set holding the roots, all of it reachable, is the reachable set. */
  lemma ClosureExact(g: Graph, roots: set<string>, s: set<string>, m: string)
    requires Closed(g, s) && roots <= s && forall n :: n in s ==> Reachable(g, roots, n)
    ensures m in s <==> Reachable(g, roots, m)
  {
    if Reachable(g, roots, m) {
      var r, k :| r in roots && Reach(g, r, m, k);
      ClosedKeeps(g, s, r, m, k);
    }
  }

  // ---- The worklist measure: an entry queued while `u` nodes were unhandled counts for as much as
  // a full tree of depth `u` over the largest number of dependencies.

  function Weight(degree: nat, u: nat): nat
    decreases u
  {
    1 + degree * if u == 0 then 0 else Weight(degree, u - 1)
  }

  function TotalWeight(degree: nat, us: seq<nat>): nat
    decreases |us|
  {
    if us == [] then 0 else Weight(degree, us[0]) + TotalWeight(degree, us[1..])
  }

  lemma {:induction false} TotalWeightSplit(degree: nat, us: seq<nat>, vs: seq<nat>)
    ensures TotalWeight(degree, us + vs) == TotalWeight(degree, us) + TotalWeight(degree, vs)
    decreases |us|
  {
    if us == [] {
      assert us + vs == vs;
    } else {
      TotalWeightSplit(degree, us[1..], vs);
      assert (us + vs)[1..] == us[1..] + vs;
    }
  }

  lemma {:induction false} TotalWeightUniform(degree: nat, u: nat, us: seq<nat>)
    requires forall i :: 0 <= i < |us| ==> us[i] == u
    ensures TotalWeight(degree, us) == |us| * Weight(degree, u)
    decreases |us|
  {
    if us != [] {
      TotalWeightUniform(degree, u, us[1..]);
      var w := Weight(degree, u);
      assert w + (|us| - 1) * w == |us| * w;
    }
  }

  lemma {:induction false} WeightMonotone(degree: nat, u: nat, v: nat)
    requires u <= v
    ensures Weight(degree, u) <= Weight(degree, v)
    decreases v
  {
    if u < v {
      var below := if u == 0 then 0 else Weight(degree, u - 1);
      if u > 0 { WeightMonotone(degree, u - 1, v - 1); }
      MulMonotone(degree, below, Weight(degree, v - 1));
    }
  }

  lemma MulMonotone(d: nat, a: nat, b: nat)
    requires a <= b
    ensures d * a <= d * b
  {
  }

  /** Handling one entry and queueing at most `degree` entries that see fewer unhandled nodes makes
      the worklist lighter, even when the same node is queued many times. */
  lemma WorklistShrinks(degree: nat, us: seq<nat>, added: seq<nat>, u: nat)
    requires us != [] && u < us[0] && |added| <= degree
    requires forall i :: 0 <= i < |added| ==> added[i] == u
    ensures TotalWeight(degree, us[1..] + added) < TotalWeight(degree, us)
  {
    TotalWeightSplit(degree, us[1..], added);
    TotalWeightUniform(degree, u, added);
    WeightMonotone(degree, u, us[0] - 1);
    Fits(|added|, degree, Weight(degree, u), Weight(degree, us[0] - 1));
  }

  lemma Fits(a: nat, b: nat, v: nat, w: nat)
    requires a <= b && v <= w
    ensures a * v <= b * w
  {
    assert a * v <= b * v;
    assert b * v <= b * w;
  }

  lemma DegreeBound(g: Graph) returns (degree: nat)
    ensures forall n :: n in g.succ ==> |g.succ[n]| <= degree
  {
    degree := 0;
    var done: set<string> := {};
    while g.succ.Keys - done != {}
      invariant done <= g.succ.Keys
      invariant forall n :: n in done ==> |g.succ[n]| <= degree
      decreases g.succ.Keys - done
    {
      var n :| n in g.succ.Keys - done;
      done := done + {n};
      if degree < |g.succ[n]| { degree := |g.succ[n]|; }
    }
  }

  // ---- One round of the closure: a handled set, a worklist, and what both keep.

  ghost predicate Frontier(g: Graph, roots: set<string>, handled: set<string>, work: seq<string>) {
    && handled <= g.succ.Keys
    && (forall n :: n in work ==> n in g.succ)
    && (forall n :: n in handled || n in work ==> Reachable(g, roots, n))
    && (forall n, m :: n in handled && m in Succ(g, n) ==> m in handled || m in work)
    && (forall r :: r in roots ==> r in handled || r in work)
  }

  /** Handling the first entry: its dependencies not handled yet go to the back of the queue. */
  lemma FrontierStep(g: Graph, roots: set<string>, handled: set<string>, work: seq<string>, added: seq<string>)
    requires Frontier(g, roots, handled, work) && work != []
    requires forall m :: m in added <==> m in Succ(g, work[0]) && m !in handled + {work[0]}
    requires forall m :: m in added ==> m in g.succ
    ensures Frontier(g, roots, handled + {work[0]}, work[1..] + added)
  {
    var n := work[0];
    assert forall m :: m in work <==> m == n || m in work[1..];
    assert forall m :: m in work[1..] + added <==> m in work[1..] || m in added;
    forall m | m in added ensures Reachable(g, roots, m) {
      var r, k :| r in roots && Reach(g, r, n, k);
      ReachAppend(g, r, n, k, m);
    }
  }

  lemma FrontierDone(g: Graph, roots: set<string>, handled: set<string>)
    requires Frontier(g, roots, handled, [])
    ensures forall m :: m in handled <==> Reachable(g, roots, m)
  {
    forall m ensures m in handled <==> Reachable(g, roots, m) { ClosureExact(g, roots, handled, m); }
  }

  ghost function Pending(g: Graph, handled: set<string>): nat {
    |g.succ.Keys - handled|
  }

  /** `us[i]` bounds the nodes left unhandled once `work[i]` is. */
  ghost predicate Budgets(g: Graph, handled: set<string>, work: seq<string>, us: seq<nat>) {
    |us| == |work| && forall i :: 0 <= i < |work| ==> Pending(g, handled + {work[i]}) < us[i]
  }

  lemma PendingShrinks(g: Graph, handled: set<string>, n: string)
    requires n in g.succ && n !in handled
    ensures Pending(g, handled + {n}) < Pending(g, handled)
  {
    assert g.succ.Keys - (handled + {n}) == (g.succ.Keys - handled) - {n};
  }

  lemma PendingMonotone(g: Graph, less: set<string>, more: set<string>)
    requires less <= more
    ensures Pending(g, more) <= Pending(g, less)
  {
    SubsetSize(g.succ.Keys - more, g.succ.Keys - less);
  }

  /** A queued name was not handled when it was queued, so by the time it is, fewer are left. */
  lemma BudgetsStep(g: Graph, handled: set<string>, work: seq<string>, us: seq<nat>, added: seq<string>)
    returns (us': seq<nat>)
    requires Budgets(g, handled, work, us) && work != []
    requires forall m :: m in added ==> m in g.succ && m !in handled + {work[0]}
    ensures Budgets(g, handled + {work[0]}, work[1..] + added, us')
    ensures forall degree: nat :: |added| <= degree ==> TotalWeight(degree, us') < TotalWeight(degree, us)
  {
    var handled' := handled + {work[0]};
    var budgets := seq(|added|, i => Pending(g, handled'));
    us' := us[1..] + budgets;
    var work' := work[1..] + added;
    forall i | 0 <= i < |work'| ensures Pending(g, handled' + {work'[i]}) < us'[i] {
      if i < |work| - 1 {
        PendingMonotone(g, handled + {work[i + 1]}, handled' + {work'[i]});
      } else {
        assert work'[i] == added[i - (|work| - 1)];
        PendingShrinks(g, handled', work'[i]);
      }
    }
    forall degree: nat | |added| <= degree ensures TotalWeight(degree, us') < TotalWeight(degree, us) {
      WorklistShrinks(degree, us, budgets, Pending(g, handled'));
    }
  }
}
