/** How the order in which kept stages are walked bears on what a cleanup keeps. A stage that a Git
    policy pass handles first is not expanded for its sources any more. Repos here have no indexes. */
module ProtectionOrder {
  import opened StageProtection

  type Marks = map<string, Reason>

  ghost function GitMarked(marked: Marks): set<string> { set s | s in marked && marked[s] == GitPolicy }

  ghost function OtherMarked(marked: Marks): set<string> { set s | s in marked && marked[s] != GitPolicy }

  /** What the Git policy keeps by itself: its stages and their ancestors. */
  ghost function GitKept(repo: Repo, marked: Marks): set<string> { Spread(repo, {}, GitMarked(marked), false) }

  /** What the other policies keep by themselves: their stages and all relatives. */
  ghost function OtherKept(repo: Repo, marked: Marks): set<string> { Spread(repo, {}, OtherMarked(marked), true) }

  /** What the other policies add when all the Git policy keeps is closed to them. */
  ghost function Least(repo: Repo, marked: Marks): set<string> {
    Spread(repo, GitKept(repo, marked), OtherMarked(marked), true)
  }

  ghost function Most(repo: Repo, marked: Marks): set<string> { OtherKept(repo, marked) + GitKept(repo, marked) }

  ghost predicate Enumerates(order: seq<string>, stages: set<string>) {
    forall s :: s in order <==> s in stages
  }

  // ---- Spreading.

  lemma {:induction false} AvoidsMonotone(repo: Repo, handled: set<string>, start: set<string>, withSources: bool, s: string, k: nat,
                                          fewer: set<string>, more: set<string>)
    requires Avoids(repo, handled, start, withSources, s, k) && fewer <= handled && start <= more
    ensures Avoids(repo, fewer, more, withSources, s, k)
    decreases k
  {
    if k > 0 {
      var m :| Avoids(repo, handled, start, withSources, m, k - 1) && Step(repo, m, withSources, s);
      AvoidsMonotone(repo, handled, start, withSources, m, k - 1, fewer, more);
    }
  }

  /** Less in the way and more to start from reaches at least as much. */
  lemma SpreadMonotone(repo: Repo, handled: set<string>, start: set<string>, withSources: bool, fewer: set<string>, more: set<string>)
    requires fewer <= handled && start <= more
    ensures Spread(repo, handled, start, withSources) - handled <= Spread(repo, fewer, more, withSources)
  {
    forall s | s in Spread(repo, handled, start, withSources) - handled ensures Reached(repo, fewer, more, withSources, s) {
      var k: nat :| Avoids(repo, handled, start, withSources, s, k);
      AvoidsMonotone(repo, handled, start, withSources, s, k, fewer, more);
    }
  }

  lemma SpreadClosed(repo: Repo, handled: set<string>, start: set<string>, withSources: bool, s: string, t: string)
    requires s in Spread(repo, handled, start, withSources) - handled && Step(repo, s, withSources, t)
    ensures t in Spread(repo, handled, start, withSources)
  {
    var k: nat :| Avoids(repo, handled, start, withSources, s, k);
    if t !in handled { assert Avoids(repo, handled, start, withSources, t, k + 1); }
  }

  /** A set that holds what was handled and the start, and is closed off what was handled, holds all. */
  lemma SpreadLeast(repo: Repo, handled: set<string>, start: set<string>, withSources: bool, all: set<string>)
    requires handled <= all && start <= all
    requires forall s, t :: s in all && s !in handled && Step(repo, s, withSources, t) ==> t in all
    ensures Spread(repo, handled, start, withSources) <= all
  {
    forall s | Reached(repo, handled, start, withSources, s) ensures s in all {
      var k: nat :| Avoids(repo, handled, start, withSources, s, k);
      AvoidsWithin(repo, handled, start, withSources, all, s, k);
    }
  }

  lemma {:induction false} AvoidsWithin(repo: Repo, handled: set<string>, start: set<string>, withSources: bool,
                                        all: set<string>, s: string, k: nat)
    requires start <= all && Avoids(repo, handled, start, withSources, s, k)
    requires forall s, t :: s in all && s !in handled && Step(repo, s, withSources, t) ==> t in all
    ensures s in all
    decreases k
  {
    if k > 0 {
      var m :| Avoids(repo, handled, start, withSources, m, k - 1) && Step(repo, m, withSources, s);
      AvoidsWithin(repo, handled, start, withSources, all, m, k - 1);
      assert m in all && m !in handled by { assert Avoids(repo, handled, start, withSources, m, k - 1); }
    }
  }

  // ---- Any order.

  /** What every pass keeps: ancestors are never missing, and relatives only of what the Git policy
      keeps. */
  ghost predicate Between(repo: Repo, marked: Marks, handled: set<string>) {
    && handled <= Most(repo, marked)
    && (forall s, t :: s in handled && IsParent(repo, s, t) ==> t in handled)
    && (forall s, t :: s in handled && s !in GitKept(repo, marked) && Step(repo, s, true, t) ==> t in handled)
  }

  lemma PassKeeps(repo: Repo, marked: Marks, handled: set<string>, x: string)
    requires Between(repo, marked, handled) && x in marked && x in repo
    ensures var after := Spread(repo, handled, {x}, marked[x] != GitPolicy); Between(repo, marked, after) && x in after
  {
    var withSources := marked[x] != GitPolicy;
    var after := Spread(repo, handled, {x}, withSources);
    StartHandled(repo, handled, x, withSources);
    SpreadMonotone(repo, handled, {x}, withSources, {}, if withSources then OtherMarked(marked) else GitMarked(marked));
    forall s, t | s in after - handled && Step(repo, s, withSources, t) ensures t in after {
      SpreadClosed(repo, handled, {x}, withSources, s, t);
    }
    forall s, t | s in after && IsParent(repo, s, t) ensures t in after {
      assert Step(repo, s, withSources, t);
    }
  }

  lemma {:induction false} OrderBetween(repo: Repo, marked: Marks, order: seq<string>)
    requires marked.Keys <= repo.Keys && forall s :: s in order ==> s in marked
    ensures Between(repo, marked, HandledBy(repo, marked, order))
    ensures forall s :: s in order ==> s in HandledBy(repo, marked, order)
    decreases |order|
  {
    if order != [] {
      var n := |order| - 1;
      OrderBetween(repo, marked, order[..n]);
      assert order[n] in order && order == order[..n] + [order[n]];
      PassKeeps(repo, marked, HandledBy(repo, marked, order[..n]), order[n]);
    }
  }

  lemma BetweenHoldsLeast(repo: Repo, marked: Marks, all: set<string>)
    requires Between(repo, marked, all) && marked.Keys <= all
    ensures Least(repo, marked) <= all
  {
    SpreadLeast(repo, {}, GitMarked(marked), false, all);
    SpreadLeast(repo, GitKept(repo, marked), OtherMarked(marked), true, all);
  }

  /** Whatever the order, what is kept lies between two sets that no order enters into. */
  lemma OrderBounds(repo: Repo, marked: Marks, order: seq<string>)
    requires marked.Keys <= repo.Keys && Enumerates(order, marked.Keys)
    ensures Least(repo, marked) <= HandledBy(repo, marked, order) <= Most(repo, marked)
  {
    OrderBetween(repo, marked, order);
    BetweenHoldsLeast(repo, marked, HandledBy(repo, marked, order));
  }

  // ---- The two extremes.

  lemma LongerOrder(repo: Repo, marked: Marks, order: seq<string>, x: string)
    ensures HandledBy(repo, marked, order + [x]) ==
            Spread(repo, HandledBy(repo, marked, order), {x}, x in marked && marked[x] != GitPolicy)
  {
    assert (order + [x])[..|order|] == order;
  }

  /** The other policies first: everything they keep by themselves is kept. */
  lemma {:induction false} OthersClosed(repo: Repo, marked: Marks, os: seq<string>)
    requires marked.Keys <= repo.Keys && forall s :: s in os ==> s in OtherMarked(marked)
    ensures forall s, t :: s in HandledBy(repo, marked, os) && Step(repo, s, true, t) ==> t in HandledBy(repo, marked, os)
    decreases |os|
  {
    if os != [] {
      var n := |os| - 1;
      OthersClosed(repo, marked, os[..n]);
      assert os[n] in os;
      var before, after := HandledBy(repo, marked, os[..n]), HandledBy(repo, marked, os);
      forall s, t | s in after && Step(repo, s, true, t) ensures t in after {
        if s !in before { SpreadClosed(repo, before, {os[n]}, true, s, t); }
      }
    }
  }

  lemma {:induction false} LaterKeeps(repo: Repo, marked: Marks, first: seq<string>, rest: seq<string>)
    ensures HandledBy(repo, marked, first) <= HandledBy(repo, marked, first + rest)
    decreases |rest|
  {
    if rest == [] {
      assert first + rest == first;
    } else {
      var n := |rest| - 1;
      LaterKeeps(repo, marked, first, rest[..n]);
      assert first + rest == first + rest[..n] + [rest[n]];
      LongerOrder(repo, marked, first + rest[..n], rest[n]);
    }
  }

  lemma OthersFirst(repo: Repo, marked: Marks, os: seq<string>, gs: seq<string>)
    requires marked.Keys <= repo.Keys && Enumerates(os, OtherMarked(marked)) && Enumerates(gs, GitMarked(marked))
    ensures HandledBy(repo, marked, os + gs) == Most(repo, marked)
  {
    var order, handled := os + gs, HandledBy(repo, marked, os);
    forall s ensures s in order <==> s in marked { assert s in order <==> s in os || s in gs; }
    OrderBetween(repo, marked, os);
    OthersClosed(repo, marked, os);
    SpreadLeast(repo, {}, OtherMarked(marked), true, handled);
    LaterKeeps(repo, marked, os, gs);
    OrderBounds(repo, marked, order);
    assert GitKept(repo, marked) <= Least(repo, marked);
  }

  /** The Git policy first: it keeps what it keeps by itself, and the others go around that. */
  lemma {:induction false} GitOnly(repo: Repo, marked: Marks, gs: seq<string>)
    requires forall s :: s in gs ==> s in GitMarked(marked)
    ensures HandledBy(repo, marked, gs) <= GitKept(repo, marked)
    decreases |gs|
  {
    if gs != [] {
      var n := |gs| - 1;
      GitOnly(repo, marked, gs[..n]);
      assert gs[n] in gs;
      SpreadMonotone(repo, HandledBy(repo, marked, gs[..n]), {gs[n]}, false, {}, GitMarked(marked));
    }
  }

  lemma {:induction false} OthersAround(repo: Repo, marked: Marks, gs: seq<string>, os: seq<string>)
    requires GitKept(repo, marked) == HandledBy(repo, marked, gs) && forall s :: s in os ==> s in OtherMarked(marked)
    ensures HandledBy(repo, marked, gs + os) <= Least(repo, marked)
    decreases |os|
  {
    if os == [] {
      assert gs + os == gs;
    } else {
      var n := |os| - 1;
      OthersAround(repo, marked, gs, os[..n]);
      LaterKeeps(repo, marked, gs, os[..n]);
      assert os[n] in os && gs + os == gs + os[..n] + [os[n]];
      LongerOrder(repo, marked, gs + os[..n], os[n]);
      SpreadMonotone(repo, HandledBy(repo, marked, gs + os[..n]), {os[n]}, true, GitKept(repo, marked), OtherMarked(marked));
    }
  }

  lemma GitFirst(repo: Repo, marked: Marks, gs: seq<string>, os: seq<string>)
    requires marked.Keys <= repo.Keys && Enumerates(os, OtherMarked(marked)) && Enumerates(gs, GitMarked(marked))
    ensures HandledBy(repo, marked, gs + os) == Least(repo, marked)
  {
    var order, handled := gs + os, HandledBy(repo, marked, gs);
    forall s ensures s in order <==> s in marked { assert s in order <==> s in gs || s in os; }
    GitOnly(repo, marked, gs);
    OrderBetween(repo, marked, gs);
    forall s, t | s in handled && Step(repo, s, false, t) ensures t in handled { assert IsParent(repo, s, t); }
    SpreadLeast(repo, {}, GitMarked(marked), false, handled);
    OthersAround(repo, marked, gs, os);
    OrderBounds(repo, marked, order);
  }

  // ---- When the order does not matter.

  ghost predicate OrderIndependent(repo: Repo, marked: Marks) {
    forall one, two :: Enumerates(one, marked.Keys) && Enumerates(two, marked.Keys) ==>
      HandledBy(repo, marked, one) == HandledBy(repo, marked, two)
  }

  /** A source of a stage that the Git policy and another one both keep is kept without it. */
  ghost predicate SourcesCovered(repo: Repo, marked: Marks) {
    forall s, t :: s in GitKept(repo, marked) && s in OtherKept(repo, marked) && IsSource(repo, s, t) ==> t in Least(repo, marked)
  }

  lemma CoveredIsLeast(repo: Repo, marked: Marks)
    requires marked.Keys <= repo.Keys && SourcesCovered(repo, marked)
    ensures Most(repo, marked) == Least(repo, marked)
  {
    var git, least, other := GitKept(repo, marked), Least(repo, marked), OtherKept(repo, marked);
    var all := least * other;
    forall s | s in OtherMarked(marked) ensures s in all {
      assert Avoids(repo, {}, OtherMarked(marked), true, s, 0);
      if s !in git { assert Avoids(repo, git, OtherMarked(marked), true, s, 0); }
    }
    forall s, t | s in all && Step(repo, s, true, t) ensures t in all {
      SpreadClosed(repo, {}, OtherMarked(marked), true, s, t);
      if s !in git {
        SpreadClosed(repo, git, OtherMarked(marked), true, s, t);
      } else if IsParent(repo, s, t) {
        SpreadClosed(repo, {}, GitMarked(marked), false, s, t);
      }
    }
    SpreadLeast(repo, {}, OtherMarked(marked), true, all);
    SpreadMonotone(repo, git, OtherMarked(marked), true, {}, OtherMarked(marked));
  }

  lemma Enumerate(stages: set<string>) returns (order: seq<string>)
    ensures Enumerates(order, stages)
  {
    order := [];
    var left := stages;
    while left != {}
      invariant left <= stages && forall s :: s in order <==> s in stages - left
      decreases left
    {
      var s :| s in left;
      left := left - {s};
      order := order + [s];
    }
  }

  /** What a cleanup keeps depends on no order if and only if every source of a stage that the Git
      policy and another policy both keep is kept anyway. */
  lemma OrderExact(repo: Repo, marked: Marks)
    requires marked.Keys <= repo.Keys
    ensures OrderIndependent(repo, marked) <==> SourcesCovered(repo, marked)
  {
    if SourcesCovered(repo, marked) {
      CoveredIsLeast(repo, marked);
      forall one, two | Enumerates(one, marked.Keys) && Enumerates(two, marked.Keys)
        ensures HandledBy(repo, marked, one) == HandledBy(repo, marked, two)
      {
        OrderBounds(repo, marked, one);
        OrderBounds(repo, marked, two);
      }
    }
    if OrderIndependent(repo, marked) {
      var gs := Enumerate(GitMarked(marked));
      var os := Enumerate(OtherMarked(marked));
      GitFirst(repo, marked, gs, os);
      OthersFirst(repo, marked, os, gs);
      assert Enumerates(gs + os, marked.Keys) && Enumerates(os + gs, marked.Keys);
      forall s, t | s in GitKept(repo, marked) && s in OtherKept(repo, marked) && IsSource(repo, s, t)
        ensures t in Least(repo, marked)
      {
        SpreadClosed(repo, {}, OtherMarked(marked), true, s, t);
      }
    }
  }

  // ---- Two orders, two results.

  const PARENT_P: map<string, string> := map[PARENT_STAGE_ID := "p"]
  const SOURCE_Q: map<string, string> := map[IMPORT_SOURCE_PREFIX := "q"]
  const SHARED: Repo := map["g" := Stage(false, "", [], PARENT_P), "k" := Stage(false, "", [], PARENT_P),
                            "p" := Stage(false, "", [], SOURCE_Q), "q" := Stage(false, "", [], map[])]
  const SHARED_MARKS: Marks := map["g" := GitPolicy, "k" := KubernetesPolicy]

  /** A stage kept for the Git policy and one in use share a parent, which imports from a fourth: that
      one stays if the stage in use is walked first, and goes if the other is. */
  lemma SharedParentDepends(one: seq<string>, two: seq<string>)
    requires one == ["k", "g"] && two == ["g", "k"]
    ensures NoIndexes(SHARED) && Enumerates(one, SHARED_MARKS.Keys) && Enumerates(two, SHARED_MARKS.Keys)
    ensures "q" in HandledBy(SHARED, SHARED_MARKS, one) && "q" !in HandledBy(SHARED, SHARED_MARKS, two)
  {
    SharedMost();
    SharedLeast();
    assert one == one[..1] + two[..1] && two == two[..1] + one[..1];
    Differ(SHARED, SHARED_MARKS, one[..1], two[..1], "q");
  }

  lemma Differ(repo: Repo, marked: Marks, os: seq<string>, gs: seq<string>, t: string)
    requires marked.Keys <= repo.Keys && Enumerates(os, OtherMarked(marked)) && Enumerates(gs, GitMarked(marked))
    requires t in Most(repo, marked) && t !in Least(repo, marked)
    ensures t in HandledBy(repo, marked, os + gs) && t !in HandledBy(repo, marked, gs + os)
  {
    OthersFirst(repo, marked, os, gs);
    GitFirst(repo, marked, gs, os);
  }

  lemma SharedMost()
    ensures "q" in Most(SHARED, SHARED_MARKS)
  {
    SharedSteps();
    assert OtherMarked(SHARED_MARKS) == {"k"};
    StartHandled(SHARED, {}, "k", true);
    SpreadClosed(SHARED, {}, {"k"}, true, "k", "p");
    SpreadClosed(SHARED, {}, {"k"}, true, "p", "q");
  }

  lemma SharedLeast()
    ensures "q" !in Least(SHARED, SHARED_MARKS)
  {
    SharedSteps();
    assert GitMarked(SHARED_MARKS) == {"g"} && OtherMarked(SHARED_MARKS) == {"k"};
    StartHandled(SHARED, {}, "g", false);
    SpreadClosed(SHARED, {}, {"g"}, false, "g", "p");
    SpreadLeast(SHARED, {}, {"g"}, false, {"g", "p"});
    var git := GitKept(SHARED, SHARED_MARKS);
    assert "p" in git;
    SpreadLeast(SHARED, git, {"k"}, true, git + {"k"});
  }

  lemma SharedSteps()
    ensures forall s, t :: IsParent(SHARED, s, t) <==> (s == "g" || s == "k") && t == "p"
    ensures forall s, t :: IsSource(SHARED, s, t) <==> s == "p" && t == "q"
  {
    assert PARENT_STAGE_ID[4] == '.' && IMPORT_SOURCE_PREFIX[4] == '-' && DEPENDENCY_SOURCE_PREFIX[4] == '-';
    assert EXTERNAL_IMAGE_PREFIX[0] == 'e';
    forall s, t ensures IsSource(SHARED, s, t) <==> s == "p" && t == "q" {
      if s == "p" && t == "q" { assert IMPORT_SOURCE_PREFIX in SHARED["p"].labels; }
    }
  }
}
