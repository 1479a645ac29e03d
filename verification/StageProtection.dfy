/** Which stages a registry cleanup keeps: the protected ones and their relatives. */
module StageProtection {
  const IMPORT_SOURCE_PREFIX := "werf-import-source-stage-id-"
  const EXTERNAL_IMAGE_PREFIX := "external-image"
  const DEPENDENCY_SOURCE_PREFIX := "werf-dependency-stage-id-"
  const PARENT_STAGE_ID := "werf.io/parent-stage-id"

  datatype Reason =
    | KubernetesPolicy | GitPolicy | BuiltWithinLastNHoursPolicy | KeepList
    | ImportSource | DependencySource | Ancestor | ImageIndexPlatform

  /** `digest` is empty for a stage without a repo digest. */
  datatype Stage = Stage(isIndex: bool, digest: string, platforms: seq<string>, labels: map<string, string>)

  type Repo = map<string, Stage>

  // ---- Relatives.

  /** What the parent label says, the empty ID when there is none. */
  function ParentID(stage: Stage): string {
    if PARENT_STAGE_ID in stage.labels then stage.labels[PARENT_STAGE_ID] else ""
  }

  ghost predicate IsParent(repo: Repo, s: string, t: string) {
    s in repo && t in repo && ParentID(repo[s]) == t
  }

  /** The label names a source stage of the repo. */
  predicate NamesSource(key: string, value: string) {
    if IMPORT_SOURCE_PREFIX <= key then !(EXTERNAL_IMAGE_PREFIX <= value) else DEPENDENCY_SOURCE_PREFIX <= key
  }

  ghost predicate IsSource(repo: Repo, s: string, t: string) {
    s in repo && t in repo &&
    exists l :: l in repo[s].labels && repo[s].labels[l] == t && NamesSource(l, t)
  }

  ghost predicate IsPlatform(repo: Repo, s: string, t: string) {
    s in repo && t in repo && repo[s].isIndex && repo[t].digest != "" && repo[t].digest in repo[s].platforms
  }

  ghost predicate Relative(repo: Repo, s: string, t: string) {
    IsParent(repo, s, t) || IsSource(repo, s, t) || IsPlatform(repo, s, t)
  }

  /** `s` is a relative of a root over `k` steps. */
  ghost predicate Derived(repo: Repo, roots: set<string>, s: string, k: nat)
    decreases k
  {
    if k == 0 then s in roots else exists t :: Derived(repo, roots, t, k - 1) && Relative(repo, t, s)
  }

  ghost predicate IsDerived(repo: Repo, roots: set<string>, s: string) {
    exists k: nat :: Derived(repo, roots, s, k)
  }

  ghost predicate Justified(repo: Repo, roots: set<string>, kept: set<string>) {
    forall s :: s in kept ==> IsDerived(repo, roots, s)
  }

  lemma JustifiedAdd(repo: Repo, roots: set<string>, kept: set<string>, s: string, t: string)
    requires Justified(repo, roots, kept) && s in kept && Relative(repo, s, t)
    ensures Justified(repo, roots, kept + {t})
  {
    var k: nat :| Derived(repo, roots, s, k);
    assert Derived(repo, roots, t, k + 1);
  }

  // ---- What a walk keeps.

  ghost predicate ParentsKept(repo: Repo, handled: set<string>, kept: set<string>) {
    forall s, t :: s in handled && IsParent(repo, s, t) ==> t in kept
  }

  ghost predicate SourcesKept(repo: Repo, handled: set<string>, kept: set<string>) {
    forall s, t :: s in handled && IsSource(repo, s, t) ==> t in kept
  }

  /** Some stage is kept for every platform digest of the index that the repo has a stage for. */
  ghost predicate PlatformsKept(repo: Repo, s: string, kept: set<string>)
    requires s in repo
  {
    forall d :: d in repo[s].platforms && d != "" && (exists t :: t in repo && repo[t].digest == d) ==>
      exists t :: t in kept && t in repo && repo[t].digest == d
  }

  /** The state between two steps: `work` is still to be walked. */
  ghost predicate Walking(repo: Repo, roots: set<string>, kept: set<string>, handled: set<string>, work: set<string>) {
    && kept <= repo.Keys && work <= kept && handled <= kept && kept <= roots + handled + work
    && ParentsKept(repo, handled, kept) && Justified(repo, roots, kept)
  }

  // ---- What a walk reaches, exactly.

  ghost predicate Step(repo: Repo, s: string, withSources: bool, t: string) {
    IsParent(repo, s, t) || (withSources && IsSource(repo, s, t))
  }

  /** `s` is reached from `start` over `k` steps, without entering what was handled before. */
  ghost predicate Avoids(repo: Repo, handled: set<string>, start: set<string>, withSources: bool, s: string, k: nat)
    decreases k
  {
    && s !in handled
    && if k == 0 then s in start
       else exists m :: Avoids(repo, handled, start, withSources, m, k - 1) && Step(repo, m, withSources, s)
  }

  ghost predicate Reached(repo: Repo, handled: set<string>, start: set<string>, withSources: bool, s: string) {
    exists k: nat :: Avoids(repo, handled, start, withSources, s, k)
  }

  ghost function Spread(repo: Repo, handled: set<string>, start: set<string>, withSources: bool): set<string> {
    handled + set s | s in repo.Keys && Reached(repo, handled, start, withSources, s)
  }

  /** The walk on its way: everything handled is reached, and what is reached next is in `work`. */
  ghost predicate Spreading(repo: Repo, handled: set<string>, start: set<string>, withSources: bool,
                            now: set<string>, work: set<string>) {
    && handled <= now && start <= now + work && now + work <= repo.Keys
    && (forall s :: s in now + work ==> s in handled || Reached(repo, handled, start, withSources, s))
    && (forall s, t :: s in now - handled && Step(repo, s, withSources, t) ==> t in now + work)
  }

  lemma SpreadStarts(repo: Repo, handled: set<string>, start: set<string>, withSources: bool)
    requires handled <= repo.Keys && start <= repo.Keys
    ensures Spreading(repo, handled, start, withSources, handled, start)
  {
    forall s | s in start && s !in handled ensures Reached(repo, handled, start, withSources, s) {
      assert Avoids(repo, handled, start, withSources, s, 0);
    }
  }

  lemma SpreadStep(repo: Repo, handled: set<string>, start: set<string>, withSources: bool,
                   now: set<string>, work: set<string>, s: string, found: set<string>)
    requires Spreading(repo, handled, start, withSources, now, work) && s in work && s !in now && found <= repo.Keys
    requires forall t :: t in found <==> Step(repo, s, withSources, t)
    ensures Spreading(repo, handled, start, withSources, now + {s}, work - {s} + found)
  {
    var k: nat :| Avoids(repo, handled, start, withSources, s, k);
    forall t | t in found && t !in handled ensures Reached(repo, handled, start, withSources, t) {
      assert Avoids(repo, handled, start, withSources, t, k + 1);
    }
  }

  lemma SpreadEnds(repo: Repo, handled: set<string>, start: set<string>, withSources: bool, now: set<string>)
    requires Spreading(repo, handled, start, withSources, now, {})
    ensures now == Spread(repo, handled, start, withSources)
  {
    forall s | Reached(repo, handled, start, withSources, s) ensures s in now {
      var k: nat :| Avoids(repo, handled, start, withSources, s, k);
      AvoidsInside(repo, handled, start, withSources, now, s, k);
    }
  }

  lemma {:induction false} AvoidsInside(repo: Repo, handled: set<string>, start: set<string>, withSources: bool,
                                        now: set<string>, s: string, k: nat)
    requires Spreading(repo, handled, start, withSources, now, {}) && Avoids(repo, handled, start, withSources, s, k)
    ensures s in now
    decreases k
  {
    if k > 0 {
      var m :| Avoids(repo, handled, start, withSources, m, k - 1) && Step(repo, m, withSources, s);
      AvoidsInside(repo, handled, start, withSources, now, m, k - 1);
    }
  }

  /** What has been handled once the stages of `order` were walked one after the other. */
  ghost function HandledBy(repo: Repo, marked: map<string, Reason>, order: seq<string>): set<string>
    decreases |order|
  {
    if order == [] then {}
    else
      var s := order[|order| - 1];
      Spread(repo, HandledBy(repo, marked, order[..|order| - 1]), {s}, s in marked && marked[s] != GitPolicy)
  }

  ghost predicate NoIndexes(repo: Repo) {
    forall s :: s in repo ==> !repo[s].isIndex
  }

  /** Whether the registry deletes a stage, refuses to with a warning, or fails for good. */
  datatype Deletion = Deleted | Refused | Fatal

  class CleanupManager {
    const repo: Repo
    var protectedBy: map<string, Reason>

    constructor (repo: Repo, protectedBy: map<string, Reason>)
      ensures this.repo == repo && this.protectedBy == protectedBy
    {
      this.repo := repo;
      this.protectedBy := protectedBy;
    }

    /** Marks grow, and a mark keeps its first reason unless a new one is forced. */
    method MarkAsProtected(stage: string, reason: Reason, forceReason: bool)
      modifies this
      ensures protectedBy.Keys == old(protectedBy.Keys) + {stage}
      ensures forall s :: s in old(protectedBy) && (s != stage || !forceReason) ==> protectedBy[s] == old(protectedBy)[s]
      ensures stage !in old(protectedBy) || forceReason ==> protectedBy[stage] == reason
    {
      if stage in protectedBy && !forceReason { return; }
      protectedBy := protectedBy[stage := reason];
    }

    /** A stage of an index's platform, for every digest the repo has. */
    method ProtectPlatforms(index: string, ghost roots: set<string>, ghost handled: set<string>) returns (work: set<string>)
      requires index in repo && repo[index].isIndex && index in protectedBy
      requires Walking(repo, roots, protectedBy.Keys, handled, {})
      modifies this
      ensures Walking(repo, roots, protectedBy.Keys, handled, work)
      ensures old(protectedBy.Keys) <= protectedBy.Keys
      ensures PlatformsKept(repo, index, protectedBy.Keys)
    {
      work := {};
      var platforms := repo[index].platforms;
      var k := 0;
      while k < |platforms|
        invariant 0 <= k <= |platforms| && Walking(repo, roots, protectedBy.Keys, handled, work)
        invariant old(protectedBy.Keys) <= protectedBy.Keys
        invariant forall i :: 0 <= i < k && platforms[i] != "" && (exists t :: t in repo && repo[t].digest == platforms[i]) ==>
                    exists t :: t in protectedBy.Keys && t in repo && repo[t].digest == platforms[i]
      {
        var d := platforms[k];
        if d != "" && exists t :: t in repo && repo[t].digest == d {
          var t :| t in repo && repo[t].digest == d;
          JustifiedAdd(repo, roots, protectedBy.Keys, index, t);
          MarkAsProtected(t, ImageIndexPlatform, false);
          work := work + {t};
        }
        k := k + 1;
      }
    }

    /** The import and dependency sources one stage's labels name. */
    method ProtectSources(stage: string, ghost roots: set<string>) returns (found: set<string>)
      requires stage in repo && stage in protectedBy && protectedBy.Keys <= repo.Keys
      requires Justified(repo, roots, protectedBy.Keys)
      modifies this
      ensures protectedBy.Keys == old(protectedBy.Keys) + found && found <= repo.Keys
      ensures Justified(repo, roots, protectedBy.Keys)
      ensures forall t :: t in found <==> IsSource(repo, stage, t)
    {
      found := {};
      var labels := repo[stage].labels;
      var pending := labels.Keys;
      while pending != {}
        invariant pending <= labels.Keys && found <= repo.Keys
        invariant protectedBy.Keys == old(protectedBy.Keys) + found && Justified(repo, roots, protectedBy.Keys)
        invariant forall t :: t in found ==> IsSource(repo, stage, t)
        invariant forall l :: l in labels.Keys - pending && labels[l] in repo && NamesSource(l, labels[l]) ==> labels[l] in found
        decreases pending
      {
        var key :| key in pending;
        pending := pending - {key};
        var source := labels[key];
        if NamesSource(key, source) && source in repo {
          assert IsSource(repo, stage, source);
          JustifiedAdd(repo, roots, protectedBy.Keys, stage, source);
          MarkAsProtected(source, if IMPORT_SOURCE_PREFIX <= key then ImportSource else DependencySource, false);
          found := found + {source};
        }
      }
    }

    method ProtectParent(stage: string, ghost roots: set<string>) returns (found: set<string>)
      requires stage in repo && stage in protectedBy && protectedBy.Keys <= repo.Keys
      requires Justified(repo, roots, protectedBy.Keys)
      modifies this
      ensures protectedBy.Keys == old(protectedBy.Keys) + found && found <= repo.Keys
      ensures Justified(repo, roots, protectedBy.Keys)
      ensures forall t :: t in found <==> IsParent(repo, stage, t)
    {
      found := {};
      var parent := ParentID(repo[stage]);
      if parent in repo {
        JustifiedAdd(repo, roots, protectedBy.Keys, stage, parent);
        MarkAsProtected(parent, Ancestor, false);
        found := {parent};
      }
    }

    /** The relatives of one stage that the walk goes on to. */
    method ProtectNext(stage: string, withSources: bool, ghost roots: set<string>) returns (found: set<string>)
      requires stage in repo && stage in protectedBy && protectedBy.Keys <= repo.Keys
      requires Justified(repo, roots, protectedBy.Keys)
      modifies this
      ensures protectedBy.Keys == old(protectedBy.Keys) + found && found <= repo.Keys
      ensures Justified(repo, roots, protectedBy.Keys)
      ensures forall t :: t in found <==> Step(repo, stage, withSources, t)
    {
      found := {};
      if withSources { found := ProtectSources(stage, roots); }
      var parent := ProtectParent(stage, roots);
      found := found + parent;
    }

    /** Walks the relatives of one kept stage: handled afterwards is exactly what `start` reaches, which
        is the stage itself or the platforms found for an index. The walk ends on any graph, cyclic
        ones included, because a handled stage is never expanded again. */
    method ProtectRelatives(target: string, withSources: bool, ghost roots: set<string>, handled: set<string>)
      returns (handled': set<string>, ghost start: set<string>)
      requires target in protectedBy && Walking(repo, roots, protectedBy.Keys, handled, {})
      modifies this
      ensures Walking(repo, roots, protectedBy.Keys, handled', {})
      ensures old(protectedBy.Keys) <= protectedBy.Keys
      ensures handled' == Spread(repo, handled, start, withSources)
      ensures if repo[target].isIndex then PlatformsKept(repo, target, protectedBy.Keys) else start == {target}
      ensures withSources && SourcesKept(repo, handled, old(protectedBy.Keys)) ==> SourcesKept(repo, handled', protectedBy.Keys)
    {
      var work := {target};
      if repo[target].isIndex { work := ProtectPlatforms(target, roots, handled); }
      start := work;
      handled' := WalkFrom(work, withSources, roots, handled);
    }

    method WalkFrom(start: set<string>, withSources: bool, ghost roots: set<string>, handled: set<string>)
      returns (handled': set<string>)
      requires Walking(repo, roots, protectedBy.Keys, handled, start)
      modifies this
      ensures Walking(repo, roots, protectedBy.Keys, handled', {})
      ensures old(protectedBy.Keys) <= protectedBy.Keys
      ensures handled' == Spread(repo, handled, start, withSources)
      ensures withSources && SourcesKept(repo, handled, old(protectedBy.Keys)) ==> SourcesKept(repo, handled', protectedBy.Keys)
    {
      handled' := handled;
      var work := start;
      SpreadStarts(repo, handled, start, withSources);
      while work != {}
        invariant Walking(repo, roots, protectedBy.Keys, handled', work)
        invariant old(protectedBy.Keys) <= protectedBy.Keys && Spreading(repo, handled, start, withSources, handled', work)
        decreases |repo.Keys - handled'|, |work|
      {
        var stage :| stage in work;
        if stage in handled' {
          work := work - {stage};
        } else {
          HandledGrows(repo.Keys, handled', stage);
          ghost var kept := protectedBy.Keys;
          var found := ProtectNext(stage, withSources, roots);
          SpreadStep(repo, handled, start, withSources, handled', work, stage, found);
          WalkingStep(repo, roots, kept, handled', work, stage, withSources, found);
          work := work - {stage} + found;
          handled' := handled' + {stage};
        }
      }
      SpreadEnds(repo, handled, start, withSources, handled');
      if withSources { SpreadSources(repo, handled, start, handled', old(protectedBy.Keys), protectedBy.Keys); }
    }

    /** Protects the relatives of every marked stage, whatever order reasons and stages come in, and
        deletes the rest. What is kept has no orphans; what is left besides it is what the registry
        refused to delete, or all it had not deleted when it failed for good. Without indexes, what is
        kept is determined by the order. */
    method CleanupUnusedStages(delete: string -> Deletion)
      returns (ok: bool, kept: set<string>, left: set<string>, ghost order: seq<string>)
      requires protectedBy.Keys <= repo.Keys
      modifies this
      ensures kept == protectedBy.Keys && NoOrphans(repo, old(protectedBy), kept)
      ensures forall s :: s in order <==> s in old(protectedBy)
      ensures NoIndexes(repo) ==> kept == HandledBy(repo, old(protectedBy), order)
      ensures kept <= left <= repo.Keys
      ensures ok <==> forall s :: s in repo.Keys - kept ==> delete(s) != Fatal
      ensures ok ==> forall s :: s in left - kept <==> s in repo.Keys - kept && delete(s) == Refused
    {
      order := ProtectAll();
      kept := protectedBy.Keys;
      ok, left := DeleteStages(repo.Keys - kept, delete);
    }

    method ProtectAll() returns (ghost order: seq<string>)
      requires protectedBy.Keys <= repo.Keys
      modifies this
      ensures NoOrphans(repo, old(protectedBy), protectedBy.Keys)
      ensures forall s :: s in order <==> s in old(protectedBy)
      ensures NoIndexes(repo) ==> protectedBy.Keys == HandledBy(repo, old(protectedBy), order)
    {
      ghost var marked := protectedBy;
      order := [];
      var reasons := protectedBy;
      var pending := reasons.Keys;
      var handled: set<string> := {};
      forall s | s in marked ensures IsDerived(repo, marked.Keys, s) { assert Derived(repo, marked.Keys, s, 0); }
      while pending != {}
        invariant pending <= reasons.Keys && marked.Keys <= protectedBy.Keys
        invariant Walking(repo, marked.Keys, protectedBy.Keys, handled, {})
        invariant forall s :: s in order <==> s in reasons.Keys - pending
        invariant forall s :: s in reasons.Keys - pending ==>
                    if repo[s].isIndex then PlatformsKept(repo, s, protectedBy.Keys) else s in handled
        invariant GitPolicy !in marked.Values ==> SourcesKept(repo, handled, protectedBy.Keys)
        invariant NoIndexes(repo) ==> handled == HandledBy(repo, marked, order)
        decreases pending
      {
        var stage :| stage in pending;
        pending := pending - {stage};
        assert reasons[stage] in marked.Values;
        ghost var before, start := handled, {};
        handled, start := ProtectRelatives(stage, reasons[stage] != GitPolicy, marked.Keys, handled);
        if !repo[stage].isIndex { StartHandled(repo, before, stage, reasons[stage] != GitPolicy); }
        assert (order + [stage])[..|order|] == order;
        order := order + [stage];
      }
    }

    method DeleteStages(stages: set<string>, delete: string -> Deletion) returns (ok: bool, left: set<string>)
      ensures repo.Keys - stages <= left <= repo.Keys
      ensures ok <==> forall s :: s in stages ==> delete(s) != Fatal
      ensures ok ==> forall s :: s in stages && s in repo ==> (s in left <==> delete(s) == Refused)
    {
      left := repo.Keys;
      var pending := stages;
      while pending != {}
        invariant pending <= stages && repo.Keys - stages <= left <= repo.Keys && pending * repo.Keys <= left
        invariant forall s :: s in stages - pending ==> delete(s) != Fatal
        invariant forall s :: s in stages - pending && s in repo ==> (s in left <==> delete(s) == Refused)
        decreases pending
      {
        var stage :| stage in pending;
        pending := pending - {stage};
        match delete(stage) {
          case Deleted => left := left - {stage};
          case Refused =>
          case Fatal => return false, left;
        }
      }
      return true, left;
    }
  }

  lemma WalkingStep(repo: Repo, roots: set<string>, kept: set<string>, handled: set<string>, work: set<string>,
                    s: string, withSources: bool, found: set<string>)
    requires Walking(repo, roots, kept, handled, work) && s in work && found <= repo.Keys
    requires forall t :: t in found <==> Step(repo, s, withSources, t)
    requires Justified(repo, roots, kept + found)
    ensures Walking(repo, roots, kept + found, handled + {s}, work - {s} + found)
  {
    forall x, t | x in handled + {s} && IsParent(repo, x, t) ensures t in kept + found {
      if x == s { assert Step(repo, s, withSources, t); }
    }
  }

  lemma StartHandled(repo: Repo, handled: set<string>, s: string, withSources: bool)
    requires s in repo
    ensures s in Spread(repo, handled, {s}, withSources)
  {
    if s !in handled { assert Avoids(repo, handled, {s}, withSources, s, 0); }
  }

  lemma SpreadSources(repo: Repo, handled: set<string>, start: set<string>, now: set<string>, before: set<string>, kept: set<string>)
    requires Spreading(repo, handled, start, true, now, {}) && now <= kept && before <= kept
    ensures SourcesKept(repo, handled, before) ==> SourcesKept(repo, now, kept)
  {
    forall s, t | s in now - handled && IsSource(repo, s, t) ensures t in kept { assert Step(repo, s, true, t); }
  }

  /** The stages a cleanup leaves, started with the marks `marked`: relatives of marked stages only,
      and none of their relatives missing. Sources are followed unless a stage is kept for the Git
      policy; the platforms of an index are followed when the index itself was marked. */
  ghost predicate NoOrphans(repo: Repo, marked: map<string, Reason>, left: set<string>) {
    && marked.Keys <= left <= repo.Keys
    && Justified(repo, marked.Keys, left)
    && (forall s, t :: s in left && !repo[s].isIndex && IsParent(repo, s, t) ==> t in left)
    && (forall s :: s in marked && repo[s].isIndex ==> PlatformsKept(repo, s, left))
    && (GitPolicy !in marked.Values ==>
          forall s, t :: s in left && !repo[s].isIndex && IsSource(repo, s, t) ==> t in left)
  }

  // ---- Labels.

  /** Which labels name a source: any dependency label, and any import label that does not name an
      external image. */
  lemma SourceExact(repo: Repo, s: string, t: string)
    ensures IsSource(repo, s, t) <==>
            s in repo && t in repo &&
            exists l :: l in repo[s].labels && repo[s].labels[l] == t &&
              ("werf-dependency-stage-id-" <= l || ("werf-import-source-stage-id-" <= l && !("external-image" <= t)))
  {
    forall l: string, v: string
      ensures NamesSource(l, v) <==>
              "werf-dependency-stage-id-" <= l || ("werf-import-source-stage-id-" <= l && !("external-image" <= v))
    {
      LabelsApart(l);
    }
    if IsSource(repo, s, t) {
      var l :| l in repo[s].labels && repo[s].labels[l] == t && NamesSource(l, t);
    }
  }

  lemma LabelsApart(l: string)
    ensures !("werf-dependency-stage-id-" <= l && "werf-import-source-stage-id-" <= l)
  {
    assert "werf-dependency-stage-id-"[5] == 'd' && "werf-import-source-stage-id-"[5] == 'i';
  }

  /** No label of a kept stage points at a stage that was in the repo and is deleted: not the parent
      label, and without Git-policy marks neither a dependency label nor an import label. */
  lemma LabelsKept(repo: Repo, marked: map<string, Reason>, kept: set<string>, s: string, l: string)
    requires NoOrphans(repo, marked, kept) && s in kept && !repo[s].isIndex && l in repo[s].labels && repo[s].labels[l] in repo
    ensures l == "werf.io/parent-stage-id" ==> repo[s].labels[l] in kept
    ensures GitPolicy !in marked.Values && "werf-dependency-stage-id-" <= l ==> repo[s].labels[l] in kept
    ensures GitPolicy !in marked.Values && "werf-import-source-stage-id-" <= l && !("external-image" <= repo[s].labels[l]) ==>
              repo[s].labels[l] in kept
  {
    var t := repo[s].labels[l];
    SourceExact(repo, s, t);
    assert l == "werf.io/parent-stage-id" ==> IsParent(repo, s, t);
  }

  /** For every platform of a marked index that the repo has a stage for, one such stage is kept. */
  lemma PlatformsStay(repo: Repo, marked: map<string, Reason>, kept: set<string>, s: string, t: string)
    requires NoOrphans(repo, marked, kept) && s in marked && repo[s].isIndex
    requires t in repo && repo[t].digest != "" && repo[t].digest in repo[s].platforms
    ensures exists u :: u in kept && u in repo && repo[u].digest == repo[t].digest
  {
    assert PlatformsKept(repo, s, kept);
  }

  /** Nothing is kept for a parent but what the parent label names. */
  lemma ParentExact(repo: Repo, s: string, t: string)
    requires t != ""
    ensures IsParent(repo, s, t) <==>
            s in repo && t in repo && "werf.io/parent-stage-id" in repo[s].labels && repo[s].labels["werf.io/parent-stage-id"] == t
  {
  }

  lemma HandledGrows(all: set<string>, handled: set<string>, s: string)
    requires s in all && s !in handled
    ensures |all - (handled + {s})| < |all - handled|
  {
    assert all - (handled + {s}) == (all - handled) - {s};
  }

  /** Without indexes and Git-policy marks the stages left are exactly the marked ones and all their
      relatives, so no visiting order can change them. */
  lemma LeftIsClosure(repo: Repo, marked: map<string, Reason>, left: set<string>, s: string)
    requires NoOrphans(repo, marked, left) && GitPolicy !in marked.Values
    requires forall t :: t in left ==> !repo[t].isIndex
    ensures s in left <==> IsDerived(repo, marked.Keys, s)
  {
    if IsDerived(repo, marked.Keys, s) {
      var k: nat :| Derived(repo, marked.Keys, s, k);
      DerivedLeft(repo, marked, left, s, k);
    }
  }

  lemma {:induction false} DerivedLeft(repo: Repo, marked: map<string, Reason>, left: set<string>, s: string, k: nat)
    requires NoOrphans(repo, marked, left) && GitPolicy !in marked.Values
    requires forall t :: t in left ==> !repo[t].isIndex
    requires Derived(repo, marked.Keys, s, k)
    ensures s in left
    decreases k
  {
    if k > 0 {
      var t :| Derived(repo, marked.Keys, t, k - 1) && Relative(repo, t, s);
      DerivedLeft(repo, marked, left, t, k - 1);
    }
  }
}
