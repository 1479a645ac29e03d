/** Removing a path together with the parent directories this leaves empty. */
module EmptyParents {
  /** A clean absolute path; the root is empty. */
  type Path = seq<string>

  datatype Kind = File | Dir

  type Tree = map<Path, Kind>

  /** Everything but the root stands in a directory. */
  ghost predicate WellFormed(t: Tree) {
    && [] in t && t[[]] == Dir
    && forall e, k: nat :: e in t && k < |e| ==> e[..k] in t && t[e[..k]] == Dir
  }

  datatype Stat = Found(kind: Kind) | NotExist | NotDirectory

  /** A file in the place of a directory is an error of its own. */
  function StatOf(t: Tree, p: Path): Stat {
    if p in t then Found(t[p])
    else if exists k :: 0 <= k < |p| && p[..k] in t && t[p[..k]] == File then NotDirectory
    else NotExist
  }

  /** A path below a file is looked up in vain, whatever else there is. */
  lemma FileAbove(t: Tree, p: Path)
    requires WellFormed(t)
    ensures StatOf(t, p).NotDirectory? <==> exists k :: 0 <= k < |p| && p[..k] in t && t[p[..k]] == File
  {
  }

  function ChildrenOf(t: Tree, p: Path): set<Path> {
    set e | e in t && |e| == |p| + 1 && p <= e
  }

  /** All at or below `p`; the root itself cannot be removed. */
  function Without(t: Tree, p: Path): Tree {
    map e | e in t && (e == [] || !(p <= e)) :: t[e]
  }

  lemma PrefixCut(a: Path, b: Path)
    ensures a <= b ==> b[..|a|] == a && (|a| == |b| ==> a == b)
  {
  }

  lemma PrefixTrans(a: Path, b: Path, c: Path)
    requires b <= c
    ensures a <= b ==> a <= c
  {
  }

  // ---- What is to go, said without climbing.

  /** No keep directory from `q` down to the parent of `path`. */
  ghost predicate Unkept(q: Path, path: Path, keep: seq<Path>) {
    forall r :: r in keep && q <= r && r <= path ==> r == path
  }

  /** Everything at or below `q` is on the line through `path`. */
  ghost predicate OnlyLine(t: Tree, q: Path, path: Path) {
    forall e :: e in t && q <= e ==> e <= path || path <= e
  }

  /** A parent that holds nothing but the way to `path`, with no keep directory on it. */
  ghost predicate Emptied(t: Tree, q: Path, path: Path, keep: seq<Path>) {
    q <= path && q != path && Unkept(q, path, keep) && OnlyLine(t, q, path)
  }

  ghost predicate Removed(t: Tree, e: Path, path: Path, keep: seq<Path>) {
    e != [] && (path <= e || Emptied(t, e, path, keep))
  }

  ghost predicate Left(before: Tree, after: Tree, path: Path, keep: seq<Path>) {
    forall e :: (e in after <==> e in before && !Removed(before, e, path, keep))
                && (e in after ==> e in before && after[e] == before[e])
  }

  // ---- Climbing.

  /** The parents of `path` of length `k` and more have been dealt with. */
  ghost predicate Climbed(t: Tree, now: Tree, path: Path, keep: seq<Path>, k: int) {
    && 0 <= k <= |path|
    && (forall e :: (e in now <==> e in t && !Gone(e, path, k)) && (e in now ==> e in t && now[e] == t[e]))
    && (k < |path| ==> Unkept(path[..k], path, keep))
    && OnlyLine(t, path[..k], path)
  }

  ghost predicate Gone(e: Path, path: Path, k: int) {
    e != [] && (path <= e || (e <= path && k <= |e|))
  }

  lemma ClimbStarts(t: Tree, path: Path, keep: seq<Path>)
    ensures Climbed(t, Without(t, path), path, keep, |path|)
  {
    assert path[..|path|] == path;
    forall e | e in t ensures path <= e <==> path <= e || (e <= path && |path| <= |e|) {
      if e <= path && |path| <= |e| { assert e == path; }
    }
  }

  lemma NothingThere(t: Tree, path: Path, keep: seq<Path>)
    requires WellFormed(t) && path !in t
    ensures Climbed(t, t, path, keep, |path|)
  {
    assert path[..|path|] == path;
    forall e | e in t ensures !Gone(e, path, |path|) {
      PrefixCut(path, e);
      PrefixCut(e, path);
    }
  }

  /** A parent that is not there, or has nothing left in it, has only the line below it. */
  lemma ClimbLine(t: Tree, now: Tree, path: Path, keep: seq<Path>, k: nat)
    requires WellFormed(t) && 0 < k && Climbed(t, now, path, keep, k)
    requires path[..k - 1] !in now || ChildrenOf(now, path[..k - 1]) == {}
    ensures OnlyLine(t, path[..k - 1], path)
  {
    var p := path[..k - 1];
    forall e | e in t && p <= e ensures e <= path || path <= e {
      if |e| < k {
        assert e == p;
      } else {
        var c := e[..k];
        assert c in t by { if |e| == k { assert c == e; } }
        assert e[..k - 1] == p == c[..k - 1];
        assert p in t;
        assert !Gone(p, path, k);
        assert p in now;
        assert c !in now by { assert c in now ==> c in ChildrenOf(now, p); }
        assert Gone(c, path, k);
        LineBelow(t, path, k, c, e);
      }
    }
  }

  lemma LineBelow(t: Tree, path: Path, k: nat, c: Path, e: Path)
    requires k <= |path| && OnlyLine(t, path[..k], path) && Gone(c, path, k) && |c| == k && c <= e && e in t
    ensures e <= path || path <= e
  {
    if c <= path { assert path[..k] == c; }
  }

  lemma ClimbSkips(t: Tree, now: Tree, path: Path, keep: seq<Path>, k: nat)
    requires WellFormed(t) && 0 < k && Climbed(t, now, path, keep, k)
    requires path[..k - 1] !in now && path[..k - 1] !in keep
    ensures Climbed(t, now, path, keep, k - 1)
  {
    ClimbLine(t, now, path, keep, k);
    UnkeptUp(path, keep, k);
    var p := path[..k - 1];
    forall e | e in now ensures !Gone(e, path, k - 1) {
      assert e <= path && |e| == k - 1 ==> e == p;
    }
  }

  lemma ClimbSeesNoFile(t: Tree, now: Tree, path: Path, keep: seq<Path>, k: nat, j: nat)
    requires WellFormed(t) && Climbed(t, now, path, keep, k) && !StatOf(t, path).NotDirectory? && j < |path|
    ensures !StatOf(now, path[..j]).NotDirectory?
  {
    forall i | 0 <= i < j && path[..j][..i] in now ensures now[path[..j][..i]] == Dir {
      assert path[..j][..i] == path[..i];
    }
  }

  lemma ClimbRemoves(t: Tree, now: Tree, path: Path, keep: seq<Path>, k: nat)
    requires WellFormed(t) && 0 < k && Climbed(t, now, path, keep, k)
    requires path[..k - 1] in now && ChildrenOf(now, path[..k - 1]) == {} && path[..k - 1] !in keep
    ensures Climbed(t, Without(now, path[..k - 1]), path, keep, k - 1)
  {
    ClimbLine(t, now, path, keep, k);
    UnkeptUp(path, keep, k);
    var p := path[..k - 1];
    forall e | e in t ensures Gone(e, path, k - 1) <==> Gone(e, path, k) || (e != [] && p <= e) {
      if p <= e && e != p && e != [] { LineGone(e, path, k); }
      if e <= path && |e| == k - 1 { assert e == p; }
      if path <= e { assert p <= e; }
      if e <= path && k - 1 <= |e| { assert p <= e; }
    }
  }

  lemma LineGone(e: Path, path: Path, k: nat)
    requires 0 < k <= |path| && path[..k - 1] <= e && e != path[..k - 1] && e != [] && (e <= path || path <= e)
    ensures Gone(e, path, k)
  {
    PrefixCut(e, path);
  }

  lemma UnkeptUp(path: Path, keep: seq<Path>, k: nat)
    requires 0 < k <= |path| && (k < |path| ==> Unkept(path[..k], path, keep)) && path[..k - 1] !in keep
    ensures Unkept(path[..k - 1], path, keep)
  {
    forall r | r in keep && path[..k - 1] <= r && r <= path ensures r == path {
      PrefixCut(r, path);
      if k < |path| { assert path[..k] <= r; }
    }
  }

  /** A parent that is kept or still holds something is where the removal ends. */
  lemma ClimbEnds(t: Tree, now: Tree, path: Path, keep: seq<Path>, k: nat)
    requires WellFormed(t) && Climbed(t, now, path, keep, k)
    requires k > 0 ==> path[..k - 1] in keep || ChildrenOf(now, path[..k - 1]) != {}
    ensures Left(t, now, path, keep)
    ensures k > 0 ==> !Emptied(t, [], path, keep)
  {
    forall e | e in t && e <= path && e != path ensures Emptied(t, e, path, keep) <==> k <= |e| {
      if k <= |e| {
        LineUp(t, path, keep, k, e);
      } else {
        EndStops(t, now, path, keep, k, e);
      }
    }
    assert k > 0 && path != [] ==> [] in t && [] <= path;
  }

  lemma LineUp(t: Tree, path: Path, keep: seq<Path>, k: nat, e: Path)
    requires k <= |e| && e <= path && e != path && k < |path|
    requires Unkept(path[..k], path, keep) && OnlyLine(t, path[..k], path)
    ensures Emptied(t, e, path, keep)
  {
    assert path[..k] <= e;
  }

  lemma EndStops(t: Tree, now: Tree, path: Path, keep: seq<Path>, k: nat, e: Path)
    requires WellFormed(t) && Climbed(t, now, path, keep, k) && |e| < k && e <= path
    requires path[..k - 1] in keep || ChildrenOf(now, path[..k - 1]) != {}
    ensures !Emptied(t, e, path, keep)
  {
    var p := path[..k - 1];
    assert e <= p;
    if p in keep {
      assert p <= path && p != path;
    } else {
      var c :| c in ChildrenOf(now, p);
      assert !Gone(c, path, k);
      assert e <= c;
    }
  }

  // ---- The code.

  class Disk {
    var entries: Tree

    constructor ()
      ensures entries == map[[] := Dir]
    {
      entries := map[[] := Dir];
    }

    method RemoveAll(p: Path) returns (ok: bool)
      modifies this
      ensures entries == Without(old(entries), p) && (ok <==> p != [])
    {
      entries := Without(entries, p);
      return p != [];
    }

    /** Succeeds unless a file stands where a directory should or the root would have to go; what is
        removed is exactly the path with what is below it and the parents this leaves empty. */
    method RemoveExactPathWithEmptyParentDirs(path: Path, keepParentDirs: seq<Path>) returns (ok: bool)
      requires WellFormed(entries)
      modifies this
      ensures (exists k :: 0 <= k < |path| && path[..k] in old(entries) && old(entries)[path[..k]] == File) ==>
                !ok && entries == old(entries)
      ensures StatOf(old(entries), path).NotDirectory? ==> !ok && entries == old(entries)
      ensures !StatOf(old(entries), path).NotDirectory? ==>
                && Left(old(entries), entries, path, keepParentDirs)
                && (ok <==> path != [] && !Emptied(old(entries), [], path, keepParentDirs))
    {
      ghost var t := entries;
      FileAbove(t, path);
      match StatOf(entries, path) {
        case NotDirectory => return false;
        case NotExist =>
          NothingThere(t, path, keepParentDirs);
        case Found(_) =>
          ClimbStarts(t, path, keepParentDirs);
          var removed := RemoveAll(path);
          if !removed {
            ClimbEnds(t, entries, path, keepParentDirs, 0);
            return false;
          }
      }
      ok := Climb(t, path, keepParentDirs);
    }

    /** The climb; `t` is the tree before the removal. It never runs out of parents, since the root
        is always there and never goes. */
    method Climb(ghost t: Tree, path: Path, keepParentDirs: seq<Path>) returns (ok: bool)
      requires WellFormed(t) && !StatOf(t, path).NotDirectory?
      requires path != [] && Climbed(t, entries, path, keepParentDirs, |path|)
      modifies this
      ensures Left(t, entries, path, keepParentDirs)
      ensures ok <==> !Emptied(t, [], path, keepParentDirs)
    {
      var p := path;
      while true
        invariant p <= path && p != [] && Climbed(t, entries, path, keepParentDirs, |p|)
        decreases |p|
      {
        var k := |p|;
        p := p[..k - 1];
        assert p == path[..k - 1];
        if p in keepParentDirs {
          ClimbEnds(t, entries, path, keepParentDirs, k);
          return true;
        }
        ClimbSeesNoFile(t, entries, path, keepParentDirs, k, k - 1);
        match StatOf(entries, p) {
          case NotExist =>
            ClimbSkips(t, entries, path, keepParentDirs, k);
          case Found(_) =>
            if ChildrenOf(entries, p) != {} {
              ClimbEnds(t, entries, path, keepParentDirs, k);
              return true;
            }
            ClimbRemoves(t, entries, path, keepParentDirs, k);
            var removed := RemoveAll(p);
            if !removed {
              ClimbEnds(t, entries, path, keepParentDirs, 0);
              return false;
            }
        }
      }
    }

    /** Empties a directory and leaves everything else as it is. */
    method RemoveInsidePath(path: Path) returns (ok: bool)
      requires WellFormed(entries)
      modifies this
      ensures WellFormed(entries)
      ensures ok <==> !exists k :: 0 <= k < |path| && path[..k] in old(entries) && old(entries)[path[..k]] == File
      ensures forall e :: (e in entries <==> e in old(entries) && !(ok && path <= e && e != path))
                          && (e in entries ==> e in old(entries) && entries[e] == old(entries)[e])
    {
      FileAbove(entries, path);
      if StatOf(entries, path).NotExist? {
        NothingBelow(entries, path);
        return true;
      }
      if StatOf(entries, path).NotDirectory? { return false; }
      ghost var t := entries;
      EmptyingStarts(t, path);
      if entries[path] != Dir { return true; }
      var left := ChildrenOf(entries, path);
      while left != {}
        invariant left <= ChildrenOf(t, path) && Emptying(t, entries, path, left)
        decreases left
      {
        var c :| c in left;
        EmptyingStep(t, entries, path, left, c);
        var removed := RemoveAll(c);
        if !removed { assert false; }
        left := left - {c};
      }
      EmptyingEnds(t, entries, path);
      return true;
    }
  }

  // ---- Emptying a directory.

  /** Gone is all that is below `path` and not at or below one of the children left. */
  ghost predicate Emptying(t: Tree, now: Tree, path: Path, left: set<Path>) {
    forall e :: (e in now <==> e in t && !(path <= e && |path| < |e| && e[..|path| + 1] !in left))
                && (e in now ==> e in t && now[e] == t[e])
  }

  // ---- What the contract of the climb means.

  /** The tree stays a tree. */
  lemma LeftWellFormed(before: Tree, after: Tree, path: Path, keep: seq<Path>)
    requires WellFormed(before) && Left(before, after, path, keep)
    ensures WellFormed(after)
  {
    forall e, k: nat | e in after && k < |e| ensures e[..k] in after && after[e[..k]] == Dir {
      var q := e[..k];
      assert q in before && q <= e && before[q] == Dir;
      PrefixTrans(path, q, e);
      if Emptied(before, q, path, keep) {
        assert e <= path || path <= e;
        assert e <= path && e != path ==> Emptied(before, e, path, keep);
      }
    }
  }

  /** The lowest parent left has something in it, is the root, or has a keep directory at it or
      below it on the way to `path`. */
  lemma LowestSurvivor(before: Tree, after: Tree, path: Path, keep: seq<Path>, q: Path)
    requires WellFormed(before) && Left(before, after, path, keep)
    requires q in after && q <= path && q != path
    requires forall e :: e in after && e <= path && e != path ==> |e| <= |q|
    ensures ChildrenOf(after, q) != {} || q == [] || !Unkept(q, path, keep)
  {
    if q != [] && Unkept(q, path, keep) {
      assert !Emptied(before, q, path, keep);
      var e :| e in before && q <= e && !(e <= path) && !(path <= e);
      assert !Removed(before, e, path, keep);
      LeftWellFormed(before, after, path, keep);
      var c := e[..|q| + 1];
      assert c in after by { if |e| == |q| + 1 { assert c == e; } }
      assert q <= c;
      assert c in ChildrenOf(after, q);
    }
  }

  /** A keep directory on the way from `q` down to the parent of `path`. */
  ghost predicate KeptBelow(q: Path, path: Path, keep: seq<Path>) {
    exists r :: r in keep && q <= r && r <= path && r != path
  }

  /** Exactly when the lowest parent left is none of a directory with something in it, the root or a
      keep directory: it was empty to begin with, and a keep directory below it stopped the climb. Such
      a directory does not exist, so with all keep directories in place this cannot be. */
  lemma SurvivorExact(before: Tree, after: Tree, path: Path, keep: seq<Path>, q: Path)
    requires WellFormed(before) && Left(before, after, path, keep)
    requires q in after && q <= path && q != path
    requires forall e :: e in after && e <= path && e != path ==> |e| <= |q|
    ensures ChildrenOf(after, q) != {} || q == [] || q in keep <==>
            !(q != [] && q !in keep && ChildrenOf(before, q) == {} && KeptBelow(q, path, keep))
    ensures q !in keep && KeptBelow(q, path, keep) && ChildrenOf(before, q) == {} ==>
              exists r :: r in keep && r <= path && r !in before
  {
    LowestSurvivor(before, after, path, keep, q);
    assert ChildrenOf(after, q) <= ChildrenOf(before, q);
    if q != [] && q !in keep && ChildrenOf(after, q) == {} && ChildrenOf(before, q) != {} {
      var c :| c in ChildrenOf(before, q);
      assert c in after ==> c in ChildrenOf(after, q);
      var r :| r in keep && q <= r && r <= path && r != path;
      KeptIsParent(before, path, keep, q, c, r);
    }
    if q !in keep && KeptBelow(q, path, keep) && ChildrenOf(before, q) == {} {
      var r :| r in keep && q <= r && r <= path && r != path;
      if r in before { HasChild(before, q, r); }
    }
  }

  lemma HasChild(t: Tree, q: Path, r: Path)
    requires WellFormed(t) && r in t && q <= r && r != q
    ensures ChildrenOf(t, q) != {}
  {
    PrefixCut(q, r);
    var c := r[..|q| + 1];
    assert c in t by { if |r| == |q| + 1 { assert c == r; } }
    assert c in ChildrenOf(t, q);
  }

  /** If a child of `q` went, no keep directory lies between it and `path`. */
  lemma KeptIsParent(before: Tree, path: Path, keep: seq<Path>, q: Path, c: Path, r: Path)
    requires c in ChildrenOf(before, q) && Removed(before, c, path, keep) && q <= path
    requires r in keep && q <= r && r <= path && r != path
    ensures r == q
  {
    PrefixCut(q, r);
    PrefixCut(r, path);
    assert !(path <= c) && |r| > |q| ==> c <= r;
  }

  /** A keep directory that does not exist stops the climb all the same. */
  lemma MissingKeepStops()
    ensures exists before: Tree, path: Path, keep: seq<Path>, q: Path ::
              WellFormed(before) && q in before && q <= path && q != path && q != [] && q !in keep
              && ChildrenOf(before, q) == {} && !Removed(before, q, path, keep)
  {
    var before: Tree := map[[] := Dir, ["a"] := Dir];
    var path, keep, q := ["a", "b", "c"], [["a", "b"]], ["a"];
    assert ["a"][..0] == [];
    assert ["a", "b"] in keep && ["a"] <= ["a", "b"] && ["a", "b"] <= path;
    assert !Unkept(q, path, keep);
    assert WellFormed(before) && !Removed(before, q, path, keep);
    assert ChildrenOf(before, q) == {};
  }

  lemma NothingBelow(t: Tree, path: Path)
    requires WellFormed(t) && (path !in t || t[path] != Dir)
    ensures forall e :: e in t && path <= e ==> e == path
  {
    forall e | e in t && path <= e ensures e == path { PrefixCut(path, e); }
  }

  lemma EmptyingStarts(t: Tree, path: Path)
    requires WellFormed(t) && path in t
    ensures Emptying(t, t, path, ChildrenOf(t, path))
    ensures t[path] != Dir ==> forall e :: e in t && path <= e ==> e == path
  {
    if t[path] != Dir { NothingBelow(t, path); }
    forall e | e in t && path <= e && |path| < |e| ensures e[..|path| + 1] in ChildrenOf(t, path) {
      if |e| == |path| + 1 { assert e[..|path| + 1] == e; }
    }
  }

  lemma EmptyingStep(t: Tree, now: Tree, path: Path, left: set<Path>, c: Path)
    requires Emptying(t, now, path, left) && left <= ChildrenOf(t, path) && c in left
    ensures c != [] && Emptying(t, Without(now, c), path, left - {c})
  {
    forall e ensures path <= e && |path| < |e| && e[..|path| + 1] == c <==> c <= e {
      if c <= e { assert e[..|path| + 1] == c; }
    }
  }

  lemma EmptyingEnds(t: Tree, now: Tree, path: Path)
    requires WellFormed(t) && Emptying(t, now, path, {})
    ensures WellFormed(now)
    ensures forall e :: e in now <==> e in t && !(path <= e && e != path)
  {
    forall e | path <= e && e != path ensures |path| < |e| {
      assert |path| == |e| ==> e == path;
    }
    forall e, k: nat | e in now && k < |e| ensures e[..k] in now && now[e[..k]] == Dir {
      assert e[..k] in t;
      assert path <= e[..k] ==> path <= e;
    }
  }
}
