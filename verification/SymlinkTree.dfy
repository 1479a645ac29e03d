/** The archive a `docker cp` stream leaves behind, the lookup an image filesystem performs
    through its links, and the link expansion the extractor performs instead.

    Paths are component lists relative to the destination directory, which is itself `[]`. */
module SymlinkTree {
  import opened Basics

  type Path = seq<string>

  datatype Archive = Archive(files: set<Path>, links: map<Path, Path>)

  /** No component of `p` is a recorded link. */
  ghost predicate LinkFree(a: Archive, p: Path) {
    forall l :: l in a.links ==> !(l <= p)
  }

  /** Nothing is recorded below a link, and no name is both a file and a link. */
  ghost predicate WellFormed(a: Archive) {
    && (forall l, m :: l in a.links && m in a.links && l <= m ==> l == m)
    && (forall l, f :: l in a.links && f in a.files ==> !(l <= f))
  }

  function Redirect(a: Archive, l: Path, p: Path): Path
    requires l in a.links && l <= p
  {
    a.links[l] + p[|l|..]
  }

  // ---- The links a lookup follows, in order.

  datatype Hops = Done | Hop(link: Path, rest: Hops)

  ghost function Count(hs: Hops): nat {
    match hs case Done => 0 case Hop(_, rest) => 1 + Count(rest)
  }

  ghost function Links(hs: Hops): set<Path> {
    match hs case Done => {} case Hop(l, rest) => {l} + Links(rest)
  }

  ghost predicate Distinct(hs: Hops) {
    match hs case Done => true case Hop(l, rest) => l !in Links(rest) && Distinct(rest)
  }

  ghost function Append(hs: Hops, ks: Hops): (r: Hops)
    ensures Links(r) == Links(hs) + Links(ks) && Count(r) == Count(hs) + Count(ks)
    ensures Distinct(r) <==> Distinct(hs) && Distinct(ks) && Links(hs) !! Links(ks)
  {
    match hs case Done => ks case Hop(l, rest) => Hop(l, Append(rest, ks))
  }

  // ---- The reference: one link at a time, the outermost link first, as a kernel walks.

  ghost predicate FirstLink(a: Archive, l: Path, p: Path) {
    l in a.links && l <= p && forall m :: m in a.links && m <= p ==> |l| <= |m|
  }

  /** `p` becomes `q` by following exactly the links `hs`. */
  ghost predicate Walk(a: Archive, p: Path, hs: Hops, q: Path)
    decreases hs
  {
    match hs
    case Done => p == q
    case Hop(l, rest) => FirstLink(a, l, p) && Walk(a, Redirect(a, l, p), rest, q)
  }

  /** Looking `p` up ends at the link-free path `q`. */
  ghost predicate ReadsAs(a: Archive, p: Path, q: Path) {
    LinkFree(a, q) && exists hs :: Walk(a, p, hs, q)
  }

  /** As `Walk`, and every link followed has something below it: it is used as a directory. */
  ghost predicate DirectoryWalk(a: Archive, p: Path, hs: Hops, q: Path)
    decreases hs
  {
    match hs
    case Done => p == q
    case Hop(l, rest) => FirstLink(a, l, p) && l < p && DirectoryWalk(a, Redirect(a, l, p), rest, q)
  }

  // ---- The extractor: longest link prefix, bounded expansion, expansion chains.

  function LongestLink(a: Archive, p: Path): (r: Option<Path>)
    ensures r.Some? ==> r.value in a.links && r.value <= p
    decreases |p|
  {
    if p in a.links then Some(p) else if p == [] then None else LongestLink(a, p[..|p| - 1])
  }

  lemma {:induction false} LongestLinkExact(a: Archive, p: Path)
    ensures LongestLink(a, p).None? <==> LinkFree(a, p)
    ensures LongestLink(a, p).Some? ==> forall m :: m in a.links && m <= p ==> m <= LongestLink(a, p).value
    decreases |p|
  {
    if p !in a.links && p != [] {
      LongestLinkExact(a, p[..|p| - 1]);
      forall m | m in a.links && m <= p ensures m <= p[..|p| - 1] {
        assert |m| == |p| ==> m == p;
      }
    }
  }

  /** Replaces link prefixes at most `n` times; `None` when a link is still left then. */
  function Expand(a: Archive, p: Path, n: nat): Option<Path>
    decreases n
  {
    match LongestLink(a, p)
    case None => Some(p)
    case Some(l) => if n == 0 then None else Expand(a, Redirect(a, l, p), n - 1)
  }

  /** Where the extractor takes link `l` to lead: expansion is cut after one round per recorded
      link, and a link to the copied directory itself leads nowhere. */
  function Target(a: Archive, l: Path): Option<Path>
    requires l in a.links
  {
    var t := Expand(a, a.links[l], |a.links|);
    if t == Some([]) then None else t
  }

  /** `d` gets the contents of the archive file `s` by expanding the links `hs` in turn, each
      found below the target of the one before. */
  ghost predicate Chain(a: Archive, hs: Hops, d: Path, s: Path) {
    && hs.Hop? && hs.link in a.links && hs.link < d && Target(a, hs.link).Some?
    && var p := Target(a, hs.link).value + d[|hs.link|..];
    if hs.rest.Done? then p == s && s in a.files else Chain(a, hs.rest, p, s)
  }

  /** The chains a call for `l` explores while the links `active` are being expanded. */
  ghost predicate Fresh(hs: Hops, l: Path, active: set<Path>) {
    hs.Hop? && hs.link == l && Distinct(hs) && Links(hs) !! active
  }

  /** What the extractor copies: `d` from the archive file `s`. */
  ghost predicate Copied(a: Archive, d: Path, s: Path) {
    exists hs :: Chain(a, hs, d, s) && Distinct(hs)
  }

  // ---- Lookup facts.

  lemma Comparable(l: Path, m: Path, p: Path)
    requires l <= p && m <= p
    ensures l <= m || m <= l
  {
  }

  /** In a well-formed archive a path crosses at most one link, so outermost is longest. */
  lemma SoleLink(a: Archive, l: Path, m: Path, p: Path)
    requires WellFormed(a) && l in a.links && m in a.links && l <= p && m <= p
    ensures l == m
    ensures FirstLink(a, l, p)
  {
    Comparable(l, m, p);
    forall k | k in a.links && k <= p ensures k == l { Comparable(l, k, p); }
  }

  lemma {:induction false} WalkTrans(a: Archive, p: Path, hs: Hops, q: Path, ks: Hops, r: Path)
    requires Walk(a, p, hs, q) && Walk(a, q, ks, r)
    ensures Walk(a, p, Append(hs, ks), r)
    decreases hs
  {
    match hs
    case Done =>
    case Hop(l, rest) => WalkTrans(a, Redirect(a, l, p), rest, q, ks, r);
  }

  lemma RedirectBelow(a: Archive, l: Path, p: Path, x: Path)
    requires l in a.links && l <= p
    ensures l <= p + x && Redirect(a, l, p + x) == Redirect(a, l, p) + x
  {
  }

  /** What a directory link does to a path it does to everything below the path. */
  lemma {:induction false} WalkBelow(a: Archive, p: Path, hs: Hops, q: Path, x: Path)
    requires WellFormed(a) && Walk(a, p, hs, q)
    ensures Walk(a, p + x, hs, q + x)
    decreases hs
  {
    match hs
    case Done =>
    case Hop(l, rest) =>
      RedirectBelow(a, l, p, x);
      SoleLink(a, l, l, p + x);
      WalkBelow(a, Redirect(a, l, p), rest, q, x);
  }

  lemma FirstLinkUnique(a: Archive, l: Path, m: Path, p: Path)
    requires FirstLink(a, l, p) && FirstLink(a, m, p)
    ensures l == m
  {
    Comparable(l, m, p);
  }

  lemma {:induction false} WalkDeterministic(a: Archive, p: Path, hs: Hops, q: Path, ks: Hops, r: Path)
    requires Walk(a, p, hs, q) && Walk(a, p, ks, r) && LinkFree(a, q) && LinkFree(a, r)
    ensures q == r && hs == ks
    decreases hs
  {
    if hs.Hop? && ks.Hop? {
      FirstLinkUnique(a, hs.link, ks.link, p);
      WalkDeterministic(a, Redirect(a, hs.link, p), hs.rest, q, ks.rest, r);
    }
  }

  /** A path reads as at most one file. */
  lemma ReadsAsUnique(a: Archive, p: Path, q: Path, r: Path)
    requires ReadsAs(a, p, q) && ReadsAs(a, p, r)
    ensures q == r
  {
    var hs :| Walk(a, p, hs, q);
    var ks :| Walk(a, p, ks, r);
    WalkDeterministic(a, p, hs, q, ks, r);
  }

  // ---- Bounded expansion against the lookup.

  lemma LongestIsFirst(a: Archive, p: Path, l: Path)
    requires WellFormed(a) && FirstLink(a, l, p)
    ensures LongestLink(a, p) == Some(l)
  {
    LongestLinkExact(a, p);
    SoleLink(a, LongestLink(a, p).value, l, p);
  }

  lemma {:induction false} ExpandWalks(a: Archive, p: Path, n: nat, q: Path) returns (hs: Hops)
    requires WellFormed(a) && Expand(a, p, n) == Some(q)
    ensures Count(hs) <= n && Walk(a, p, hs, q) && LinkFree(a, q)
    decreases n
  {
    match LongestLink(a, p)
    case None =>
      LongestLinkExact(a, p);
      hs := Done;
    case Some(l) =>
      SoleLink(a, l, l, p);
      var rest := ExpandWalks(a, Redirect(a, l, p), n - 1, q);
      hs := Hop(l, rest);
  }

  lemma {:induction false} WalkExpands(a: Archive, p: Path, hs: Hops, q: Path, n: nat)
    requires WellFormed(a) && Walk(a, p, hs, q) && LinkFree(a, q) && Count(hs) <= n
    ensures Expand(a, p, n) == Some(q)
    decreases hs
  {
    match hs
    case Done =>
      LongestLinkExact(a, p);
    case Hop(l, rest) =>
      LongestIsFirst(a, p, l);
      WalkExpands(a, Redirect(a, l, p), rest, q, n - 1);
  }

  ghost predicate WithinBound(a: Archive, p: Path, t: Path) {
    LinkFree(a, t) && exists hs :: Walk(a, p, hs, t) && Count(hs) <= |a.links|
  }

  /** The bound, exactly: the extractor finds the target of a link if and only if looking the
      link's recorded target up ends strictly below the root after at most as many hops as
      there are recorded links. */
  lemma TargetExact(a: Archive, l: Path, t: Path)
    requires WellFormed(a) && l in a.links
    ensures Target(a, l) == Some(t) <==> t != [] && WithinBound(a, a.links[l], t)
  {
    if Target(a, l) == Some(t) {
      var hs := ExpandWalks(a, a.links[l], |a.links|, t);
    }
    if t != [] && WithinBound(a, a.links[l], t) {
      var hs :| Walk(a, a.links[l], hs, t) && Count(hs) <= |a.links|;
      WalkExpands(a, a.links[l], hs, t, |a.links|);
    }
  }

  lemma {:induction false} DistinctFits(hs: Hops, s: set<Path>)
    requires Distinct(hs) && Links(hs) <= s
    ensures Count(hs) <= |s|
    decreases hs
  {
    if hs.Hop? { DistinctFits(hs.rest, s - {hs.link}); }
  }

  lemma {:induction false} WalkUsesLinks(a: Archive, p: Path, hs: Hops, q: Path)
    requires Walk(a, p, hs, q)
    ensures Links(hs) <= a.links.Keys
    decreases hs
  {
    if hs.Hop? { WalkUsesLinks(a, Redirect(a, hs.link, p), hs.rest, q); }
  }

  // ---- Soundness.

  /** Expanding one link is a walk from the link to its target, for everything below it. */
  lemma ExpandLink(a: Archive, l: Path, d: Path) returns (hs: Hops)
    requires WellFormed(a) && l in a.links && l <= d && Target(a, l).Some?
    ensures Walk(a, d, hs, Target(a, l).value + d[|l|..])
  {
    var inner := ExpandWalks(a, a.links[l], |a.links|, Target(a, l).value);
    WalkBelow(a, a.links[l], inner, Target(a, l).value, d[|l|..]);
    SoleLink(a, l, l, d);
    hs := Hop(l, inner);
  }

  /** Everything a chain copies to `d` is what the image shows at `d`, through any depth of
      nested links. */
  lemma {:induction false} ChainSound(a: Archive, hs: Hops, d: Path, s: Path)
    requires WellFormed(a) && Chain(a, hs, d, s)
    ensures ReadsAs(a, d, s) && s in a.files
    decreases hs
  {
    var here := ExpandLink(a, hs.link, d);
    if hs.rest.Hop? {
      var p := Target(a, hs.link).value + d[|hs.link|..];
      ChainSound(a, hs.rest, p, s);
      var rest :| Walk(a, p, rest, s);
      WalkTrans(a, d, here, p, rest, s);
    }
  }

  /** So a path is copied from at most one file, whichever links lead to it. */
  lemma CopiedUnique(a: Archive, d: Path, s: Path, s': Path)
    requires WellFormed(a) && Copied(a, d, s) && Copied(a, d, s')
    ensures s == s'
  {
    var hs :| Chain(a, hs, d, s);
    var hs' :| Chain(a, hs', d, s');
    ChainSound(a, hs, d, s);
    ChainSound(a, hs', d, s');
    ReadsAsUnique(a, d, s, s');
  }

  // ---- Completeness.

  ghost predicate LeadsToRoot(a: Archive, l: Path)
    requires l in a.links
  {
    ReadsAs(a, a.links[l], [])
  }

  ghost predicate NoneToRoot(a: Archive, hs: Hops) {
    forall l :: l in Links(hs) && l in a.links ==> !LeadsToRoot(a, l)
  }

  lemma {:induction false} DirectoryWalkIsWalk(a: Archive, p: Path, hs: Hops, q: Path)
    requires DirectoryWalk(a, p, hs, q)
    ensures Walk(a, p, hs, q)
    decreases hs
  {
    if hs.Hop? { DirectoryWalkIsWalk(a, Redirect(a, hs.link, p), hs.rest, q); }
  }

  lemma InnerHop(a: Archive, p: Path, x: Path, hs: Hops, q: Path)
    requires WellFormed(a) && DirectoryWalk(a, p + x, hs, q) && LinkFree(a, q) && !LinkFree(a, p)
    ensures hs.Hop? && FirstLink(a, hs.link, p)
    ensures DirectoryWalk(a, Redirect(a, hs.link, p) + x, hs.rest, q)
  {
    var l :| l in a.links && l <= p;
    RedirectBelow(a, l, p, x);
    SoleLink(a, l, hs.link, p + x);
    SoleLink(a, l, l, p);
  }

  /** A walk of `p + x` first finishes inside `p`: following `inner` turns `p` into the link-free
      `t`, and the walk goes on from `t + x` with the links `later`. */
  lemma {:induction false} SplitWalk(a: Archive, p: Path, x: Path, hs: Hops, q: Path)
    returns (inner: Hops, later: Hops, t: Path)
    requires WellFormed(a) && DirectoryWalk(a, p + x, hs, q) && LinkFree(a, q)
    ensures hs == Append(inner, later) && Walk(a, p, inner, t) && LinkFree(a, t)
    ensures DirectoryWalk(a, t + x, later, q)
    decreases hs
  {
    if LinkFree(a, p) {
      inner, later, t := Done, hs, p;
    } else {
      InnerHop(a, p, x, hs, q);
      inner, later, t := SplitWalk(a, Redirect(a, hs.link, p), x, hs.rest, q);
      inner := Hop(hs.link, inner);
    }
  }

  /** A lookup that follows directory links only, none of them twice and none leading to the
      copied root, is found by the extractor. The bound suffices because the hops are distinct. */
  lemma {:induction false} WalkComplete(a: Archive, d: Path, ks: Hops, s: Path) returns (hs: Hops)
    requires WellFormed(a) && s in a.files && ks.Hop?
    requires DirectoryWalk(a, d, ks, s) && Distinct(ks)
    requires NoneToRoot(a, ks)
    ensures Chain(a, hs, d, s) && Fresh(hs, ks.link, {}) && Links(hs) <= Links(ks)
    decreases Count(ks)
  {
    var l := ks.link;
    var inner, later, t := SplitWalk(a, a.links[l], d[|l|..], ks.rest, s);
    assert Target(a, l) == Some(t) by {
      DirectoryWalkIsWalk(a, d, ks, s);
      WalkUsesLinks(a, d, ks, s);
      DistinctFits(ks, a.links.Keys);
      WalkExpands(a, a.links[l], inner, t, |a.links|);
      assert t == [] ==> ReadsAs(a, a.links[l], []);
    }
    if later.Done? {
      hs := Hop(l, Done);
    } else {
      var tail := WalkComplete(a, t + d[|l|..], later, s);
      hs := Hop(l, tail);
    }
  }

  // ---- What is copied, exactly.

  /** The lookup of `d` ends at the file `s`, crossing the links `ls` on the way down: each is resolved
      on its own, however many links that takes, before the rest of the path is looked at. */
  ghost predicate Outer(a: Archive, d: Path, ls: Hops, s: Path)
    decreases ls
  {
    && ls.Hop? && FirstLink(a, ls.link, d) && ls.link < d
    && exists t :: ReadsAs(a, a.links[ls.link], t)
                   && var p := t + d[|ls.link|..];
                      if ls.rest.Done? then p == s && s in a.files else Outer(a, p, ls.rest, s)
  }

  /** Resolving the link takes no more hops than there are links, and does not end at the root. */
  ghost predicate Resolves(a: Archive, l: Path) {
    l in a.links && exists t :: t != [] && WithinBound(a, a.links[l], t)
  }

  ghost predicate AllResolve(a: Archive, ls: Hops) {
    match ls case Done => true case Hop(l, rest) => Resolves(a, l) && AllResolve(a, rest)
  }

  /** The links crossed on the way down are determined by the path. */
  lemma {:induction false} OuterUnique(a: Archive, d: Path, ls: Hops, s: Path, ks: Hops, r: Path)
    requires WellFormed(a) && Outer(a, d, ls, s) && Outer(a, d, ks, r)
    ensures ls == ks && s == r
    decreases ls
  {
    FirstLinkUnique(a, ls.link, ks.link, d);
    var l := ls.link;
    var t :| ReadsAs(a, a.links[l], t) && var p := t + d[|l|..];
               if ls.rest.Done? then p == s && s in a.files else Outer(a, p, ls.rest, s);
    var u :| ReadsAs(a, a.links[l], u) && var p := u + d[|l|..];
               if ks.rest.Done? then p == r && r in a.files else Outer(a, p, ks.rest, r);
    ReadsAsUnique(a, a.links[l], t, u);
    if ls.rest.Hop? && ks.rest.Hop? { OuterUnique(a, t + d[|l|..], ls.rest, s, ks.rest, r); }
  }

  /** A chain of the extractor is a lookup whose links all resolve, and the other way round. */
  lemma {:induction false} ChainIsOuter(a: Archive, d: Path, ls: Hops, s: Path)
    requires WellFormed(a)
    ensures Chain(a, ls, d, s) <==> Outer(a, d, ls, s) && AllResolve(a, ls)
    decreases ls
  {
    if Chain(a, ls, d, s) {
      var t := Target(a, ls.link).value;
      TargetExact(a, ls.link, t);
      SoleLink(a, ls.link, ls.link, d);
      if ls.rest.Hop? { ChainIsOuter(a, t + d[|ls.link|..], ls.rest, s); }
    }
    if Outer(a, d, ls, s) && AllResolve(a, ls) {
      var l := ls.link;
      var t :| ReadsAs(a, a.links[l], t) && var p := t + d[|l|..];
                 if ls.rest.Done? then p == s && s in a.files else Outer(a, p, ls.rest, s);
      var u :| u != [] && WithinBound(a, a.links[l], u);
      ReadsAsUnique(a, a.links[l], t, u);
      TargetExact(a, l, t);
      if ls.rest.Hop? { ChainIsOuter(a, t + d[|l|..], ls.rest, s); }
    }
  }

  /** A path is copied if and only if its lookup ends at an archive file and the links it crosses on
      the way down are distinct, and each resolves within the bound and not to the root. */
  lemma CopiedExact(a: Archive, d: Path, s: Path)
    requires WellFormed(a)
    ensures Copied(a, d, s) <==> exists ls :: Outer(a, d, ls, s) && Distinct(ls) && AllResolve(a, ls)
  {
    if Copied(a, d, s) {
      var ls :| Chain(a, ls, d, s) && Distinct(ls);
      ChainIsOuter(a, d, ls, s);
    }
    if ls :| Outer(a, d, ls, s) && Distinct(ls) && AllResolve(a, ls) { ChainIsOuter(a, d, ls, s); }
  }

  /** So a lookup that crosses the links `ls` is missed exactly if one of them repeats or does not
      resolve. */
  lemma MissedExact(a: Archive, d: Path, ls: Hops, s: Path)
    requires WellFormed(a) && Outer(a, d, ls, s)
    ensures Copied(a, d, s) <==> Distinct(ls) && AllResolve(a, ls)
  {
    CopiedExact(a, d, s);
    if ks :| Outer(a, d, ks, s) && Distinct(ks) && AllResolve(a, ks) { OuterUnique(a, d, ls, s, ks, s); }
  }

  /** Every lookup over directory links that ends at a file is such a way down. */
  lemma {:induction false} DirectoryWalkOuter(a: Archive, d: Path, ks: Hops, s: Path) returns (ls: Hops)
    requires WellFormed(a) && s in a.files && ks.Hop? && DirectoryWalk(a, d, ks, s)
    ensures Outer(a, d, ls, s) && Links(ls) <= Links(ks)
    decreases Count(ks)
  {
    var l := ks.link;
    var inner, later, t := SplitWalk(a, a.links[l], d[|l|..], ks.rest, s);
    assert ReadsAs(a, a.links[l], t);
    if later.Done? {
      ls := Hop(l, Done);
    } else {
      var tail := DirectoryWalkOuter(a, t + d[|l|..], later, s);
      ls := Hop(l, tail);
    }
  }

  // ---- The bound also drops links no cycle is involved in.

  const DETOUR_LINKS: map<Path, Path> :=
    map[["a"] := ["dd"], ["dd", "n"] := ["a", "qq"], ["dd", "qq", "m"] := ["a", "rrr"], ["lnk"] := ["a", "n", "m"]]

  const DETOUR := Archive({["dd", "rrr", "f"]}, DETOUR_LINKS)

  lemma DetourWellFormed()
    ensures WellFormed(DETOUR) && DETOUR.links.Keys == {["a"], ["dd", "n"], ["dd", "qq", "m"], ["lnk"]}
    ensures LinkFree(DETOUR, ["dd", "rrr"]) && LinkFree(DETOUR, ["dd", "rrr", "f"])
  {
    var keys: set<Path> := {["a"], ["dd", "n"], ["dd", "qq", "m"], ["lnk"]};
    assert DETOUR.links.Keys == keys;
    forall l, m: Path | l in keys && m in keys && l <= m ensures l == m {
      assert l[0] == m[0] && (|l| > 1 ==> l[1] == m[1]);
    }
    forall l: Path | l in keys ensures !(l <= ["dd", "rrr"]) && !(l <= ["dd", "rrr", "f"]) {
      assert l[0] == "dd" ==> l[1] != "rrr";
    }
  }

  lemma DetourHop(l: Path, p: Path, hs: Hops, next: Path) returns (longer: Hops)
    requires l in DETOUR_LINKS && l <= p && next == DETOUR_LINKS[l] + p[|l|..]
    requires Walk(DETOUR, next, hs, ["dd", "rrr"])
    ensures Walk(DETOUR, p, longer, ["dd", "rrr"]) && Count(longer) == Count(hs) + 1
  {
    DetourWellFormed();
    SoleLink(DETOUR, l, l, p);
    longer := Hop(l, hs);
  }

  lemma DetourHops() returns (hs: Hops)
    ensures Walk(DETOUR, ["a", "n", "m"], hs, ["dd", "rrr"]) && Count(hs) == 5
  {
    hs := DetourMiddle();
    hs := DetourHop(["dd", "n"], ["dd", "n", "m"], hs, ["a", "qq", "m"]);
    hs := DetourHop(["a"], ["a", "n", "m"], hs, ["dd", "n", "m"]);
  }

  lemma DetourMiddle() returns (hs: Hops)
    ensures Walk(DETOUR, ["a", "qq", "m"], hs, ["dd", "rrr"]) && Count(hs) == 3
  {
    hs := DetourHead();
    hs := DetourHop(["a"], ["a", "qq", "m"], hs, ["dd", "qq", "m"]);
  }

  lemma DetourHead() returns (hs: Hops)
    ensures Walk(DETOUR, ["dd", "qq", "m"], hs, ["dd", "rrr"]) && Count(hs) == 2
  {
    hs := DetourHop(["a"], ["a", "rrr"], Done, ["dd", "rrr"]);
    hs := DetourHop(["dd", "qq", "m"], ["dd", "qq", "m"], hs, ["a", "rrr"]);
  }

  lemma DetourUntargeted()
    ensures ["lnk"] in DETOUR.links && Target(DETOUR, ["lnk"]) == None
  {
    DetourWellFormed();
    var hs := DetourHops();
    assert |DETOUR.links| == |DETOUR.links.Keys| == 4;
    if Target(DETOUR, ["lnk"]).Some? {
      var t := Target(DETOUR, ["lnk"]).value;
      TargetExact(DETOUR, ["lnk"], t);
      var ks :| Walk(DETOUR, ["a", "n", "m"], ks, t) && Count(ks) <= 4;
      WalkDeterministic(DETOUR, ["a", "n", "m"], hs, ["dd", "rrr"], ks, t);
      assert false;
    }
  }

  /** `lnk/f` is a plain file of the image, five hops away over four links, `a` being crossed three
      times at different depths. The extractor leaves it out, although nothing loops. */
  lemma BoundDropsDetour()
    ensures WellFormed(DETOUR) && ["dd", "rrr", "f"] in DETOUR.files
    ensures ReadsAs(DETOUR, ["lnk", "f"], ["dd", "rrr", "f"])
    ensures forall s :: !Copied(DETOUR, ["lnk", "f"], s)
  {
    DetourWellFormed();
    DetourReads();
    forall s | Copied(DETOUR, ["lnk", "f"], s) ensures false {
      DetourUntargeted();
      var ks :| Chain(DETOUR, ks, ["lnk", "f"], s) && Distinct(ks);
      SoleLink(DETOUR, ["lnk"], ks.link, ["lnk", "f"]);
    }
  }

  lemma DetourReads()
    ensures ReadsAs(DETOUR, ["lnk", "f"], ["dd", "rrr", "f"])
  {
    DetourWellFormed();
    var hs := DetourHops();
    WalkBelow(DETOUR, ["a", "n", "m"], hs, ["dd", "rrr"], ["f"]);
    SoleLink(DETOUR, ["lnk"], ["lnk"], ["lnk", "f"]);
    assert Redirect(DETOUR, ["lnk"], ["lnk", "f"]) == ["a", "n", "m"] + ["f"];
    assert Walk(DETOUR, ["lnk", "f"], Hop(["lnk"], hs), ["dd", "rrr"] + ["f"]);
    assert ["dd", "rrr"] + ["f"] == ["dd", "rrr", "f"];
  }
}
