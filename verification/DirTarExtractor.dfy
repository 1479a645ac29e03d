/** Extraction of a `docker cp <dir>` stream and materialisation of the links it recorded. */
module DirTarExtractor {
  import opened Basics
  import opened SymlinkTree
  import opened EntryPaths

  /** `complete` tells whether the stream delivered the whole file or broke off after `data`. */
  datatype Entry =
    | Symlink(name: Path, linkname: Path)
    | Regular(name: Path, data: string, complete: bool)
    | Other(name: Path)

  /** Nothing is recorded below a regular file. */
  ghost predicate TreeShaped(a: Archive) {
    forall f, p :: f in a.files && (p in a.files || p in a.links) ==> !(f < p)
  }

  /** The destination takes a file at `p`: no parent of it is a file, and it is no directory. */
  predicate CanWrite(disk: map<Path, string>, p: Path) {
    p != [] && forall q :: q in disk ==> !(q < p) && !(p < q)
  }

  /** No file lies below another. */
  ghost predicate Unnested(disk: map<Path, string>) {
    forall p, q :: p in disk && q in disk ==> !(p < q)
  }

  lemma UnnestedWrite(disk: map<Path, string>, p: Path, data: string)
    requires Unnested(disk) && CanWrite(disk, p)
    ensures Unnested(disk[p := data])
  {
  }

  /** `after` is `before` with every copied path holding the contents of its source. */
  ghost predicate Materialised(a: Archive, before: map<Path, string>, after: map<Path, string>) {
    && (forall p :: p in after ==> p in before || exists s :: Copied(a, p, s))
    && (forall p :: p in before ==> p in after)
    && (forall p, s :: Copied(a, p, s) ==> p in after && s in before && after[p] == before[s])
    && (forall p :: p in before && (forall s :: !Copied(a, p, s)) ==> after[p] == before[p])
  }

  /** The tree written does not depend on the order links and files are visited in. */
  lemma MaterialisedUnique(a: Archive, before: map<Path, string>, one: map<Path, string>, two: map<Path, string>)
    requires Materialised(a, before, one) && Materialised(a, before, two)
    ensures one == two
  {
    forall p | p in one || p in two ensures p in one && p in two && one[p] == two[p] {
      if s :| Copied(a, p, s) {
        assert one[p] == before[s];
      }
    }
  }

  /** The materialised tree reads like the image: every file in it holds what the image shows at
      that path. */
  lemma ShowsOnlyImage(a: Archive, before: map<Path, string>, after: map<Path, string>, p: Path) returns (s: Path)
    requires WellFormed(a) && before.Keys == a.files && Materialised(a, before, after) && p in after
    ensures s in a.files && ReadsAs(a, p, s) && after[p] == before[s]
  {
    if t :| Copied(a, p, t) {
      s := t;
      CopiedReads(a, p, t);
    } else {
      s := p;
      FileReadsAsItself(a, p);
    }
  }

  /** And every path the image leads to an archive file over distinct directory links, none of
      them leading to the copied directory itself, is in it. */
  lemma ShowsWholeImage(a: Archive, before: map<Path, string>, after: map<Path, string>, p: Path, hs: Hops, s: Path)
    requires WellFormed(a) && before.Keys == a.files && Materialised(a, before, after)
    requires s in a.files && DirectoryWalk(a, p, hs, s) && Distinct(hs) && NoneToRoot(a, hs)
    ensures p in after && after[p] == before[s]
  {
    if hs.Hop? {
      var ks := WalkComplete(a, p, hs, s);
      assert Copied(a, p, s);
    } else {
      forall t | Copied(a, p, t) ensures false { CopyHitsNoSource(a, p, t); }
    }
  }

  /** A path below links that the image leads to a file is written if and only if the links on the
      way down are distinct and each resolves within the bound and not to the copied directory. */
  lemma WrittenExact(a: Archive, before: map<Path, string>, after: map<Path, string>, p: Path, ls: Hops, s: Path)
    requires WellFormed(a) && before.Keys == a.files && Materialised(a, before, after) && Outer(a, p, ls, s)
    ensures p in after <==> Distinct(ls) && AllResolve(a, ls)
  {
    MissedExact(a, p, ls, s);
    if p in after {
      assert p !in a.files;
      var t :| Copied(a, p, t);
      CopiedExact(a, p, t);
      var ks :| Outer(a, p, ks, t) && Distinct(ks) && AllResolve(a, ks);
      OuterUnique(a, p, ls, s, ks, t);
    }
  }

  lemma CopiedReads(a: Archive, d: Path, s: Path)
    requires WellFormed(a) && Copied(a, d, s)
    ensures ReadsAs(a, d, s) && s in a.files
  {
    var hs :| Chain(a, hs, d, s) && Distinct(hs);
    ChainSound(a, hs, d, s);
  }

  lemma CopiedBelowLink(a: Archive, d: Path, s: Path)
    requires Copied(a, d, s)
    ensures exists l :: l in a.links && l < d
  {
    var hs :| Chain(a, hs, d, s) && Distinct(hs);
    assert hs.link in a.links;
  }

  /** No copy is written over a file the archive carried. */
  lemma CopyHitsNoSource(a: Archive, d: Path, s: Path)
    requires WellFormed(a) && Copied(a, d, s)
    ensures d !in a.files && s in a.files && d != []
  {
    CopiedBelowLink(a, d, s);
    CopiedReads(a, d, s);
  }

  lemma BelowFileReads(a: Archive, p: Path, f: Path, y: Path)
    requires WellFormed(a) && TreeShaped(a) && f in a.files && ReadsAs(a, p, f)
    ensures ReadsAs(a, p + y, f + y)
  {
    var hs :| Walk(a, p, hs, f);
    WalkBelow(a, p, hs, f, y);
    forall l | l in a.links && l <= f + y ensures false { Comparable(l, f, f + y); }
  }

  /** A path that reads as a file has nothing below it that does. */
  lemma FilesDoNotNest(a: Archive, p: Path, s: Path, q: Path, t: Path)
    requires WellFormed(a) && TreeShaped(a) && s in a.files && t in a.files
    requires ReadsAs(a, p, s) && ReadsAs(a, q, t)
    ensures !(p < q)
  {
    if p < q {
      var y := q[|p|..];
      assert q == p + y && s < s + y;
      BelowFileReads(a, p, s, y);
      ReadsAsUnique(a, q, s + y, t);
    }
  }

  lemma FileReadsAsItself(a: Archive, f: Path)
    requires WellFormed(a) && f in a.files
    ensures ReadsAs(a, f, f)
  {
    assert Walk(a, f, Done, f);
  }

  ghost predicate ReadsAsFile(a: Archive, p: Path) {
    exists s :: s in a.files && ReadsAs(a, p, s)
  }

  lemma WriteSucceeds(a: Archive, disk: map<Path, string>, d: Path)
    requires WellFormed(a) && TreeShaped(a) && d != [] && ReadsAsFile(a, d)
    requires forall q :: q in disk ==> ReadsAsFile(a, q)
    ensures CanWrite(disk, d)
  {
    var s :| s in a.files && ReadsAs(a, d, s);
    forall q | q in disk ensures !(q < d) && !(d < q) {
      var t :| t in a.files && ReadsAs(a, q, t);
      FilesDoNotNest(a, q, t, d, s);
      FilesDoNotNest(a, d, s, q, t);
    }
  }

  lemma SafeParts(dir: Path, name: string)
    requires Safe(dir + [name])
    ensures Safe(dir) && Safe([name])
  {
    forall i | 0 <= i < |dir| ensures !Skipped(dir[i]) && dir[i] != ".." { assert (dir + [name])[i] == dir[i]; }
    assert (dir + [name])[|dir|] == name;
  }

  /** The copies a call computes: exactly the destinations of the chains it may explore. */
  ghost predicate CopiesOf(a: Archive, l: Path, active: set<Path>, copies: map<Path, Path>) {
    && (forall d :: d in copies ==> Explored(a, l, active, d, copies[d]))
    && (forall d, s :: Explored(a, l, active, d, s) ==> d in copies)
  }

  class Extractor {
    const srcDir: Path
    const accepts: Path -> bool
    var links: map<Path, Path>
    var files: set<Path>
    var disk: map<Path, string>

    ghost predicate Valid()
      reads this
    {
      && Safe(srcDir)
      && files <= disk.Keys
      && (forall p :: p in disk ==> Safe(p)) && Unnested(disk)
      && (forall l :: l in links ==> Safe(l) && Safe(links[l]))
    }

    ghost function Recorded(): Archive
      reads this
    {
      Archive(files, links)
    }

    /** What was extracted is tree-shaped unless a link was recorded below a file. */
    lemma TreeShapedExact()
      requires Valid()
      ensures TreeShaped(Recorded()) <==> forall f, l :: f in files && l in links ==> !(f < l)
    {
    }

    constructor (srcDir: Path, accepts: Path -> bool)
      requires Safe(srcDir)
      ensures Valid() && links == map[] && files == {} && disk == map[]
      ensures this.srcDir == srcDir && this.accepts == accepts
    {
      this.srcDir := srcDir;
      this.accepts := accepts;
      links, files, disk := map[], {}, map[];
    }

    /** The copied directory's base name and a slash, as components; the root's base name is a slash. */
    function Prefix(): (p: Path)
      ensures p != []
    {
      if srcDir == [] then ["", ""] else [srcDir[|srcDir| - 1]]
    }

    /** Strips that prefix off an entry name. */
    function Relative(name: Path): (r: Path)
      requires name != []
      ensures r != []
      ensures r == name || name == Prefix() + r
    {
      if Prefix() < name then name[|Prefix()|..] else name
    }

    function Rebase(name: Path): (r: Path)
      requires name != []
      ensures Safe(r)
    {
      CleanRootedSafe([], Relative(name));
      CleanRooted([], Relative(name))
    }

    /** An entry below the copied directory's base name is put where it stands below the directory; one
        that does not start with that name, or is it alone, keeps its own. */
    lemma RebaseExact(p: Path)
      requires Safe(p) && p != []
      ensures srcDir != [] ==> Relative([srcDir[|srcDir| - 1]] + p) == p && Rebase([srcDir[|srcDir| - 1]] + p) == p
      ensures srcDir == [] ==> Relative(["", ""] + p) == p && Rebase(["", ""] + p) == p
      ensures srcDir == [] || p[0] != srcDir[|srcDir| - 1] || |p| == 1 ==> Relative(p) == p && Rebase(p) == p
    {
      CleanSafe([], p);
      assert [] + p == p;
      assert (Prefix() + p)[|Prefix()|..] == p;
    }

    /** A file named base + `p` goes to `p`, unless a file is in its way or it in the way of one. */
    ghost predicate FileLaid(name: Path, data: string, before: map<Path, string>, after: map<Path, string>,
                             filesBefore: set<Path>, filesAfter: set<Path>, ok: bool)
    {
      forall p ::
        Safe(p) && p != [] && srcDir != [] && name == [srcDir[|srcDir| - 1]] + p ==>
          if forall q :: q in before ==> !(q < p) && !(p < q)
          then ok && after == before[p := data] && filesAfter == filesBefore + {p}
          else !ok && after == before && filesAfter == filesBefore
    }

    /** A link named base + `dir` + `name` with the plain target `b` is recorded as leading to `b` next
        to it. */
    ghost predicate LinkLaid(link: Path, target: Path, before: map<Path, Path>, after: map<Path, Path>)
    {
      forall dir, name ::
        (Safe(dir + [name]) && Safe(target) && target != [] && srcDir != []
         && link == [srcDir[|srcDir| - 1]] + (dir + [name])) ==>
          after == before[dir + [name] := dir + target]
    }

    method ExtractLink(name: Path, linkname: Path)
      requires Valid() && name != []
      modifies this`links
      ensures Valid()
      ensures links == match RecordedTarget(srcDir, Relative(name), linkname)
                       case None => old(links)
                       case Some(target) => old(links)[Rebase(name) := target]
      ensures LinkLaid(name, linkname, old(links), links)
    {
      RecordedTargetFaithful(srcDir, Relative(name), linkname);
      forall dir, n | Safe(dir + [n]) && Safe(linkname) && linkname != [] && srcDir != []
                      && name == [srcDir[|srcDir| - 1]] + (dir + [n])
        ensures Rebase(name) == dir + [n] && RecordedTarget(srcDir, Relative(name), linkname) == Some(dir + linkname)
      {
        RebaseExact(dir + [n]);
        SafeParts(dir, n);
        TargetsRecorded(srcDir, dir, n, linkname);
      }
      match RecordedTarget(srcDir, Relative(name), linkname) {
        case None =>
        case Some(target) => links := links[Rebase(name) := target];
      }
    }

    method ExtractFile(name: Path, data: string, complete: bool) returns (ok: bool)
      requires Valid() && name != []
      modifies this`disk, this`files
      ensures Valid()
      ensures ok == (CanWrite(old(disk), Rebase(name)) && complete)
      ensures if CanWrite(old(disk), Rebase(name))
              then disk == old(disk)[Rebase(name) := data] && files == old(files) + (if complete then {Rebase(name)} else {})
              else disk == old(disk) && files == old(files)
      ensures complete ==> FileLaid(name, data, old(disk), disk, old(files), files, ok)
    {
      forall p | Safe(p) && p != [] && srcDir != [] && name == [srcDir[|srcDir| - 1]] + p ensures Rebase(name) == p {
        RebaseExact(p);
      }
      var dest := Rebase(name);
      if !CanWrite(disk, dest) { return false; }
      UnnestedWrite(disk, dest, data);
      disk := disk[dest := data];
      if !complete { return false; }
      files := files + {dest};
      return true;
    }

    /** `FileLaid` and `LinkLaid` say where entries go in the layout of the copied directory. */
    method Extract(entry: Entry) returns (ok: bool)
      requires Valid() && entry.name != []
      modifies this
      ensures Valid()
      ensures entry.Symlink? ==> ok && files == old(files) && disk == old(disk)
      ensures entry.Symlink? ==>
                links == match RecordedTarget(srcDir, Relative(entry.name), entry.linkname)
                         case None => old(links)
                         case Some(target) => old(links)[Rebase(entry.name) := target]
      ensures entry.Symlink? ==> LinkLaid(entry.name, entry.linkname, old(links), links)
      ensures entry.Regular? ==> links == old(links)
      ensures entry.Regular? ==>
                ok == (!accepts(entry.name) || (CanWrite(old(disk), Rebase(entry.name)) && entry.complete))
      ensures entry.Regular? && accepts(entry.name) && CanWrite(old(disk), Rebase(entry.name)) ==>
                && disk == old(disk)[Rebase(entry.name) := entry.data]
                && files == old(files) + (if entry.complete then {Rebase(entry.name)} else {})
      ensures entry.Regular? && accepts(entry.name) && entry.complete ==>
                FileLaid(entry.name, entry.data, old(disk), disk, old(files), files, ok)
      ensures entry.Other? ==> ok && links == old(links)
      ensures entry.Other? || (entry.Regular? && !(accepts(entry.name) && CanWrite(old(disk), Rebase(entry.name)))) ==>
                disk == old(disk) && files == old(files)
    {
      ok := true;
      match entry
      case Symlink(name, linkname) => ExtractLink(name, linkname);
      case Regular(name, data, complete) =>
        if accepts(name) { ok := ExtractFile(name, data, complete); }
      case Other(_) =>
    }

    /** Materialises the recorded links. In a well-formed archive the result is determined by the
        archive alone; if in addition the archive is a tree, no write is ever refused. */
    method ResolveSymlinks() returns (ok: bool)
      requires Valid()
      modifies this`disk
      ensures Valid()
      ensures WellFormed(Recorded()) && ok ==> Materialised(Recorded(), old(disk), disk)
      ensures WellFormed(Recorded()) && TreeShaped(Recorded()) && old(disk).Keys == files ==> ok
    {
      ghost var a, before := Recorded(), disk;
      ghost var source: map<Path, Path> := map[];
      var pending := links.Keys;
      ok := true;
      while pending != {}
        invariant Valid() && pending <= links.Keys && a == Recorded() && ok
        invariant AllCopied(a, source)
        invariant WellFormed(a) ==> Progress(files, before, disk, source)
        invariant forall l :: l in links.Keys - pending ==> AllWritten(a, l, source.Keys)
        decreases pending
      {
        var linkPath :| linkPath in pending;
        pending := pending - {linkPath};
        var copies := CollectLinkContents(linkPath, {});
        ghost var already := source;
        ok, source := WriteCopies(linkPath, copies, before, source);
        if !ok { return; }
        AllWrittenGrows(a, links.Keys - pending - {linkPath}, already.Keys, source.Keys);
      }
      if WellFormed(a) { ProgressDone(a, before, disk, source); }
    }

    method WriteCopies(linkPath: Path, copies: map<Path, Path>, ghost before: map<Path, string>, ghost already: map<Path, Path>)
      returns (ok: bool, ghost source: map<Path, Path>)
      requires Valid() && CopiesOf(Recorded(), linkPath, {}, copies) && AllCopied(Recorded(), already)
      requires WellFormed(Recorded()) ==> Progress(files, before, disk, already)
      modifies this`disk
      ensures Valid() && AllCopied(Recorded(), source) && already.Keys <= source.Keys
      ensures WellFormed(Recorded()) ==> Progress(files, before, disk, source)
      ensures ok ==> AllWritten(Recorded(), linkPath, source.Keys)
      ensures WellFormed(Recorded()) && TreeShaped(Recorded()) && before.Keys == files ==> ok
    {
      ghost var a := Recorded();
      source := already;
      ok := true;
      var todo := copies.Keys;
      while todo != {}
        invariant Valid() && todo <= copies.Keys && a == Recorded()
        invariant AllCopied(a, source) && already.Keys <= source.Keys && copies.Keys - todo <= source.Keys
        invariant WellFormed(a) ==> Progress(files, before, disk, source)
        decreases todo
      {
        var d :| d in todo;
        todo := todo - {d};
        var s := copies[d];
        ExploredFacts(this, linkPath, d, s);
        if !CanWrite(disk, d) {
          if WellFormed(a) && TreeShaped(a) && before.Keys == files {
            ProgressWrites(a, before, disk, source, d, s);
            assert false;
          }
          return false, source;
        }
        if WellFormed(a) {
          CopyHitsNoSource(a, d, s);
          ProgressStep(files, before, disk, source, d, s);
        }
        UnnestedWrite(disk, d, disk[s]);
        disk := disk[d := disk[s]];
        source := source[d := s];
      }
    }

    method FindLongestLink(p: Path) returns (r: Option<Path>)
      ensures r == LongestLink(Recorded(), p)
    {
      var cur := p;
      while cur !in links && cur != []
        invariant LongestLink(Recorded(), p) == LongestLink(Recorded(), cur)
        decreases |cur|
      {
        cur := cur[..|cur| - 1];
      }
      r := if cur in links then Some(cur) else None;
    }

    method ResolveTarget(linkPath: Path) returns (r: Option<Path>)
      requires linkPath in links
      ensures r == Target(Recorded(), linkPath)
    {
      ghost var a := Recorded();
      var target := links[linkPath];
      var prefix := FindLongestLink(target);
      var i := 0;
      while i < |links| && prefix.Some?
        invariant 0 <= i <= |links| && prefix == LongestLink(a, target)
        invariant Expand(a, links[linkPath], |links|) == Expand(a, target, |links| - i)
      {
        target := links[prefix.value] + target[|prefix.value|..];
        prefix := FindLongestLink(target);
        i := i + 1;
      }
      r := if prefix.Some? || target == [] then None else Some(target);
    }

    method CollectLinkContents(linkPath: Path, active: set<Path>) returns (copies: map<Path, Path>)
      requires linkPath in links && active <= links.Keys
      ensures CopiesOf(Recorded(), linkPath, active, copies)
      decreases |links| - |active|, 1
    {
      ghost var a := Recorded();
      copies := map[];
      if linkPath in active {
        NothingFresh(linkPath, active);
        return;
      }
      var resolved := ResolveTarget(linkPath);
      if resolved.None? { return; }
      var target := resolved.value;

      copies := CollectOwnFiles(linkPath, target);
      forall d | d in copies ensures Explored(a, linkPath, active, d, copies[d]) {
        OwnCopyExplored(a, linkPath, target, active, d, copies[d]);
      }

      var pending := links.Keys;
      while pending != {}
        invariant pending <= links.Keys
        invariant forall d :: d in copies ==> Explored(a, linkPath, active, d, copies[d])
        invariant OwnDone(a, linkPath, target, copies)
        invariant forall n :: n in links.Keys - pending ==> NestedDone(a, linkPath, target, n, active, copies)
        decreases pending
      {
        var nested :| nested in pending;
        pending := pending - {nested};
        if target < nested {
          var merged := CollectNested(linkPath, target, nested, active, copies);
          NestedDoneGrows(a, linkPath, target, links.Keys - pending - {nested}, active, copies, merged);
          copies := merged;
        }
      }
      CollectedAll(a, linkPath, target, active, copies);
    }

    /** The contents of a link found below the target, seen below the link. */
    method CollectNested(linkPath: Path, target: Path, nested: Path, active: set<Path>, copies: map<Path, Path>)
      returns (merged: map<Path, Path>)
      requires linkPath in links && nested in links && active <= links.Keys && linkPath !in active
      requires Target(Recorded(), linkPath) == Some(target) && target < nested
      requires forall d :: d in copies ==> Explored(Recorded(), linkPath, active, d, copies[d])
      ensures forall d :: d in merged ==> Explored(Recorded(), linkPath, active, d, merged[d])
      ensures copies.Keys <= merged.Keys
      ensures NestedDone(Recorded(), linkPath, target, nested, active, merged)
      decreases |links| - |active|, 0
    {
      ActiveGrows(active, linkPath, links.Keys);
      var nestedCopies := CollectLinkContents(nested, active + {linkPath});
      merged := Merge(linkPath, target, nested, active, nestedCopies, copies);
    }

    method Merge(linkPath: Path, target: Path, ghost nested: Path, ghost active: set<Path>,
                 nestedCopies: map<Path, Path>, copies: map<Path, Path>) returns (merged: map<Path, Path>)
      requires linkPath in links && linkPath !in active && Target(Recorded(), linkPath) == Some(target) && target < nested
      requires CopiesOf(Recorded(), nested, active + {linkPath}, nestedCopies)
      requires forall d :: d in copies ==> Explored(Recorded(), linkPath, active, d, copies[d])
      ensures forall d :: d in merged ==> Explored(Recorded(), linkPath, active, d, merged[d])
      ensures copies.Keys <= merged.Keys
      ensures NestedDone(Recorded(), linkPath, target, nested, active, merged)
    {
      merged := copies;
      var todo := nestedCopies.Keys;
      while todo != {}
        invariant todo <= nestedCopies.Keys && copies.Keys <= merged.Keys
        invariant forall d :: d in merged ==> Explored(Recorded(), linkPath, active, d, merged[d])
        invariant forall d :: d in nestedCopies.Keys - todo ==> Rerooted(linkPath, target, d) in merged
        decreases todo
      {
        var d :| d in todo;
        todo := todo - {d};
        NestedCopyExplored(Recorded(), linkPath, target, nested, active, d, nestedCopies[d]);
        merged := merged[Rerooted(linkPath, target, d) := nestedCopies[d]];
      }
    }

    /** The archive's own files below the target, seen below the link. */
    method CollectOwnFiles(linkPath: Path, target: Path) returns (copies: map<Path, Path>)
      ensures forall d :: d in copies ==> OwnCopy(Recorded(), linkPath, target, d, copies[d])
      ensures OwnDone(Recorded(), linkPath, target, copies)
    {
      copies := map[];
      var pending := files;
      while pending != {}
        invariant forall d :: d in copies ==> OwnCopy(Recorded(), linkPath, target, d, copies[d])
        invariant forall f :: f in files - pending && target < f ==> Rerooted(linkPath, target, f) in copies
        decreases pending
      {
        var f :| f in pending;
        pending := pending - {f};
        if target < f {
          copies := copies[Rerooted(linkPath, target, f) := f];
        }
      }
    }
  }

  // ---- What one call of the collector has to establish.

  /** The path `p` below target `t`, seen below link `l`. */
  function Rerooted(l: Path, t: Path, p: Path): Path {
    if t <= p then l + p[|t|..] else l
  }

  ghost predicate Explored(a: Archive, l: Path, active: set<Path>, d: Path, s: Path) {
    exists hs :: Chain(a, hs, d, s) && Fresh(hs, l, active)
  }

  ghost predicate OwnCopy(a: Archive, l: Path, t: Path, d: Path, s: Path) {
    s in a.files && t < s && d == Rerooted(l, t, s)
  }

  ghost predicate OwnDone(a: Archive, l: Path, t: Path, copies: map<Path, Path>) {
    forall f :: f in a.files && t < f ==> Rerooted(l, t, f) in copies
  }

  ghost predicate NestedDone(a: Archive, l: Path, t: Path, nested: Path, active: set<Path>, copies: map<Path, Path>) {
    t < nested ==>
      forall d, s :: Explored(a, nested, active + {l}, d, s) ==> Rerooted(l, t, d) in copies
  }

  lemma NestedDoneGrows(a: Archive, l: Path, t: Path, done: set<Path>, active: set<Path>, copies: map<Path, Path>, merged: map<Path, Path>)
    requires copies.Keys <= merged.Keys
    requires forall n :: n in done ==> NestedDone(a, l, t, n, active, copies)
    ensures forall n :: n in done ==> NestedDone(a, l, t, n, active, merged)
  {
  }

  lemma NothingFresh(l: Path, active: set<Path>)
    requires l in active
    ensures forall hs :: !Fresh(hs, l, active)
  {
    forall hs: Hops | hs.Hop? && hs.link == l ensures !(Links(hs) !! active) { assert l in Links(hs); }
  }

  lemma ActiveGrows(active: set<Path>, l: Path, all: set<Path>)
    requires active <= all && l in all && l !in active
    ensures active + {l} <= all && |active + {l}| == |active| + 1 && |active| < |all|
  {
    assert active <= all - {l};
    SubsetSize(active, all - {l});
  }

  lemma OwnCopyExplored(a: Archive, l: Path, t: Path, active: set<Path>, d: Path, s: Path)
    requires l in a.links && l !in active && Target(a, l) == Some(t) && OwnCopy(a, l, t, d, s)
    ensures Explored(a, l, active, d, s)
  {
    assert t + d[|l|..] == s;
    var hs := Hop(l, Done);
    assert Chain(a, hs, d, s);
    assert Links(hs) == {l} && Distinct(hs);
    assert Fresh(hs, l, active);
  }

  lemma NestedCopyExplored(a: Archive, l: Path, t: Path, nested: Path, active: set<Path>, d: Path, s: Path)
    requires l in a.links && l !in active && Target(a, l) == Some(t) && t < nested
    requires Explored(a, nested, active + {l}, d, s)
    ensures Explored(a, l, active, Rerooted(l, t, d), s)
  {
    var hs :| Chain(a, hs, d, s) && Fresh(hs, nested, active + {l});
    var e := Rerooted(l, t, d);
    assert t < d;
    assert t + e[|l|..] == d;
    assert Chain(a, Hop(l, hs), e, s);
    assert Fresh(Hop(l, hs), l, active);
  }

  lemma TargetLinkFree(a: Archive, l: Path)
    requires l in a.links && Target(a, l).Some?
    ensures LinkFree(a, Target(a, l).value)
  {
    ExpandLinkFree(a, a.links[l], |a.links|);
  }

  lemma {:induction false} ExpandLinkFree(a: Archive, p: Path, n: nat)
    ensures Expand(a, p, n).Some? ==> LinkFree(a, Expand(a, p, n).value)
    decreases n
  {
    LongestLinkExact(a, p);
    if LongestLink(a, p).Some? && n > 0 {
      ExpandLinkFree(a, Redirect(a, LongestLink(a, p).value, p), n - 1);
    }
  }

  lemma CollectedAll(a: Archive, l: Path, t: Path, active: set<Path>, copies: map<Path, Path>)
    requires l in a.links && Target(a, l) == Some(t)
    requires OwnDone(a, l, t, copies)
    requires forall n :: n in a.links ==> NestedDone(a, l, t, n, active, copies)
    ensures forall d, s :: Explored(a, l, active, d, s) ==> d in copies
  {
    forall d, s | Explored(a, l, active, d, s) ensures d in copies {
      var hs :| Chain(a, hs, d, s) && Fresh(hs, l, active);
      var p := t + d[|l|..];
      assert Rerooted(l, t, p) == d;
      if hs.rest.Hop? {
        assert Chain(a, hs.rest, p, s) && Fresh(hs.rest, hs.rest.link, active + {l});
        TargetLinkFree(a, l);
        Comparable(hs.rest.link, t, p);
        assert t < hs.rest.link;
        assert Explored(a, hs.rest.link, active + {l}, p, s);
      } else {
        assert t < p;
      }
    }
  }

  // ---- What the write loop has to keep.

  /** Each path of `source` holds its source's contents, everything else is as it was, and no
      file of the archive has been written over. */
  ghost predicate Progress(files: set<Path>, before: map<Path, string>, disk: map<Path, string>, source: map<Path, Path>) {
    && files <= before.Keys && disk.Keys == before.Keys + source.Keys && source.Keys !! files
    && (forall p :: p in source ==> source[p] in files && disk[p] == before[source[p]])
    && (forall p :: p in before && p !in source ==> disk[p] == before[p])
  }

  lemma ProgressStep(files: set<Path>, before: map<Path, string>, disk: map<Path, string>, source: map<Path, Path>, d: Path, s: Path)
    requires Progress(files, before, disk, source) && d !in files && s in files
    ensures Progress(files, before, disk[d := disk[s]], source[d := s])
  {
    assert s !in source;
  }

  ghost predicate AllCopied(a: Archive, source: map<Path, Path>) {
    forall p :: p in source ==> Copied(a, p, source[p])
  }

  ghost predicate AllWritten(a: Archive, l: Path, written: set<Path>) {
    forall d, s :: Explored(a, l, {}, d, s) ==> d in written
  }

  lemma AllWrittenGrows(a: Archive, done: set<Path>, less: set<Path>, more: set<Path>)
    requires less <= more && forall l :: l in done ==> AllWritten(a, l, less)
    ensures forall l :: l in done ==> AllWritten(a, l, more)
  {
  }

  lemma ExploredFacts(e: Extractor, l: Path, d: Path, s: Path)
    requires e.Valid() && Explored(e.Recorded(), l, {}, d, s)
    ensures Copied(e.Recorded(), d, s) && s in e.files && Safe(d)
  {
    var a := e.Recorded();
    var hs :| Chain(a, hs, d, s) && Fresh(hs, l, {});
    ChainSafe(a, hs, d, s);
  }

  lemma {:induction false} ChainSafe(a: Archive, hs: Hops, d: Path, s: Path)
    requires Chain(a, hs, d, s)
    requires forall f :: f in a.files ==> Safe(f)
    requires forall l :: l in a.links ==> Safe(l)
    ensures s in a.files && Safe(d)
    decreases hs
  {
    var p := Target(a, hs.link).value + d[|hs.link|..];
    if hs.rest.Hop? { ChainSafe(a, hs.rest, p, s); }
    assert d == hs.link + p[|Target(a, hs.link).value|..];
  }

  lemma ProgressWrites(a: Archive, before: map<Path, string>, disk: map<Path, string>, source: map<Path, Path>, d: Path, s: Path)
    requires WellFormed(a) && TreeShaped(a) && before.Keys == a.files
    requires Progress(a.files, before, disk, source) && AllCopied(a, source) && Copied(a, d, s)
    ensures CanWrite(disk, d)
  {
    CopyHitsNoSource(a, d, s);
    CopiedReadsAsFile(a, d, s);
    forall q | q in disk ensures ReadsAsFile(a, q) {
      if q in source { CopiedReadsAsFile(a, q, source[q]); } else { FileReadsAsItself(a, q); }
    }
    WriteSucceeds(a, disk, d);
  }

  lemma CopiedReadsAsFile(a: Archive, d: Path, s: Path)
    requires WellFormed(a) && Copied(a, d, s)
    ensures ReadsAsFile(a, d)
  {
    CopiedReads(a, d, s);
  }

  lemma ProgressDone(a: Archive, before: map<Path, string>, disk: map<Path, string>, source: map<Path, Path>)
    requires WellFormed(a) && Progress(a.files, before, disk, source) && AllCopied(a, source)
    requires forall l :: l in a.links ==> AllWritten(a, l, source.Keys)
    ensures Materialised(a, before, disk)
  {
    forall p, s | Copied(a, p, s) ensures p in source && source[p] == s {
      CopiedExplored(a, p, s);
      CopiedUnique(a, p, s, source[p]);
    }
  }

  lemma CopiedExplored(a: Archive, p: Path, s: Path)
    requires Copied(a, p, s)
    ensures exists l :: l in a.links && Explored(a, l, {}, p, s)
  {
    var hs :| Chain(a, hs, p, s) && Distinct(hs);
    assert Fresh(hs, hs.link, {});
    assert Explored(a, hs.link, {}, p, s);
  }
}
