/** Entry names and link targets of a tar stream, cleaned lexically.

    A name is the list of its slash-separated components, uncleaned: it may hold `""`, `"."` and
    `".."`. An absolute path is cleaned from the root down, a relative one keeps the `".."` it
    cannot resolve. */
module EntryPaths {
  import opened Basics
  import opened SymlinkTree

  predicate Skipped(c: string) { c == "" || c == "." }

  /** No component can leave the directory the path is joined onto. */
  predicate Safe(p: Path) { forall i :: 0 <= i < |p| ==> !Skipped(p[i]) && p[i] != ".." }

  function CleanRooted(acc: Path, raw: Path): Path
    decreases |raw|
  {
    if raw == [] then acc
    else if Skipped(raw[0]) then CleanRooted(acc, raw[1..])
    else if raw[0] != ".." then CleanRooted(acc + [raw[0]], raw[1..])
    else CleanRooted(if acc == [] then [] else acc[..|acc| - 1], raw[1..])
  }

  function CleanRelative(acc: Path, raw: Path): Path
    decreases |raw|
  {
    if raw == [] then acc
    else if Skipped(raw[0]) then CleanRelative(acc, raw[1..])
    else if raw[0] != ".." then CleanRelative(acc + [raw[0]], raw[1..])
    else if acc == [] || acc[|acc| - 1] == ".." then CleanRelative(acc + [".."], raw[1..])
    else CleanRelative(acc[..|acc| - 1], raw[1..])
  }

  predicate StartsOutside(p: Path) { p != [] && p[0] == ".." }

  /** Read left to right from depth `n`, the components go above the starting directory. */
  predicate Climbs(n: nat, raw: Path)
    decreases |raw|
  {
    raw != [] &&
    if Skipped(raw[0]) then Climbs(n, raw[1..])
    else if raw[0] != ".." then Climbs(n + 1, raw[1..])
    else n == 0 || Climbs(n - 1, raw[1..])
  }

  lemma {:induction false} CleanRootedSafe(acc: Path, raw: Path)
    requires Safe(acc)
    ensures Safe(CleanRooted(acc, raw))
    decreases |raw|
  {
    if raw != [] {
      CleanRootedSafe(acc, raw[1..]);
      if !Skipped(raw[0]) && raw[0] != ".." { CleanRootedSafe(acc + [raw[0]], raw[1..]); }
      if acc != [] { CleanRootedSafe(acc[..|acc| - 1], raw[1..]); }
    }
  }

  lemma {:induction false} OutsideStays(acc: Path, raw: Path)
    requires StartsOutside(acc)
    ensures StartsOutside(CleanRelative(acc, raw))
    decreases |raw|
  {
    if raw != [] {
      if Skipped(raw[0]) { OutsideStays(acc, raw[1..]); }
      else if raw[0] != ".." { OutsideStays(acc + [raw[0]], raw[1..]); }
      else if acc[|acc| - 1] == ".." { OutsideStays(acc + [".."], raw[1..]); }
      else { OutsideStays(acc[..|acc| - 1], raw[1..]); }
    }
  }

  /** The test on the cleaned relative target is exact for climbing, and a target that does not
      climb is the image path it stands for, expressed below the copied directory `src`. */
  lemma {:induction false} RelativeTargetFaithful(src: Path, acc: Path, raw: Path)
    requires Safe(acc)
    ensures StartsOutside(CleanRelative(acc, raw)) <==> Climbs(|acc|, raw)
    ensures !Climbs(|acc|, raw) ==>
              CleanRooted(src + acc, raw) == src + CleanRelative(acc, raw) && Safe(CleanRelative(acc, raw))
    decreases |raw|
  {
    if raw == [] {
    } else if Skipped(raw[0]) {
      RelativeTargetFaithful(src, acc, raw[1..]);
    } else if raw[0] != ".." {
      RelativeTargetFaithful(src, acc + [raw[0]], raw[1..]);
      assert src + acc + [raw[0]] == src + (acc + [raw[0]]);
    } else if acc == [] {
      OutsideStays([".."], raw[1..]);
      assert acc + [".."] == [".."];
    } else {
      RelativeTargetFaithful(src, acc[..|acc| - 1], raw[1..]);
      assert (src + acc)[..|src + acc| - 1] == src + acc[..|acc| - 1];
    }
  }

  predicate Absolute(raw: Path) { |raw| >= 2 && raw[0] == "" }

  /** The in-image path a link points at: absolute as it is, otherwise from the link's directory,
      the link being `linkRel` below the copied directory `src`. */
  function ImageTarget(src: Path, linkRel: Path, linkname: Path): Path
    requires linkRel != []
  {
    if Absolute(linkname) then CleanRooted([], linkname)
    else if Absolute(linkRel) then src + CleanRooted([], linkRel[..|linkRel| - 1] + linkname)
    else CleanRooted(src, linkRel[..|linkRel| - 1] + linkname)
  }

  /** What `extract` records for the link, relative to the copied directory; `None` drops it. */
  function RecordedTarget(src: Path, linkRel: Path, linkname: Path): Option<Path>
    requires linkRel != []
  {
    var joined := linkRel[..|linkRel| - 1] + linkname;
    if Absolute(linkname) then
      var target := CleanRooted([], linkname);
      if src <= target then Some(target[|src|..]) else None
    else if Absolute(linkRel) then Some(CleanRooted([], joined))
    else
      var target := CleanRelative([], joined);
      if StartsOutside(target) then None else Some(target)
  }

  /** A recorded target is the image's target, it stays below the copied directory, and a link is
      dropped exactly when its target climbs out of that directory on the way. */
  lemma RecordedTargetFaithful(src: Path, linkRel: Path, linkname: Path)
    requires linkRel != [] && Safe(src)
    ensures var r := RecordedTarget(src, linkRel, linkname);
            && (r.Some? ==> src + r.value == ImageTarget(src, linkRel, linkname) && Safe(r.value))
            && (Absolute(linkname) ==> (r.None? <==> !(src <= ImageTarget(src, linkRel, linkname))))
            && (!Absolute(linkname) ==>
                  (r.None? <==> !Absolute(linkRel) && Climbs(0, linkRel[..|linkRel| - 1] + linkname)))
  {
    var joined := linkRel[..|linkRel| - 1] + linkname;
    CleanRootedSafe([], linkname);
    CleanRootedSafe([], joined);
    RelativeTargetFaithful(src, [], joined);
    assert src + [] == src;
    var target := CleanRooted([], linkname);
    if src <= target { assert src + target[|src|..] == target; }
  }

  lemma {:induction false} CleanSafe(acc: Path, p: Path)
    requires Safe(p) && Safe(acc)
    ensures CleanRooted(acc, p) == acc + p && CleanRelative(acc, p) == acc + p
    decreases |p|
  {
    if p == [] {
      assert acc + p == acc;
    } else {
      CleanSafe(acc + [p[0]], p[1..]);
      assert acc + [p[0]] + p[1..] == acc + p;
    }
  }

  lemma {:induction false} CleanSplits(acc: Path, p: Path, rest: Path)
    requires Safe(p) && Safe(acc)
    ensures CleanRelative(acc, p + rest) == CleanRelative(acc + p, rest)
    decreases |p|
  {
    if p == [] {
      assert p + rest == rest && acc + p == acc;
    } else {
      assert (p + rest)[0] == p[0] && (p + rest)[1..] == p[1..] + rest;
      CleanSplits(acc + [p[0]], p[1..], rest);
      assert acc + [p[0]] + p[1..] == acc + p;
    }
  }

  /** What is recorded for a link `name` in the directory `dir`: the target next to it, with or
      without `./` in front or an empty component, or the path below the copied directory that an
      absolute target names. */
  lemma TargetsRecorded(src: Path, dir: Path, name: string, b: Path)
    requires Safe(src) && Safe(dir) && Safe([name]) && Safe(b) && b != []
    ensures RecordedTarget(src, dir + [name], b) == Some(dir + b)
    ensures RecordedTarget(src, dir + [name], ["."] + b) == Some(dir + b)
    ensures RecordedTarget(src, dir + [name], [""] + src + b) == Some(b)
    ensures RecordedTarget(src, dir + [name], [""] + src + ["."] + b) == Some(b)
  {
    var link := dir + [name];
    assert link[..|link| - 1] == dir && !Absolute(link) && !Absolute(b) && !Absolute(["."] + b);
    CleanSafe(dir, b);
    CleanSplits([], dir, b);
    CleanSplits([], dir, ["."] + b);
    assert [] + dir == dir;
    assert (["."] + b)[1..] == b;
    assert dir + b != [] && !StartsOutside(dir + b);
    AbsoluteRecorded(src, link, b);
  }

  lemma AbsoluteRecorded(src: Path, link: Path, b: Path)
    requires Safe(src) && Safe(b) && b != [] && link != []
    ensures RecordedTarget(src, link, [""] + src + b) == Some(b)
    ensures RecordedTarget(src, link, [""] + src + ["."] + b) == Some(b)
  {
    var plain, dotted := [""] + src + b, [""] + src + ["."] + b;
    assert Absolute(plain) && Absolute(dotted);
    assert plain[1..] == src + b && dotted[1..] == src + (["."] + b);
    CleanSafe([], src + b);
    RootedSplits([], src, ["."] + b);
    assert [] + src == src && [] + (src + b) == src + b && (["."] + b)[1..] == b;
    CleanSafe(src, b);
    assert (src + b)[|src|..] == b;
  }

  lemma {:induction false} RootedSplits(acc: Path, p: Path, rest: Path)
    requires Safe(p) && Safe(acc)
    ensures CleanRooted(acc, p + rest) == CleanRooted(acc + p, rest)
    decreases |p|
  {
    if p == [] {
      assert p + rest == rest && acc + p == acc;
    } else {
      assert (p + rest)[0] == p[0] && (p + rest)[1..] == p[1..] + rest;
      RootedSplits(acc + [p[0]], p[1..], rest);
      assert acc + [p[0]] + p[1..] == acc + p;
    }
  }

  /** Leaving the copied directory and coming back is not leaving it, yet such a link is dropped:
      `/out/a` with the target `../out/b` points at `/out/b`, inside the copied `/out`. */
  lemma ReenteringTargetDropped()
    ensures RecordedTarget(["out"], ["a"], ["..", "out", "b"]) == None
    ensures ["out"] <= ImageTarget(["out"], ["a"], ["..", "out", "b"])
  {
    var raw := ["..", "out", "b"];
    assert ["a"][..0] + raw == raw;
    assert raw[1..] == ["out", "b"] && raw[1..][1..] == ["b"] && raw[1..][1..][1..] == [];
    RelativeTargetFaithful([], [], raw);
    calc {
      CleanRooted(["out"], raw);
      CleanRooted([], ["out", "b"]);
      CleanRooted([] + ["out"], ["b"]);
      CleanRooted([] + ["out"] + ["b"], []);
      ["out", "b"];
    }
  }
}
