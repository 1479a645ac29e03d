/** The image graph of a werf config: the loop check over it and the images a build processes. */
module WerfConfig {
  import opened DependencyGraph
  import opened NameOrder

  class Image {
    const name: string
    const stapel: bool
    const from: string
    const imports: seq<string>
    const dependencies: seq<string>
    var fromExternal: bool
    /** Positions of the imports found to name no configured image. */
    var externalImports: set<nat>

    constructor (name: string, stapel: bool, from: string, imports: seq<string>, dependencies: seq<string>)
      ensures this.name == name && this.stapel == stapel && this.from == from
      ensures this.imports == imports && this.dependencies == dependencies
      ensures !fromExternal && externalImports == {}
    {
      this.name, this.stapel, this.from := name, stapel, from;
      this.imports, this.dependencies := imports, dependencies;
      fromExternal, externalImports := false, {};
    }

    /** The imports a `dependsOn` call lists, from position `k` on: named, not marked external. */
    function ImportsFrom(k: nat): seq<string>
      requires k <= |imports|
      reads this`externalImports
      decreases |imports| - k
    {
      if k == |imports| then []
      else (if imports[k] != "" && k !in externalImports then [imports[k]] else []) + ImportsFrom(k + 1)
    }

    function DependsOn(): Dependencies
      reads this`externalImports
    {
      if stapel then Dependencies(from, ImportsFrom(0), dependencies)
      else Dependencies("", [], dependencies)
    }
  }

  datatype Dependencies = Dependencies(from: string, imports: seq<string>, dependencies: seq<string>) {
    function Related(): seq<string> {
      (if from != "" then [from] else []) + imports + dependencies
    }
  }

  function Find(images: seq<Image>, name: string): (r: Image?)
    ensures r != null ==> r in images && r.name == name
  {
    if images == [] then null
    else if images[0].name == name then images[0]
    else Find(images[1..], name)
  }

  /** The first image of a name is found. */
  lemma {:induction false} FindFirst(images: seq<Image>, k: nat)
    requires k < |images| && forall j :: 0 <= j < k ==> images[j].name != images[k].name
    ensures Find(images, images[k].name) == images[k]
    decreases k
  {
    if k > 0 { FindFirst(images[1..], k - 1); }
  }

  lemma {:induction false} FindSome(images: seq<Image>, i: Image)
    requires i in images
    ensures Find(images, i.name) != null
  {
    if images[0].name != i.name { FindSome(images[1..], i); }
  }

  function Configured(images: seq<Image>, names: seq<string>): seq<string> {
    if names == [] then []
    else (if Find(images, names[0]) != null then [names[0]] else []) + Configured(images, names[1..])
  }

  function Named(names: seq<string>): seq<string> {
    if names == [] then [] else (if names[0] != "" then [names[0]] else []) + Named(names[1..])
  }

  lemma {:induction false} ConfiguredHas(images: seq<Image>, names: seq<string>, n: string)
    ensures n in Configured(images, names) <==> n in names && Find(images, n) != null
    decreases |names|
  {
    if names != [] {
      ConfiguredHas(images, names[1..], n);
      assert n in names <==> n == names[0] || n in names[1..];
    }
  }

  lemma {:induction false} NamedHas(names: seq<string>, n: string)
    ensures n in Named(names) <==> n in names && n != ""
    decreases |names|
  {
    if names != [] {
      NamedHas(names[1..], n);
      assert n in names <==> n == names[0] || n in names[1..];
    }
  }

  lemma {:induction false} ConfiguredSum(images: seq<Image>, p: seq<string>, q: seq<string>)
    ensures Configured(images, p + q) == Configured(images, p) + Configured(images, q)
    decreases |p|
  {
    if p == [] {
      assert p + q == q;
    } else {
      ConfiguredSum(images, p[1..], q);
      assert (p + q)[0] == p[0] && (p + q)[1..] == p[1..] + q;
      var head := if Find(images, p[0]) != null then [p[0]] else [];
      ConcatAssociative(head, Configured(images, p[1..]), Configured(images, q));
    }
  }

  lemma {:induction false} ConfiguredAll(images: seq<Image>, p: seq<string>)
    requires forall n :: n in p ==> Find(images, n) != null
    ensures Configured(images, p) == p
    decreases |p|
  {
    if p != [] { ConfiguredAll(images, p[1..]); }
  }

  /** Everything an image names, whatever has been marked external so far. */
  function AllRelated(i: Image): seq<string> {
    if i.stapel then Named([i.from]) + Named(i.imports) + i.dependencies else i.dependencies
  }

  function Successors(images: seq<Image>, i: Image): seq<string> {
    Configured(images, AllRelated(i))
  }

  /** The dependency graph restricted to configured images. */
  ghost function ImageGraph(images: seq<Image>): Graph {
    Graph(map n | n in (set i | i in images :: i.name) && Find(images, n) != null :: Successors(images, Find(images, n)))
  }

  /** What config validation has established before images are processed. */
  ghost predicate RelatedConfigured(images: seq<Image>) {
    forall i, d :: i in images && d in i.dependencies ==> Find(images, d) != null
  }

  ghost predicate GraphOf(images: seq<Image>, g: Graph) {
    forall n {:trigger Find(images, n)} :: (n in g.succ <==> Find(images, n) != null)
                && (n in g.succ ==> g.succ[n] == Successors(images, Find(images, n)))
  }

  lemma ImageGraphIsGraph(images: seq<Image>)
    ensures GraphOf(images, ImageGraph(images))
  {
    forall i | i in images ensures Find(images, i.name) != null { FindSome(images, i); }
  }

  /** Which images an image depends on: the configured ones among its base, its imports and its
      dependencies, the first two for a stapel image only. */
  lemma EdgesExact(images: seq<Image>, i: Image, m: string)
    requires i in images && Find(images, i.name) == i
    ensures m in Succ(ImageGraph(images), i.name) <==>
            Find(images, m) != null &&
            (m in i.dependencies || (i.stapel && m != "" && (m == i.from || m in i.imports)))
  {
    ImageGraphIsGraph(images);
    ConfiguredHas(images, AllRelated(i), m);
    NamedHas([i.from], m);
    NamedHas(i.imports, m);
  }

  class WerfConfig {
    const images: seq<Image>
    var imagesCache: map<string, Image>

    ghost predicate Valid()
      reads this, images
    {
      && (forall n :: n in imagesCache ==> imagesCache[n] == Find(images, n))
      && FlagsSound()
    }

    ghost predicate FlagsSound()
      reads this, images
    {
      forall i, k :: i in images && k in i.externalImports ==> k < |i.imports| && Find(images, i.imports[k]) == null
    }

    constructor (images: seq<Image>)
      requires forall i :: i in images ==> i.externalImports == {}
      ensures Valid() && this.images == images
    {
      this.images := images;
      imagesCache := map[];
    }

    method GetImage(name: string) returns (r: Image?)
      requires Valid()
      modifies this`imagesCache
      ensures Valid() && r == Find(images, name)
    {
      if name in imagesCache { return imagesCache[name]; }
      var k := 0;
      while k < |images|
        invariant 0 <= k <= |images| && Find(images, name) == Find(images[k..], name)
      {
        if images[k].name == name {
          imagesCache := imagesCache[name := images[k]];
          return images[k];
        }
        k := k + 1;
      }
      return null;
    }

    /** The loop check: it passes exactly on acyclic graphs, and what it reports is a loop. */
    method ValidateInfiniteLoop() returns (ok: bool, errStack: seq<string>)
      requires Valid()
      modifies this`imagesCache
      ensures Valid()
      ensures ok <==> !Cyclic(ImageGraph(images))
      ensures !ok ==> IsLoop(ImageGraph(images), errStack)
    {
      ImageGraphIsGraph(images);
      ok, errStack := CheckAll(ImageGraph(images));
    }

    method CheckAll(ghost g: Graph) returns (ok: bool, errStack: seq<string>)
      requires Valid() && GraphOf(images, g)
      modifies this`imagesCache
      ensures Valid()
      ensures ok <==> !Cyclic(g)
      ensures !ok ==> IsLoop(g, errStack)
    {
      var acyclic: set<string> := {};
      var k := 0;
      while k < |images|
        invariant 0 <= k <= |images| && Valid() && Walked(g, acyclic)
        invariant forall i :: 0 <= i < k ==> images[i].name in acyclic
      {
        NameIsPath(images, g, images[k]);
        ok, errStack, acyclic := Visit(g, images[k].name, [], acyclic);
        if !ok {
          LoopReported(g, errStack);
          return;
        }
        k := k + 1;
      }
      AllNamesWalked(g, acyclic);
      ok, errStack := true, [];
    }

    lemma AllNamesWalked(g: Graph, acyclic: set<string>)
      requires GraphOf(images, g) && Walked(g, acyclic)
      requires forall i :: 0 <= i < |images| ==> images[i].name in acyclic
      ensures !Cyclic(g)
    {
      forall n | n in g.succ ensures n in acyclic { var i := Find(images, n); }
      SettledAcyclic(g, acyclic);
    }

    /** `validateImageInfiniteLoop`: `acyclic` holds the images already walked without a loop. */
    method Visit(ghost g: Graph, name: string, stack: seq<string>, acyclic: set<string>)
      returns (ok: bool, errStack: seq<string>, acyclic': set<string>)
      requires Valid() && GraphOf(images, g)
      requires IsPath(g, stack + [name]) && Walked(g, acyclic)
      modifies this`imagesCache
      ensures Valid()
      ensures ok ==> Walked(g, acyclic') && acyclic <= acyclic' && name in acyclic'
      ensures !ok ==> errStack != [] && IsLoop(g, stack + errStack)
      decreases |Unvisited(g, stack)|, 0
    {
      if name in acyclic { return true, [], acyclic; }
      if name in stack {
        assert (stack + [name])[..|stack|] == stack;
        return false, [name], acyclic;
      }
      PathEnd(g, stack + [name]);
      StackGrows(g, stack, name);
      var image := GetImage(name);
      var related := image.DependsOn().Related();
      RelatedIsSuccessors(g, image);
      ok, errStack, acyclic' := VisitRelated(g, related, stack + [name], acyclic);
      if ok {
        WalkedAdd(g, acyclic', name);
        acyclic' := acyclic' + {name};
      } else {
        ConcatAssociative(stack, [name], errStack);
        errStack := [name] + errStack;
      }
    }

    method VisitRelated(ghost g: Graph, related: seq<string>, stack: seq<string>, acyclic: set<string>)
      returns (ok: bool, errStack: seq<string>, acyclic': set<string>)
      requires Valid() && GraphOf(images, g)
      requires IsPath(g, stack) && Walked(g, acyclic)
      requires forall m :: m in related && m in g.succ ==> m in Succ(g, stack[|stack| - 1])
      modifies this`imagesCache
      ensures Valid()
      ensures ok ==> Walked(g, acyclic') && acyclic <= acyclic'
      ensures ok ==> forall m :: m in related && m in g.succ ==> m in acyclic'
      ensures !ok ==> errStack != [] && IsLoop(g, stack + errStack)
      decreases |Unvisited(g, stack)|, 2
    {
      acyclic' := acyclic;
      var k := 0;
      while k < |related|
        invariant 0 <= k <= |related| && Valid() && Walked(g, acyclic') && acyclic <= acyclic'
        invariant forall i :: 0 <= i < k && related[i] in g.succ ==> related[i] in acyclic'
      {
        ok, errStack, acyclic' := VisitConfigured(g, related[k], stack, acyclic');
        if !ok { return; }
        k := k + 1;
      }
      ok, errStack := true, [];
    }

    method VisitConfigured(ghost g: Graph, name: string, stack: seq<string>, acyclic: set<string>)
      returns (ok: bool, errStack: seq<string>, acyclic': set<string>)
      requires Valid() && GraphOf(images, g) && IsPath(g, stack) && Walked(g, acyclic)
      requires name in g.succ ==> name in Succ(g, stack[|stack| - 1])
      modifies this`imagesCache
      ensures Valid()
      ensures ok ==> Walked(g, acyclic') && acyclic <= acyclic' && (name in g.succ ==> name in acyclic')
      ensures !ok ==> errStack != [] && IsLoop(g, stack + errStack)
      decreases |Unvisited(g, stack)|, 1
    {
      var relative := GetImage(name);
      if relative == null { return true, [], acyclic; }
      PathAppend(g, stack, name);
      ok, errStack, acyclic' := Visit(g, name, stack, acyclic);
    }

    lemma ImportsListed(i: Image, k: nat, m: string)
      requires k <= |i.imports|
      ensures m in i.ImportsFrom(k) <==> exists j :: k <= j < |i.imports| && i.imports[j] == m && m != "" && j !in i.externalImports
      decreases |i.imports| - k
    {
      if k < |i.imports| { ImportsListed(i, k + 1, m); }
    }

    /** Marking imports external changes nothing for the configured ones. */
    lemma RelatedIsSuccessors(g: Graph, i: Image)
      requires Valid() && GraphOf(images, g) && i in images && Find(images, i.name) == i
      ensures forall m :: m in i.DependsOn().Related() && m in g.succ <==> m in Succ(g, i.name)
    {
      forall m ensures m in i.DependsOn().Related() && m in g.succ <==> m in Succ(g, i.name) {
        RelatedIsSuccessor(g, i, m);
      }
    }

    lemma RelatedIsSuccessor(g: Graph, i: Image, m: string)
      requires Valid() && GraphOf(images, g) && i in images && Find(images, i.name) == i
      ensures m in i.DependsOn().Related() && m in g.succ <==> m in Succ(g, i.name)
    {
      ImportsListed(i, 0, m);
      ConfiguredHas(images, AllRelated(i), m);
      NamedHas([i.from], m);
      NamedHas(i.imports, m);
      assert m in g.succ <==> Find(images, m) != null;
    }

    // ---- Images to process.

    /** Resolves what an image depends on and marks what is external. Which marks were set before
        makes no difference to the names returned. */
    method UpdateDependencies(image: Image) returns (d: Dependencies)
      requires Valid() && image in images
      modifies this`imagesCache, image`fromExternal, image`externalImports
      ensures Valid()
      ensures d.Related() == ResolvedRelated(images, image)
      ensures image.externalImports == old(image.externalImports) + (if image.stapel then External(image) else {})
      ensures image.fromExternal <==>
                old(image.fromExternal) ||
                (image.stapel && image.from != "" && image.from != "scratch" && Find(images, image.from) == null)
    {
      if !image.stapel { return image.DependsOn(); }
      var current := image.DependsOn();
      ConfiguredImports(image, 0);
      assert image.imports[0..] == image.imports;
      var fromImage := GetImage(image.from);
      if fromImage == null && image.from != "" && image.from != "scratch" {
        image.fromExternal := true;
      }
      var imports := UpdateImports(image, current.imports);
      d := Dependencies(if fromImage != null then image.from else "", imports, current.dependencies);
      ConfiguredOne(images, image.from);
    }

    method UpdateImports(image: Image, names: seq<string>) returns (imports: seq<string>)
      requires Valid() && image in images && names == image.ImportsFrom(0)
      modifies this`imagesCache, image`externalImports
      ensures Valid() && imports == Configured(images, names)
      ensures image.externalImports == old(image.externalImports) + External(image)
    {
      imports := [];
      var k := 0;
      ghost var marked := image.externalImports;
      forall m ensures m in names <==> ListedUnmarked(image, marked, m) { ImportsListed(image, 0, m); }
      while k < |names|
        invariant 0 <= k <= |names| && Valid() && imports == Configured(images, names[..k])
        invariant image.externalImports == marked + Marked(image, names[..k])
      {
        var found := GetImage(names[k]);
        MarkedStep(image, names, k);
        if found != null {
          imports := imports + [names[k]];
        } else {
          image.externalImports := image.externalImports + Positions(image, names[k]);
        }
        k := k + 1;
      }
      assert names[..|names|] == names;
      MarkedIsExternal(image, names, marked);
    }

    ghost predicate ListedUnmarked(image: Image, marked: set<nat>, m: string) {
      exists j :: 0 <= j < |image.imports| && image.imports[j] == m && m != "" && j !in marked
    }

    function Positions(image: Image, name: string): set<nat> {
      set p: nat | p < |image.imports| && image.imports[p] == name
    }

    ghost function External(image: Image): set<nat> {
      set p: nat | p < |image.imports| && image.imports[p] != "" && Find(images, image.imports[p]) == null
    }

    ghost function Marked(image: Image, names: seq<string>): set<nat> {
      set p: nat | p < |image.imports| && image.imports[p] in names && Find(images, image.imports[p]) == null
    }

    lemma MarkedStep(image: Image, names: seq<string>, k: nat)
      requires k < |names|
      ensures Marked(image, names[..k + 1]) ==
              Marked(image, names[..k]) + if Find(images, names[k]) == null then Positions(image, names[k]) else {}
      ensures Configured(images, names[..k + 1]) ==
              Configured(images, names[..k]) + if Find(images, names[k]) != null then [names[k]] else []
    {
      assert names[..k + 1] == names[..k] + [names[k]];
      ConfiguredSum(images, names[..k], [names[k]]);
    }

    lemma MarkedIsExternal(image: Image, names: seq<string>, marked: set<nat>)
      requires forall m :: m in names <==> ListedUnmarked(image, marked, m)
      requires forall p :: p in marked ==> p < |image.imports| && Find(images, image.imports[p]) == null
      ensures marked + Marked(image, names) == marked + External(image)
    {
    }

    lemma {:induction false} ConfiguredImports(i: Image, k: nat)
      requires FlagsSound() && i in images && k <= |i.imports|
      ensures Configured(images, i.ImportsFrom(k)) == Configured(images, Named(i.imports[k..]))
      decreases |i.imports| - k
    {
      if k < |i.imports| {
        ConfiguredImports(i, k + 1);
        var n := i.imports[k];
        assert i.imports[k..][1..] == i.imports[k + 1..];
        var listed := if n != "" && k !in i.externalImports then [n] else [];
        ConfiguredSum(images, listed, i.ImportsFrom(k + 1));
        ConfiguredSum(images, if n != "" then [n] else [], Named(i.imports[k + 1..]));
        assert Configured(images, [n]) == if Find(images, n) != null then [n] else [];
      }
    }

    /** The images a build processes: the requested ones and everything they depend on, ordered by
        name. `requested` are configured names. */
    method GetImagesForProcessing(requested: seq<string>, withoutImages: bool) returns (result: seq<Image>)
      requires Valid() && RelatedConfigured(images)
      requires forall n :: n in requested ==> Find(images, n) != null
      modifies this`imagesCache, images
      ensures Valid()
      ensures withoutImages ==> result == []
      ensures !withoutImages ==> Processed(images, requested, result)
    {
      if withoutImages { return []; }
      ImageGraphIsGraph(images);
      var roots := LookUp(requested);
      var relatives := CollectRelatives(ImageGraph(images), roots);
      assert NameSet(roots) == set n | n in requested by {
        forall i | i in roots ensures i.name in NamesOf(roots) {}
      }
      var sorted := Sort(set i | i in relatives :: i.name);
      result := LookUp(sorted);
      SortedAreKeys(images, relatives.Keys, sorted, result);
    }

    /** The relatives of an image, none of them missing. */
    method Relatives(ghost g: Graph, image: Image) returns (relatives: seq<Image>)
      requires Valid() && GraphOf(images, g) && RelatedConfigured(images) && Known(images, image)
      modifies this`imagesCache, image`fromExternal, image`externalImports
      ensures Valid()
      ensures AllKnown(images, relatives) && NamesOf(relatives) == Succ(g, image.name)
    {
      var d := UpdateDependencies(image);
      ResolvedAreSuccessors(images, g, image);
      relatives := LookUp(d.Related());
    }

    method LookUp(names: seq<string>) returns (found: seq<Image>)
      requires Valid() && forall n :: n in names ==> Find(images, n) != null
      modifies this`imagesCache
      ensures Valid()
      ensures AllKnown(images, found) && NamesOf(found) == names
    {
      found := [];
      var k := 0;
      while k < |names|
        invariant 0 <= k <= |names| && Valid() && |found| == k
        invariant forall j :: 0 <= j < k ==> found[j] == Find(images, names[j])
      {
        var image := GetImage(names[k]);
        assert names[k] in names;
        found := found + [image];
        k := k + 1;
      }
      assert forall j :: 0 <= j < k ==> Known(images, found[j]) && found[j].name == names[j];
    }

    /** The worklist closure. Images may be queued more than once; it ends on any graph. */
    method CollectRelatives(ghost g: Graph, requested: seq<Image>) returns (relatives: map<Image, seq<Image>>)
      requires Valid() && GraphOf(images, g) && RelatedConfigured(images) && AllKnown(images, requested)
      modifies this`imagesCache, images
      ensures Valid()
      ensures forall i :: i in relatives <==> Known(images, i) && Reachable(g, NameSet(requested), i.name)
      ensures forall i :: i in relatives ==> AllKnown(images, relatives[i]) && NamesOf(relatives[i]) == Succ(g, i.name)
    {
      ghost var roots := NameSet(requested);
      ghost var degree := DegreeBound(g);
      ghost var handled: set<string> := {};
      ghost var us := Start(images, g, requested);
      relatives := map[];
      var stack := requested;
      while stack != []
        invariant Valid() && Closing(images, g, roots, relatives, handled, stack, us)
        decreases TotalWeight(degree, us)
      {
        relatives, stack, handled, us := HandleFirst(g, roots, degree, relatives, handled, stack, us);
      }
      Finish(images, g, roots, relatives, handled, us);
    }

    method HandleFirst(ghost g: Graph, ghost roots: set<string>, ghost degree: nat, relatives: map<Image, seq<Image>>,
                       ghost handled: set<string>, stack: seq<Image>, ghost us: seq<nat>)
      returns (relatives': map<Image, seq<Image>>, stack': seq<Image>, ghost handled': set<string>, ghost us': seq<nat>)
      requires Valid() && GraphOf(images, g) && RelatedConfigured(images) && stack != []
      requires Closing(images, g, roots, relatives, handled, stack, us)
      requires forall n :: n in g.succ ==> |g.succ[n]| <= degree
      modifies this`imagesCache, images
      ensures Valid() && Closing(images, g, roots, relatives', handled', stack', us')
      ensures TotalWeight(degree, us') < TotalWeight(degree, us)
    {
      var current := stack[0];
      assert Known(images, current);
      var related := Relatives(g, current);
      relatives' := relatives[current := related];
      var added := NotHandled(related, relatives');
      stack' := stack[1..] + added;
      handled' := handled + {current.name};
      us' := Turn(images, g, roots, handled, relatives, stack, related, added, us, degree);
    }

    /** The relatives that are no key yet, in order and with their repetitions. */
    method NotHandled(related: seq<Image>, relatives: map<Image, seq<Image>>) returns (added: seq<Image>)
      ensures |added| <= |related| && forall i :: i in added <==> i in related && i !in relatives
    {
      added := [];
      var k := 0;
      while k < |related|
        invariant 0 <= k <= |related| && |added| <= k
        invariant forall i :: i in added <==> i in related[..k] && i !in relatives
      {
        if related[k] !in relatives { added := added + [related[k]]; }
        k := k + 1;
      }
      assert related[..|related|] == related;
    }
  }

  /** `result` is ordered by name and holds exactly the images reachable from the request. */
  ghost predicate Processed(images: seq<Image>, requested: seq<string>, result: seq<Image>) {
    && Increasing(NamesOf(result))
    && (forall i :: i in result ==> Known(images, i))
    && (forall i :: i in images && Known(images, i) ==>
          (i in result <==> Reachable(ImageGraph(images), (set n | n in requested), i.name)))
  }

  /** The order maps are iterated in leaves no trace in the result. */
  lemma ProcessedUnique(images: seq<Image>, requested: seq<string>, one: seq<Image>, two: seq<Image>)
    requires Processed(images, requested, one) && Processed(images, requested, two)
    ensures one == two
  {
    var a, b := NamesOf(one), NamesOf(two);
    SameImagesSameNames(one, two);
    IncreasingUnique(a, b);
    assert |one| == |two|;
    forall k | 0 <= k < |one| ensures one[k] == two[k] {
      assert one[k] in one && two[k] in two;
      assert a[k] == b[k];
    }
  }

  lemma SameImagesSameNames(one: seq<Image>, two: seq<Image>)
    requires forall i :: i in one <==> i in two
    ensures forall n :: n in NamesOf(one) <==> n in NamesOf(two)
  {
    forall n ensures n in NamesOf(one) <==> n in NamesOf(two) {
      NamesOfHas(one, n);
      NamesOfHas(two, n);
    }
  }

  lemma NamesOfHas(s: seq<Image>, n: string)
    ensures n in NamesOf(s) <==> exists i :: i in s && i.name == n
  {
    if i :| i in s && i.name == n {
      var k :| 0 <= k < |s| && s[k] == i;
      assert NamesOf(s)[k] == n;
    }
  }

  lemma SortedAreKeys(images: seq<Image>, keys: set<Image>, sorted: seq<string>, result: seq<Image>)
    requires forall i :: i in keys ==> Known(images, i)
    requires forall n :: n in sorted <==> exists i :: i in keys && i.name == n
    requires AllKnown(images, result) && NamesOf(result) == sorted
    ensures forall i :: i in result <==> i in keys
  {
    forall i ensures i in result <==> i in keys {
      if i in result {
        NamesOfHas(result, i.name);
        var j :| j in keys && j.name == i.name;
        assert Known(images, j) && Known(images, i);
      }
      if i in keys {
        assert i.name in sorted;
        NamesOfHas(result, i.name);
        var j :| j in result && j.name == i.name;
        assert Known(images, j);
      }
    }
  }

  ghost predicate Known(images: seq<Image>, i: Image) {
    i in images && Find(images, i.name) == i
  }

  ghost predicate AllKnown(images: seq<Image>, s: seq<Image>) {
    forall i :: i in s ==> Known(images, i)
  }

  function NamesOf(s: seq<Image>): (r: seq<string>)
    ensures |r| == |s| && forall k :: 0 <= k < |s| ==> r[k] == s[k].name
  {
    seq(|s|, k requires 0 <= k < |s| => s[k].name)
  }

  ghost function NameSet(s: seq<Image>): set<string> {
    set i | i in s :: i.name
  }

  /** `handled` are the names of the keys. */
  ghost predicate Handled(images: seq<Image>, keys: set<Image>, handled: set<string>) {
    && (forall i :: i in keys ==> Known(images, i) && i.name in handled)
    && (forall n :: n in handled ==> Find(images, n) != null && Find(images, n) in keys)
  }

  lemma ResolvedAreSuccessors(images: seq<Image>, g: Graph, i: Image)
    requires GraphOf(images, g) && RelatedConfigured(images) && Known(images, i)
    ensures ResolvedRelated(images, i) == Succ(g, i.name)
    ensures forall m :: m in Succ(g, i.name) ==> Find(images, m) != null
  {
    ConfiguredAll(images, i.dependencies);
    if i.stapel {
      ConfiguredSum(images, Named([i.from]), Named(i.imports));
      ConfiguredSum(images, Named([i.from]) + Named(i.imports), i.dependencies);
    }
    forall m | m in Succ(g, i.name) ensures Find(images, m) != null {
      ConfiguredHas(images, AllRelated(i), m);
    }
  }

  lemma Start(images: seq<Image>, g: Graph, requested: seq<Image>) returns (us: seq<nat>)
    requires GraphOf(images, g) && AllKnown(images, requested)
    ensures Frontier(g, NameSet(requested), {}, NamesOf(requested))
    ensures Budgets(g, {}, NamesOf(requested), us)
  {
    var work := NamesOf(requested);
    us := seq(|requested|, k => Pending(g, {}));
    forall k | 0 <= k < |work| ensures work[k] in g.succ && Pending(g, {} + {work[k]}) < us[k] {
      assert requested[k] in requested;
      assert Find(images, work[k]) != null;
      PendingShrinks(g, {}, work[k]);
    }
    forall n | n in work ensures Reachable(g, NameSet(requested), n) {
      var k :| 0 <= k < |work| && work[k] == n;
      assert requested[k] in requested;
      assert Reach(g, n, n, 0);
    }
    forall r | r in NameSet(requested) ensures r in work {
      var i :| i in requested && i.name == r;
      var k :| 0 <= k < |requested| && requested[k] == i;
      assert work[k] == r;
    }
  }

  /** What the closure keeps: the keys are the handled names, the queue is what is still missing. */
  ghost predicate Closing(images: seq<Image>, g: Graph, roots: set<string>, relatives: map<Image, seq<Image>>,
                          handled: set<string>, stack: seq<Image>, us: seq<nat>) {
    && AllKnown(images, stack) && Handled(images, relatives.Keys, handled)
    && RelativesTrue(images, g, relatives)
    && Frontier(g, roots, handled, NamesOf(stack)) && Budgets(g, handled, NamesOf(stack), us)
  }

  lemma Turn(images: seq<Image>, g: Graph, roots: set<string>, handled: set<string>, relatives: map<Image, seq<Image>>,
             stack: seq<Image>, related: seq<Image>, added: seq<Image>, us: seq<nat>, degree: nat)
    returns (us': seq<nat>)
    requires GraphOf(images, g) && stack != [] && Closing(images, g, roots, relatives, handled, stack, us)
    requires AllKnown(images, related) && NamesOf(related) == Succ(g, stack[0].name)
    requires forall n :: n in g.succ ==> |g.succ[n]| <= degree
    requires |added| <= |related|
    requires forall i :: i in added <==> i in related && i !in relatives[stack[0] := related]
    ensures Closing(images, g, roots, relatives[stack[0] := related], handled + {stack[0].name}, stack[1..] + added, us')
    ensures TotalWeight(degree, us') < TotalWeight(degree, us)
  {
    TurnNames(images, g, handled, relatives, stack, related, added);
    us' := TurnQueue(g, roots, handled, stack, added, us, degree, related);
    RelativesAdd(images, g, relatives, stack[0], related);
  }

  lemma TurnQueue(g: Graph, roots: set<string>, handled: set<string>, stack: seq<Image>, added: seq<Image>, us: seq<nat>,
                  degree: nat, related: seq<Image>)
    returns (us': seq<nat>)
    requires stack != [] && Frontier(g, roots, handled, NamesOf(stack)) && Budgets(g, handled, NamesOf(stack), us)
    requires NamesOf(related) == Succ(g, stack[0].name) && |added| <= |related|
    requires forall n :: n in g.succ ==> |g.succ[n]| <= degree
    requires forall m :: m in NamesOf(added) <==> m in Succ(g, stack[0].name) && m !in handled + {stack[0].name}
    requires forall m :: m in NamesOf(added) ==> m in g.succ
    ensures Frontier(g, roots, handled + {stack[0].name}, NamesOf(stack[1..] + added))
    ensures Budgets(g, handled + {stack[0].name}, NamesOf(stack[1..] + added), us')
    ensures TotalWeight(degree, us') < TotalWeight(degree, us)
  {
    FrontierStep(g, roots, handled, NamesOf(stack), NamesOf(added));
    us' := BudgetsStep(g, handled, NamesOf(stack), us, NamesOf(added));
    TailNames(stack, added);
    assert |NamesOf(added)| <= degree;
  }

  lemma TurnNames(images: seq<Image>, g: Graph, handled: set<string>, relatives: map<Image, seq<Image>>,
                  stack: seq<Image>, related: seq<Image>, added: seq<Image>)
    requires GraphOf(images, g) && stack != [] && AllKnown(images, stack) && Handled(images, relatives.Keys, handled)
    requires AllKnown(images, related) && NamesOf(related) == Succ(g, stack[0].name)
    requires forall i :: i in added <==> i in related && i !in relatives[stack[0] := related]
    ensures AllKnown(images, stack[1..] + added)
    ensures Handled(images, relatives[stack[0] := related].Keys, handled + {stack[0].name})
    ensures forall m :: m in NamesOf(added) <==> m in Succ(g, stack[0].name) && m !in handled + {stack[0].name}
    ensures forall m :: m in NamesOf(added) ==> m in g.succ
  {
    var keys := relatives[stack[0] := related].Keys;
    assert keys == relatives.Keys + {stack[0]};
    assert stack[0] in stack && Known(images, stack[0]);
    HandledAdd(images, relatives.Keys, handled, stack[0]);
    AddedNames(images, g, keys, handled + {stack[0].name}, related, added);
    KnownTail(images, stack, added);
  }

  lemma KnownTail(images: seq<Image>, stack: seq<Image>, added: seq<Image>)
    requires stack != [] && AllKnown(images, stack) && forall i :: i in added ==> Known(images, i)
    ensures AllKnown(images, stack[1..] + added)
  {
    forall i | i in stack[1..] + added ensures Known(images, i) {
      assert i in stack[1..] || i in added;
    }
  }

  /** Every key has its relatives, in order and none missing. */
  ghost predicate RelativesTrue(images: seq<Image>, g: Graph, relatives: map<Image, seq<Image>>) {
    forall i :: i in relatives ==> AllKnown(images, relatives[i]) && NamesOf(relatives[i]) == Succ(g, i.name)
  }

  lemma RelativesAdd(images: seq<Image>, g: Graph, relatives: map<Image, seq<Image>>, current: Image, related: seq<Image>)
    requires RelativesTrue(images, g, relatives)
    requires AllKnown(images, related) && NamesOf(related) == Succ(g, current.name)
    ensures RelativesTrue(images, g, relatives[current := related])
  {
  }

  lemma HandledAdd(images: seq<Image>, keys: set<Image>, handled: set<string>, i: Image)
    requires Handled(images, keys, handled) && Known(images, i)
    ensures Handled(images, keys + {i}, handled + {i.name})
  {
  }

  lemma TailNames(stack: seq<Image>, added: seq<Image>)
    requires stack != []
    ensures NamesOf(stack[1..] + added) == NamesOf(stack)[1..] + NamesOf(added)
  {
    var l, r := NamesOf(stack[1..] + added), NamesOf(stack)[1..] + NamesOf(added);
    assert |l| == |r|;
    assert forall k :: 0 <= k < |l| ==> l[k] == r[k];
  }

  lemma AddedNames(images: seq<Image>, g: Graph, keys: set<Image>, handled: set<string>, related: seq<Image>, added: seq<Image>)
    requires GraphOf(images, g) && AllKnown(images, related) && Handled(images, keys, handled)
    requires forall i :: i in added <==> i in related && i !in keys
    ensures forall m :: m in NamesOf(added) <==> m in NamesOf(related) && m !in handled
    ensures forall m :: m in NamesOf(added) ==> m in g.succ
  {
    forall m ensures m in NamesOf(added) <==> m in NamesOf(related) && m !in handled {
      if m in NamesOf(added) {
        var k :| 0 <= k < |added| && added[k].name == m;
        assert added[k] in added;
        var j :| 0 <= j < |related| && related[j] == added[k];
        assert NamesOf(related)[j] == m;
      }
      if m in NamesOf(related) && m !in handled {
        var j :| 0 <= j < |related| && related[j].name == m;
        assert related[j] in related;
        assert related[j] in added;
        var k :| 0 <= k < |added| && added[k] == related[j];
        assert NamesOf(added)[k] == m;
      }
    }
    forall m | m in NamesOf(added) ensures m in g.succ {
      var k :| 0 <= k < |added| && added[k].name == m;
      assert added[k] in added && Known(images, added[k]);
      assert Find(images, m) != null;
    }
  }

  lemma Finish(images: seq<Image>, g: Graph, roots: set<string>, relatives: map<Image, seq<Image>>,
               handled: set<string>, us: seq<nat>)
    requires Closing(images, g, roots, relatives, handled, [], us)
    ensures forall i :: i in relatives <==> Known(images, i) && Reachable(g, roots, i.name)
    ensures forall i :: i in relatives ==> AllKnown(images, relatives[i]) && NamesOf(relatives[i]) == Succ(g, i.name)
  {
    assert NamesOf([]) == [];
    FrontierDone(g, roots, handled);
  }

  /** What `updateDependencies` lists: unlike the imports, the dependencies are not looked up. */
  function ResolvedRelated(images: seq<Image>, i: Image): seq<string> {
    if i.stapel then Configured(images, Named([i.from])) + Configured(images, Named(i.imports)) + i.dependencies
    else i.dependencies
  }

  lemma ConfiguredOne(images: seq<Image>, n: string)
    ensures Configured(images, Named([n])) == if n != "" && Find(images, n) != null then [n] else []
  {
    assert Named([n]) == if n != "" then [n] else [];
  }

  lemma ConcatAssociative(p: seq<string>, q: seq<string>, r: seq<string>)
    ensures (p + q) + r == p + (q + r)
  {
  }

  lemma NameIsPath(images: seq<Image>, g: Graph, i: Image)
    requires GraphOf(images, g) && i in images
    ensures IsPath(g, [] + [i.name])
  {
    FindSome(images, i);
  }

  lemma LoopReported(g: Graph, p: seq<string>)
    requires IsLoop(g, [] + p)
    ensures IsLoop(g, p) && Cyclic(g)
  {
    assert [] + p == p;
    LoopIsCycle(g, p);
  }

  ghost predicate Walked(g: Graph, s: set<string>) {
    Settled(g, s) && s <= g.succ.Keys
  }

  ghost function Unvisited(g: Graph, stack: seq<string>): set<string> {
    g.succ.Keys - (set n | n in stack)
  }

  lemma StackGrows(g: Graph, stack: seq<string>, name: string)
    requires name in g.succ && name !in stack
    ensures |Unvisited(g, stack + [name])| < |Unvisited(g, stack)|
  {
    assert Unvisited(g, stack + [name]) == Unvisited(g, stack) - {name};
  }

  lemma WalkedAdd(g: Graph, s: set<string>, n: string)
    requires Walked(g, s) && n in g.succ && forall m :: m in Succ(g, n) ==> m in s
    ensures Walked(g, s + {n})
  {
    if n in s { assert s + {n} == s; } else { SettledAdd(g, s, n); }
  }
}
