/** The `sign` entries of an image: no file is signed twice, and none is the signature that another
    entry of the same stage writes. */
module SignIndex {
  datatype Sign = Sign(path: string, embedded: bool, before: string, after: string)

  predicate IsPattern(s: Sign) { '*' in s.path }

  function OutputPath(s: Sign): string { s.path + ".p7s" }

  predicate SameStage(a: Sign, b: Sign) { a.before == b.before && a.after == b.after }

  // ---- The rule, pair by pair.

  /** `b` is the signature that `a` writes. */
  predicate Writes(a: Sign, b: Sign) {
    !IsPattern(a) && !IsPattern(b) && !a.embedded && OutputPath(a) == b.path && SameStage(a, b)
  }

  predicate Clash(a: Sign, b: Sign) {
    a.path == b.path || Writes(a, b) || Writes(b, a)
  }

  ghost predicate Compatible(signs: seq<Sign>) {
    forall i, j :: 0 <= i < j < |signs| ==> !Clash(signs[i], signs[j])
  }

  /** The rule in full: two entries clash if they have the same path, or if both are single files
      signed at the same stage and one is the detached signature of the other. */
  lemma ClashExact(a: Sign, b: Sign)
    ensures Clash(a, b) <==>
            || a.path == b.path
            || ('*' !in a.path && '*' !in b.path && a.before == b.before && a.after == b.after
                && ((!a.embedded && a.path + ".p7s" == b.path) || (!b.embedded && b.path + ".p7s" == a.path)))
  {
  }

  // ---- The order of the entries does not matter.

  ghost predicate CompatibleBag(bag: multiset<Sign>) {
    && (forall s :: s in bag ==> bag[s] == 1)
    && forall s, t :: s in bag && t in bag && s != t ==> !Clash(s, t)
  }

  lemma {:induction false} CountOne(signs: seq<Sign>, s: Sign)
    ensures multiset(signs)[s] >= 2 <==> exists i, j :: 0 <= i < j < |signs| && signs[i] == s && signs[j] == s
    decreases |signs|
  {
    if signs != [] {
      var n := |signs| - 1;
      var init, last := signs[..n], signs[n];
      assert signs == init + [last];
      CountOne(init, s);
      if s == last && s in init {
        var i :| 0 <= i < n && init[i] == s;
        assert signs[i] == s && signs[n] == s;
      }
      if i, j :| 0 <= i < j < |signs| && signs[i] == s && signs[j] == s {
        assert init[i] == s;
        if j < n { assert init[j] == s; }
      }
      if i, j :| 0 <= i < j < n && init[i] == s && init[j] == s {
        assert signs[i] == s && signs[j] == s;
      }
    }
  }

  lemma CompatibleAsBag(signs: seq<Sign>)
    ensures Compatible(signs) <==> CompatibleBag(multiset(signs))
  {
    var bag := multiset(signs);
    if Compatible(signs) {
      forall s | s in bag ensures bag[s] == 1 { CountOne(signs, s); }
      forall s, t | s in bag && t in bag && s != t ensures !Clash(s, t) {
        assert s in signs && t in signs;
        var i :| 0 <= i < |signs| && signs[i] == s;
        var j :| 0 <= j < |signs| && signs[j] == t;
        if i < j { assert !Clash(signs[i], signs[j]); } else { assert !Clash(signs[j], signs[i]); }
      }
    }
    if CompatibleBag(bag) {
      forall i, j | 0 <= i < j < |signs| ensures !Clash(signs[i], signs[j]) {
        assert signs[i] in bag && signs[j] in bag;
        if signs[i] == signs[j] { CountOne(signs, signs[i]); }
      }
    }
  }

  /** Entries are accepted or not whatever order they are written in. */
  lemma OrderDoesNotMatter(a: seq<Sign>, b: seq<Sign>)
    requires multiset(a) == multiset(b)
    ensures Compatible(a) <==> Compatible(b)
  {
    CompatibleAsBag(a);
    CompatibleAsBag(b);
  }

  // ---- The two maps.

  predicate Detached(s: Sign) { !IsPattern(s) && !s.embedded }

  ghost predicate Indexed(signs: seq<Sign>, byPath: map<string, Sign>, byOutput: map<string, Sign>) {
    && (forall i :: 0 <= i < |signs| ==> signs[i].path in byPath && byPath[signs[i].path] == signs[i])
    && (forall p :: p in byPath ==> byPath[p] in signs && byPath[p].path == p)
    && (forall i :: 0 <= i < |signs| && Detached(signs[i]) ==>
          OutputPath(signs[i]) in byOutput && byOutput[OutputPath(signs[i])] == signs[i])
    && (forall p :: p in byOutput ==> byOutput[p] in signs && Detached(byOutput[p]) && OutputPath(byOutput[p]) == p)
  }

  /** Some entry so far clashes with `s`. */
  ghost predicate ClashesWith(signs: seq<Sign>, s: Sign) {
    exists i :: 0 <= i < |signs| && Clash(signs[i], s)
  }

  /** `s` is the signature of the entry found under its path. */
  predicate IsOutput(byOutput: map<string, Sign>, s: Sign) {
    s.path in byOutput && SameStage(byOutput[s.path], s)
  }

  /** The signature of `s` is an entry. */
  predicate IsInput(byPath: map<string, Sign>, s: Sign) {
    OutputPath(s) in byPath && !IsPattern(byPath[OutputPath(s)]) && SameStage(byPath[OutputPath(s)], s)
  }

  lemma LookupsExact(signs: seq<Sign>, byPath: map<string, Sign>, byOutput: map<string, Sign>, s: Sign)
    requires Indexed(signs, byPath, byOutput)
    ensures ClashesWith(signs, s) <==>
            s.path in byPath || (!IsPattern(s) && (IsOutput(byOutput, s) || (!s.embedded && IsInput(byPath, s))))
  {
    if s.path in byPath {
      var i :| 0 <= i < |signs| && signs[i] == byPath[s.path];
      assert Clash(signs[i], s);
    }
    if !IsPattern(s) && IsOutput(byOutput, s) {
      var i :| 0 <= i < |signs| && signs[i] == byOutput[s.path];
      assert Clash(signs[i], s);
    }
    if !IsPattern(s) && !s.embedded && IsInput(byPath, s) {
      var i :| 0 <= i < |signs| && signs[i] == byPath[OutputPath(s)];
      assert Clash(signs[i], s);
    }
  }

  lemma IndexedMore(signs: seq<Sign>, byPath: map<string, Sign>, byOutput: map<string, Sign>, s: Sign)
    requires Indexed(signs, byPath, byOutput) && s.path !in byPath
    ensures Indexed(signs + [s], byPath[s.path := s], if Detached(s) then byOutput[OutputPath(s) := s] else byOutput)
  {
    var out := if Detached(s) then byOutput[OutputPath(s) := s] else byOutput;
    var all := signs + [s];
    assert all[|signs|] == s;
    forall i | 0 <= i < |all| && Detached(all[i])
      ensures OutputPath(all[i]) in out && out[OutputPath(all[i])] == all[i]
    {
      if i < |signs| { OutputsDiffer(signs[i], s); }
    }
  }

  lemma OutputsDiffer(a: Sign, b: Sign)
    requires a.path != b.path
    ensures OutputPath(a) != OutputPath(b)
  {
    assert a.path == OutputPath(a)[..|a.path|] && b.path == OutputPath(b)[..|b.path|];
  }

  lemma CompatibleMore(signs: seq<Sign>, s: Sign)
    requires Compatible(signs)
    ensures Compatible(signs + [s]) <==> !ClashesWith(signs, s)
  {
    var all := signs + [s];
    if i :| 0 <= i < |signs| && Clash(signs[i], s) {
      assert all[i] == signs[i] && all[|signs|] == s;
    }
  }

  datatype Result = Accepted(signs: seq<Sign>) | Rejected(at: nat)

  /** The first `k` entries have been taken in. */
  ghost predicate Collected(raw: seq<Sign>, k: int, signs: seq<Sign>, byPath: map<string, Sign>, byOutput: map<string, Sign>) {
    0 <= k <= |raw| && signs == raw[..k] && Compatible(signs) && Indexed(signs, byPath, byOutput)
  }

  ghost predicate FirstClash(raw: seq<Sign>, k: nat) {
    k < |raw| && !Compatible(raw) && Compatible(raw[..k]) && ClashesWith(raw[..k], raw[k])
  }

  lemma CollectStep(raw: seq<Sign>, k: nat, signs: seq<Sign>, byPath: map<string, Sign>, byOutput: map<string, Sign>, s: Sign)
    requires k < |raw| && s == raw[k] && Collected(raw, k, signs, byPath, byOutput)
    ensures s.path in byPath ==> FirstClash(raw, k)
    ensures !IsPattern(s) && IsOutput(byOutput, s) ==> FirstClash(raw, k)
    ensures Detached(s) && IsInput(byPath[s.path := s], s) ==> FirstClash(raw, k)
    ensures || FirstClash(raw, k)
            || Collected(raw, k + 1, signs + [s], byPath[s.path := s],
                         if Detached(s) then byOutput[OutputPath(s) := s] else byOutput)
  {
    LookupsExact(signs, byPath, byOutput, s);
    CompatibleMore(signs, s);
    InputEarlier(byPath, s);
    assert raw[..k + 1] == signs + [s];
    PrefixCompatible(raw, k + 1);
    if s.path !in byPath { IndexedMore(signs, byPath, byOutput, s); }
  }

  lemma ClashIsReal(raw: seq<Sign>, k: nat, signs: seq<Sign>, byPath: map<string, Sign>, byOutput: map<string, Sign>, s: Sign)
    requires k < |raw| && s == raw[k] && Collected(raw, k, signs, byPath, byOutput) && FirstClash(raw, k)
    ensures s.path in byPath || (!IsPattern(s) && (IsOutput(byOutput, s) || (!s.embedded && IsInput(byPath[s.path := s], s))))
  {
    LookupsExact(signs, byPath, byOutput, s);
    InputEarlier(byPath, s);
  }

  /** Accepts exactly the compatible lists; otherwise reports the first entry that clashes with one
      before it. */
  method CollectSigns(raw: seq<Sign>) returns (r: Result)
    ensures r.Accepted? <==> Compatible(raw)
    ensures r.Accepted? ==> r.signs == raw
    ensures r.Rejected? ==> FirstClash(raw, r.at)
  {
    var signByPath: map<string, Sign>, signByOutputPath: map<string, Sign> := map[], map[];
    var signs: seq<Sign> := [];
    var k := 0;
    while k < |raw|
      invariant Collected(raw, k, signs, signByPath, signByOutputPath)
    {
      var sign := raw[k];
      CollectStep(raw, k, signs, signByPath, signByOutputPath, sign);
      if FirstClash(raw, k) { ClashIsReal(raw, k, signs, signByPath, signByOutputPath, sign); }
      if sign.path in signByPath { return Rejected(k); }
      signByPath := signByPath[sign.path := sign];
      signs := signs + [sign];
      k := k + 1;
      if IsPattern(sign) { continue; }
      if IsOutput(signByOutputPath, sign) { return Rejected(k - 1); }
      if sign.embedded { continue; }
      if IsInput(signByPath, sign) { return Rejected(k - 1); }
      signByOutputPath := signByOutputPath[OutputPath(sign) := sign];
    }
    assert raw[..k] == raw;
    return Accepted(signs);
  }

  /** An entry is not its own signature. */
  lemma InputEarlier(byPath: map<string, Sign>, s: Sign)
    ensures IsInput(byPath[s.path := s], s) <==> IsInput(byPath, s)
  {
    assert |OutputPath(s)| > |s.path|;
  }

  lemma PrefixCompatible(signs: seq<Sign>, k: nat)
    requires k <= |signs|
    ensures Compatible(signs) ==> Compatible(signs[..k])
  {
  }
}
