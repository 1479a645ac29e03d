/** Slots of attestations attached to an image, and how copying and publishing replace them. */
module AttestationCopy {
  import opened Basics

  const BUNDLE := "application/vnd.dev.sigstore.bundle.v0.3+json"
  const DSSE := "application/vnd.dsse.envelope.v1+json"

  /** What kind of artifact, and of which predicate; no predicate annotation is "". */
  datatype Key = Key(artifactType: string, predicateType: string)

  datatype PredicateKind = OpenVEX | CycloneDX

  function SignedType(kind: PredicateKind): string {
    match kind
    case OpenVEX => "https://openvex.dev/ns"
    case CycloneDX => "https://cyclonedx.org/bom"
  }

  function UnsignedType(kind: PredicateKind): string {
    match kind
    case OpenVEX => "https://openvex.dev/ns/v0.2.0"
    case CycloneDX => "https://cyclonedx.org/bom/v1.6"
  }

  function Types(kind: PredicateKind): set<string> {
    {SignedType(kind), UnsignedType(kind)}
  }

  function KindOf(uri: string): Option<PredicateKind> {
    if uri in Types(OpenVEX) then Some(OpenVEX)
    else if uri in Types(CycloneDX) then Some(CycloneDX)
    else None
  }

  /** No URI belongs to two kinds, and none is the missing annotation. */
  lemma KindOfExact(uri: string, kind: PredicateKind)
    ensures KindOf(uri) == Some(kind) <==> uri in Types(kind)
    ensures KindOf("") == None
  {
    assert SignedType(OpenVEX)[8] == 'o' && UnsignedType(OpenVEX)[8] == 'o';
    assert SignedType(CycloneDX)[8] == 'c' && UnsignedType(CycloneDX)[8] == 'c';
  }

  function Opposite(artifactType: string): Option<string> {
    if artifactType == BUNDLE then Some(DSSE)
    else if artifactType == DSSE then Some(BUNDLE)
    else None
  }

  function KindSlotKeys(artifactType: string, kind: PredicateKind): set<Key> {
    {Key(artifactType, SignedType(kind)), Key(artifactType, UnsignedType(kind))}
  }

  /** What the copied artifact replaces, given all the source holds. */
  function CopySupersededKeys(copied: Key, srcKeys: set<Key>): set<Key> {
    match KindOf(copied.predicateType)
    case None => {}
    case Some(kind) =>
      match Opposite(copied.artifactType)
      case None => {}
      case Some(opposite) => KindSlotKeys(opposite, kind) - srcKeys
  }

  /** The rule with the types written out: a signed bundle replaces the envelopes of its kind, and the
      other way round, unless the source has them. */
  lemma SupersededExact(srcKeys: set<Key>, uri: string)
    ensures var vex, bom := {"https://openvex.dev/ns", "https://openvex.dev/ns/v0.2.0"},
                            {"https://cyclonedx.org/bom", "https://cyclonedx.org/bom/v1.6"};
            var bundle, envelope := "application/vnd.dev.sigstore.bundle.v0.3+json", "application/vnd.dsse.envelope.v1+json";
            var kin := if uri in vex then vex else if uri in bom then bom else {};
            && (forall k :: k in CopySupersededKeys(Key(bundle, uri), srcKeys) <==>
                  k.artifactType == envelope && k.predicateType in kin && k !in srcKeys)
            && (forall k :: k in CopySupersededKeys(Key(envelope, uri), srcKeys) <==>
                  k.artifactType == bundle && k.predicateType in kin && k !in srcKeys)
            && (forall t :: t != bundle && t != envelope ==> CopySupersededKeys(Key(t, uri), srcKeys) == {})
  {
    KindApart(OpenVEX);
    KindOfExact(uri, OpenVEX);
    KindOfExact(uri, CycloneDX);
  }

  // ---- Indexes.

  /** Werf's own artifacts, those with a checksum, have slots apart from those users sign. */
  datatype Slot = Slot(key: Key, image: string, owned: bool)

  datatype Content = Content(payload: string, checksum: string, platform: string)

  type Slots = map<Slot, Content>

  ghost predicate WellFormed(slots: Slots) {
    forall s :: s in slots ==> (s.owned <==> slots[s].checksum != "")
  }

  function KeysOf(slots: Slots, image: string): set<Key> {
    set s | s in slots && s.image == image :: s.key
  }

  function Superseded(src: Slots, dst: Slots, s: Slot): set<Key> {
    set k | k in CopySupersededKeys(s.key, KeysOf(src, s.image)) && Slot(k, s.image, true) in dst
  }

  /** The attach: its own slot is filled, the superseded slots of the image that werf owns go. */
  function Attached(slots: Slots, s: Slot, content: Content, superseded: set<Key>): Slots {
    (map t | t in slots && !(t.owned && t.image == s.image && t.key in superseded) :: slots[t])[s := content]
  }

  predicate Equivalent(dst: Slots, s: Slot, content: Content) {
    s in dst && dst[s].checksum == content.checksum && dst[s].platform == content.platform
  }

  predicate Skips(src: Slots, dst: Slots, s: Slot)
    requires s in src
  {
    Superseded(src, dst, s) == {} && Equivalent(dst, s, src[s])
  }

  // ---- What copying is to give, said without any order.

  /** Some artifact of the source replaces the slot. */
  ghost predicate Evicted(src: Slots, t: Slot) {
    t.owned && exists s :: s in src && Replaces(src, s, t)
  }

  predicate Replaces(src: Slots, s: Slot, t: Slot) {
    s.image == t.image && t.key in CopySupersededKeys(s.key, KeysOf(src, s.image))
  }

  /** What the copy leaves in a slot: the source's artifact, unless there is an equivalent one
      already, or what the destination had, unless it is replaced. */
  ghost function Wanted(src: Slots, dst: Slots, t: Slot): Option<Content> {
    if t in src then (if Skips(src, dst, t) then Get(dst, t) else Some(src[t]))
    else if Evicted(src, t) then None
    else Get(dst, t)
  }

  function Get(slots: Slots, t: Slot): Option<Content> {
    if t in slots then Some(slots[t]) else None
  }

  ghost predicate Mirrored(src: Slots, dst: Slots, result: Slots) {
    forall t :: Get(result, t) == Wanted(src, dst, t)
  }

  /** Copying gives one result, whatever the order. */
  lemma MirroredUnique(src: Slots, dst: Slots, a: Slots, b: Slots)
    requires Mirrored(src, dst, a) && Mirrored(src, dst, b)
    ensures a == b
  {
    forall t ensures (t in a <==> t in b) && (t in a ==> a[t] == b[t]) {
      assert Get(a, t) == Get(b, t);
    }
  }

  /** Nothing the source holds is replaced. */
  lemma SourceNotEvicted(src: Slots, t: Slot)
    requires t in src
    ensures !Evicted(src, t)
  {
    assert t.key in KeysOf(src, t.image);
  }

  // ---- The code.

  class Repository {
    var index: Slots

    constructor ()
      ensures index == map[]
    {
      index := map[];
    }

    method AttachSuperseding(s: Slot, content: Content, superseded: set<Key>)
      modifies this
      ensures index == Attached(old(index), s, content, superseded)
    {
      index := Attached(index, s, content, superseded);
    }

    /** Copies the source's artifacts in the order its index lists them. */
    method CopyAttachedArtifacts(src: Slots, order: seq<Slot>)
      requires WellFormed(src) && WellFormed(index) && forall s :: s in order <==> s in src
      modifies this
      ensures WellFormed(index) && Mirrored(src, old(index), index)
    {
      ghost var start := index;
      var dst := index;
      var i := 0;
      assert Seen(order, 0) == {};
      assert Copied(src, start, index, {});
      while i < |order|
        invariant 0 <= i <= |order| && Copied(src, start, index, Seen(order, i))
      {
        var s := order[i];
        SeenMore(order, i);
        CopyStep(src, start, index, Seen(order, i), s);
        var superseded := Superseded(src, dst, s);
        if superseded != {} || !Equivalent(dst, s, src[s]) {
          AttachSuperseding(s, src[s], superseded);
        }
        i := i + 1;
      }
      CopyEnds(src, start, index, Seen(order, i));
      MirroredWellFormed(src, start, index);
    }
  }

  lemma MirroredWellFormed(src: Slots, dst: Slots, result: Slots)
    requires WellFormed(src) && WellFormed(dst) && Mirrored(src, dst, result)
    ensures WellFormed(result)
  {
    forall t | t in result ensures t.owned <==> result[t].checksum != "" {
      assert Get(result, t) == Wanted(src, dst, t);
    }
  }

  ghost function Seen(order: seq<Slot>, i: nat): set<Slot>
    requires i <= |order|
  {
    set k | 0 <= k < i :: order[k]
  }

  lemma SeenMore(order: seq<Slot>, i: nat)
    requires i < |order|
    ensures Seen(order, i + 1) == Seen(order, i) + {order[i]}
  {
    forall s ensures s in Seen(order, i + 1) <==> s in Seen(order, i) + {order[i]} {
    }
  }

  /** What is in a slot once the artifacts in `done` have been copied. */
  ghost function Reached(src: Slots, dst: Slots, done: set<Slot>, t: Slot): Option<Content> {
    if t in src && t in done then (if Skips(src, dst, t) then Get(dst, t) else Some(src[t]))
    else if EvictedBy(src, done, t) then None
    else Get(dst, t)
  }

  ghost predicate EvictedBy(src: Slots, done: set<Slot>, t: Slot) {
    t.owned && exists s :: s in done && Replaces(src, s, t)
  }

  ghost predicate Copied(src: Slots, dst: Slots, now: Slots, done: set<Slot>) {
    forall t :: Get(now, t) == Reached(src, dst, done, t)
  }

  function Next(src: Slots, dst: Slots, now: Slots, s: Slot): Slots
    requires s in src
  {
    if Skips(src, dst, s) then now else Attached(now, s, src[s], Superseded(src, dst, s))
  }

  lemma CopyStep(src: Slots, dst: Slots, now: Slots, done: set<Slot>, s: Slot)
    requires s in src && Copied(src, dst, now, done)
    ensures Copied(src, dst, Next(src, dst, now, s), done + {s})
  {
    forall t ensures Get(Next(src, dst, now, s), t) == Reached(src, dst, done + {s}, t) {
      assert Get(now, t) == Reached(src, dst, done, t);
      if t != s { SlotStep(src, dst, now, done, s, t); }
    }
  }

  lemma SlotStep(src: Slots, dst: Slots, now: Slots, done: set<Slot>, s: Slot, t: Slot)
    requires s in src && t != s && Get(now, t) == Reached(src, dst, done, t)
    ensures Get(Next(src, dst, now, s), t) == Reached(src, dst, done + {s}, t)
  {
    var more := done + {s};
    assert s in more;
    assert EvictedBy(src, more, t) <==> EvictedBy(src, done, t) || (t.owned && Replaces(src, s, t));
    if t.owned && t.image == s.image { assert t == Slot(t.key, s.image, true); }
    if t in src { assert t.key in KeysOf(src, t.image); }
    if t in dst { assert t.owned && Replaces(src, s, t) ==> t.key in Superseded(src, dst, s); }
  }

  lemma CopyEnds(src: Slots, dst: Slots, now: Slots, done: set<Slot>)
    requires Copied(src, dst, now, done) && forall s :: s in src <==> s in done
    ensures Mirrored(src, dst, now)
  {
    forall t ensures Get(now, t) == Wanted(src, dst, t) {
      assert Get(now, t) == Reached(src, dst, done, t);
    }
  }

  // ---- What it means.

  /** Copying again changes nothing. */
  lemma CopyIdempotent(src: Slots, dst: Slots, once: Slots, twice: Slots)
    requires Mirrored(src, dst, once) && Mirrored(src, once, twice)
    ensures twice == once
  {
    forall t ensures (t in twice <==> t in once) && (t in twice ==> twice[t] == once[t]) {
      assert Get(once, t) == Wanted(src, dst, t);
      assert Get(twice, t) == Wanted(src, once, t);
      if t in src { NothingLeft(src, dst, once, t); }
    }
  }

  lemma NothingLeft(src: Slots, dst: Slots, once: Slots, t: Slot)
    requires Mirrored(src, dst, once) && t in src
    ensures Superseded(src, once, t) == {}
  {
    forall k | k in CopySupersededKeys(t.key, KeysOf(src, t.image)) ensures Slot(k, t.image, true) !in once {
      var u := Slot(k, t.image, true);
      assert Replaces(src, t, u);
      assert Evicted(src, u);
      if u in src { SourceNotEvicted(src, u); }
      assert Get(once, u) == Wanted(src, dst, u);
    }
  }

  predicate Alike(a: Option<Content>, b: Option<Content>) {
    (a.None? && b.None?) || (a.Some? && b.Some? && a.value.checksum == b.value.checksum && a.value.platform == b.value.platform)
  }

  /** A copy that failed half way and is repeated arrives at the same slots, each with an equivalent
      artifact. */
  lemma RepeatConverges(src: Slots, dst: Slots, mid: Slots, done: set<Slot>, result: Slots, t: Slot)
    requires done <= src.Keys && Copied(src, dst, mid, done) && Mirrored(src, mid, result)
    ensures Alike(Get(result, t), Wanted(src, dst, t))
  {
    assert Get(mid, t) == Reached(src, dst, done, t);
    assert Get(result, t) == Wanted(src, mid, t);
    if t in src { SourceNotEvicted(src, t); }
    assert EvictedBy(src, done, t) ==> Evicted(src, t);
  }

  /** The destination holds an equivalent artifact that an uninterrupted copy would have replaced, but
      only because attaching it evicts something, and the interrupted copy has evicted that already. */
  predicate KeptByRepeat(src: Slots, dst: Slots, mid: Slots, done: set<Slot>, t: Slot) {
    && t in src && t !in done && Equivalent(dst, t, src[t]) && dst[t] != src[t]
    && Superseded(src, dst, t) != {} && Superseded(src, mid, t) == {}
  }

  /** Exactly when the repeated copy ends with another artifact than an uninterrupted one. */
  lemma RepeatExact(src: Slots, dst: Slots, mid: Slots, done: set<Slot>, result: Slots, t: Slot)
    requires done <= src.Keys && Copied(src, dst, mid, done) && Mirrored(src, mid, result)
    ensures Get(result, t) == Wanted(src, dst, t) <==> !KeptByRepeat(src, dst, mid, done, t)
  {
    assert Get(mid, t) == Reached(src, dst, done, t);
    assert Get(result, t) == Wanted(src, mid, t);
    if t in src {
      SourceNotEvicted(src, t);
      assert !EvictedBy(src, done, t);
      FewerLeft(src, dst, mid, done, t);
    }
    assert EvictedBy(src, done, t) ==> Evicted(src, t);
  }

  /** A copy that has begun leaves no more to evict. */
  lemma FewerLeft(src: Slots, dst: Slots, mid: Slots, done: set<Slot>, t: Slot)
    requires done <= src.Keys && Copied(src, dst, mid, done) && t in src
    ensures Superseded(src, mid, t) <= Superseded(src, dst, t)
    ensures t in done ==> Superseded(src, mid, t) == {}
  {
    forall k | k in Superseded(src, mid, t) ensures k in Superseded(src, dst, t) && t !in done {
      var u := Slot(k, t.image, true);
      assert Get(mid, u) == Reached(src, dst, done, u);
      assert Replaces(src, t, u);
      if u in src { SourceNotEvicted(src, u); assert Evicted(src, u); }
    }
  }

  /** Two bundles of one kind, the second also at the destination with an older payload, next to an
      envelope of the kind: interrupted after the first, the copy never replaces the second. */
  lemma RepeatKeepsOldPayload(image: string, kind: PredicateKind)
    returns (src: Slots, dst: Slots, mid: Slots, done: set<Slot>, result: Slots, t: Slot)
    ensures WellFormed(src) && WellFormed(dst) && done <= src.Keys
    ensures Copied(src, dst, mid, done) && Mirrored(src, mid, result)
    ensures t in src && t in result && Wanted(src, dst, t) == Some(src[t]) && result[t] != src[t]
  {
    var first := Slot(Key(BUNDLE, SignedType(kind)), image, true);
    t := Slot(Key(BUNDLE, UnsignedType(kind)), image, true);
    var envelope := Slot(Key(DSSE, UnsignedType(kind)), image, true);
    var fresher, older := Content("new", "sum", ""), Content("old", "sum", "");
    assert fresher.payload[0] != older.payload[0];
    assert BUNDLE[17] != DSSE[17] && |SignedType(kind)| < |UnsignedType(kind)|;
    src, dst := map[first := fresher, t := fresher], map[t := older, envelope := older];
    done := {first};
    mid := Next(src, dst, dst, first);
    assert {} + {first} == done;
    CopyStep(src, dst, dst, {}, first);
    result := Next(src, mid, Next(src, mid, mid, first), t);
    CopyStep(src, mid, mid, {}, first);
    CopyStep(src, mid, Next(src, mid, mid, first), {} + {first}, t);
    CopyEnds(src, mid, result, {} + {first} + {t});
    KindOfExact(SignedType(kind), kind);
    KindOfExact(UnsignedType(kind), kind);
    forall s | s in src ensures s.key.artifactType == BUNDLE {}
    assert envelope.key !in KeysOf(src, image);
    assert envelope.key in Superseded(src, dst, t);
    FewerLeft(src, dst, mid, done, t);
    assert EvictedBy(src, done, envelope) by { assert Replaces(src, first, envelope); }
    forall k ensures k !in Superseded(src, mid, t) {
      var u := Slot(k, image, true);
      assert Get(mid, u) == Reached(src, dst, done, u);
    }
    RepeatExact(src, dst, mid, done, result, t);
    assert KeptByRepeat(src, dst, mid, done, t);
    RepeatConverges(src, dst, mid, done, result, t);
  }

  /** Slots of the source stay; slots users signed, without annotation, of unknown kinds, or of
      kinds the source does not hold for the image stay as they are. */
  lemma OthersUntouched(src: Slots, dst: Slots, result: Slots, t: Slot)
    requires Mirrored(src, dst, result) && t in dst && t !in src
    requires || !t.owned || KindOf(t.key.predicateType).None?
             || forall s :: s in src && s.image == t.image ==> KindOf(s.key.predicateType) != KindOf(t.key.predicateType)
    ensures t in result && result[t] == dst[t]
  {
    assert Get(result, t) == Wanted(src, dst, t);
    if Evicted(src, t) {
      var s :| s in src && Replaces(src, s, t);
      var kind := KindOf(s.key.predicateType).value;
      KindOfExact(t.key.predicateType, kind);
    }
  }

  /** No slot of the signing state the source has left is left behind. */
  lemma OneStateMirrored(src: Slots, dst: Slots, result: Slots, kind: PredicateKind, state: string, image: string, t: Slot)
    requires Mirrored(src, dst, result) && Opposite(state).Some?
    requires exists s :: s in src && s.image == image && s.key.artifactType == state && s.key.predicateType in Types(kind)
    requires forall s :: s in src && s.image == image && s.key.predicateType in Types(kind) ==> s.key.artifactType == state
    requires t.owned && t.image == image && t.key.artifactType == Opposite(state).value && t.key.predicateType in Types(kind)
    ensures t !in result
  {
    var s :| s in src && s.image == image && s.key.artifactType == state && s.key.predicateType in Types(kind);
    KindOfExact(s.key.predicateType, kind);
    assert t.key.artifactType != state by { assert BUNDLE[17] != DSSE[17]; }
    forall u | u in src && u.image == image ensures u.key != t.key {
    }
    assert t.key !in KeysOf(src, image);
    assert t.key in KindSlotKeys(Opposite(state).value, kind);
    assert Replaces(src, s, t);
    assert Evicted(src, t);
    assert Get(result, t) == Wanted(src, dst, t);
  }

  // ---- Publishing.

  function PublishedKey(kind: PredicateKind, signed: bool): Key {
    if signed then Key(BUNDLE, SignedType(kind)) else Key(DSSE, UnsignedType(kind))
  }

  function Published(slots: Slots, kind: PredicateKind, signed: bool, image: string, content: Content): Slots {
    Attached(slots, Slot(PublishedKey(kind, signed), image, content.checksum != ""), content,
             KindSlotKeys(if signed then DSSE else BUNDLE, kind))
  }

  /** The slot belongs to the kind and image and holds an artifact of werf. */
  predicate OfKind(t: Slot, kind: PredicateKind, image: string) {
    t.owned && t.image == image && t.key.predicateType in Types(kind)
    && (t.key.artifactType == BUNDLE || t.key.artifactType == DSSE)
  }

  /** The slot of the same signing state under the URI of the other one. */
  function OtherUri(kind: PredicateKind, signed: bool, image: string): Slot {
    Slot(if signed then Key(BUNDLE, UnsignedType(kind)) else Key(DSSE, SignedType(kind)), image, true)
  }

  ghost predicate OnlyPublished(slots: Slots, kind: PredicateKind, signed: bool, image: string) {
    forall t :: OfKind(t, kind, image) ==> (t in slots <==> t == Slot(PublishedKey(kind, signed), image, true))
  }

  /** Exactly one artifact of the kind is left, if and only if there was none of the same signing
      state under the kind's other URI. */
  lemma PublishLeavesOne(slots: Slots, kind: PredicateKind, signed: bool, image: string, content: Content)
    requires content.checksum != ""
    ensures OnlyPublished(Published(slots, kind, signed, image, content), kind, signed, image) <==>
            OtherUri(kind, signed, image) !in slots
  {
    var after, other := Published(slots, kind, signed, image, content), OtherUri(kind, signed, image);
    KindApart(kind);
    assert OfKind(other, kind, image) && (other in after <==> other in slots);
    forall t | OfKind(t, kind, image) && t != other
      ensures t in after <==> t == Slot(PublishedKey(kind, signed), image, true)
    {
    }
  }

  lemma KindApart(kind: PredicateKind)
    ensures BUNDLE != DSSE && SignedType(kind) != UnsignedType(kind)
  {
    assert BUNDLE[17] != DSSE[17] && |SignedType(kind)| < |UnsignedType(kind)|;
  }

  /** An artifact under the other URI stays beside the one that is published. */
  lemma PublishLeavesTwo(kind: PredicateKind, signed: bool, image: string, content: Content)
    requires content.checksum != ""
    ensures var slots: Slots := map[OtherUri(kind, signed, image) := content];
            && WellFormed(slots)
            && !OnlyPublished(Published(slots, kind, signed, image, content), kind, signed, image)
  {
    PublishLeavesOne(map[OtherUri(kind, signed, image) := content], kind, signed, image, content);
  }

  /** Slots of other kinds and images, and those users signed, stay as they are, with a checksum or
      without; only the slot published into changes. */
  lemma PublishKeepsOthers(slots: Slots, kind: PredicateKind, signed: bool, image: string, content: Content, t: Slot)
    requires !OfKind(t, kind, image) && t != Slot(PublishedKey(kind, signed), image, content.checksum != "")
    ensures Get(Published(slots, kind, signed, image, content), t) == Get(slots, t)
  {
  }
}
