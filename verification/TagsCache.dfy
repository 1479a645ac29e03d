/** The cache of repo tags: listings are merged with the tags published while they were in flight. */
module TagsCache {
  import opened Basics

  type Tag = string
  type Time = int

  datatype Entry = Entry(tags: seq<Tag>, updatedAt: Time, pushed: map<Tag, Time>)

  datatype Reference = Reference(registry: string, repository: string, tag: string, digest: string)

  ghost predicate NoDuplicates(s: seq<Tag>) {
    forall i, j :: 0 <= i < j < |s| ==> s[i] != s[j]
  }

  /** The published tags a listing started at `startedAt` could have missed. */
  ghost predicate Survives(prior: Option<Entry>, listing: seq<Tag>, startedAt: Time, t: Tag) {
    prior.Some? && t in prior.value.pushed && prior.value.pushed[t] > startedAt && t !in listing
  }

  /** What storing a listing makes of the entry: the listing, then each surviving tag once, in no
      particular order, and the records of exactly those. */
  ghost predicate Stored(prior: Option<Entry>, listing: seq<Tag>, startedAt: Time, now: Time, e: Entry) {
    && e.updatedAt == now && listing <= e.tags
    && (forall t :: t in e.pushed <==> Survives(prior, listing, startedAt, t))
    && (forall t :: t in e.pushed ==> e.pushed[t] == prior.value.pushed[t])
    && (forall t :: t in e.tags <==> t in listing || t in e.pushed)
    && (NoDuplicates(listing) ==> NoDuplicates(e.tags))
  }

  function Added(e: Entry, t: Tag, now: Time): Entry {
    Entry(if t in e.tags then e.tags else e.tags + [t], e.updatedAt, e.pushed[t := now])
  }

  /** What a request is answered with from the cache at time `now`, if anything. */
  function Answer(entry: Option<Entry>, cachedTags: bool, tagsMaxAge: int, now: Time): Option<seq<Tag>> {
    if entry.Some? && (cachedTags || (tagsMaxAge > 0 && now - entry.value.updatedAt <= tagsMaxAge))
    then Some(entry.value.tags) else None
  }

  class Cache {
    var entries: map<string, Entry>

    constructor ()
      ensures entries == map[]
    {
      entries := map[];
    }

    ghost function EntryOf(id: string): Option<Entry>
      reads this
    {
      if id in entries then Some(entries[id]) else None
    }

    /** Only a tagged reference of a repo that has a listing changes anything, and never how fresh
        the listing is. */
    method AddCachedTag(r: Reference, now: Time)
      modifies this
      ensures var id := r.registry + "/" + r.repository;
              if r.tag == "" || r.digest != "" || id !in old(entries) then entries == old(entries)
              else entries == old(entries)[id := Added(old(entries)[id], r.tag, now)]
    {
      var id := r.registry + "/" + r.repository;
      if r.tag == "" || r.digest != "" || id !in entries { return; }
      entries := entries[id := Added(entries[id], r.tag, now)];
    }

    method StoreTags(id: string, listing: seq<Tag>, startedAt: Time, now: Time) returns (tags: seq<Tag>)
      modifies this
      ensures id in entries && entries == old(entries)[id := entries[id]] && tags == entries[id].tags
      ensures Stored(old(EntryOf(id)), listing, startedAt, now, entries[id])
    {
      tags := listing;
      var pushed: map<Tag, Time> := map[];
      ghost var before := EntryOf(id);
      if id in entries {
        var known := entries[id].pushed;
        var pending := known.Keys;
        while pending != {}
          invariant pending <= known.Keys && listing <= tags
          invariant forall t :: t in pushed <==> t in known.Keys - pending && Survives(before, listing, startedAt, t)
          invariant forall t :: t in pushed ==> pushed[t] == known[t]
          invariant forall t :: t in tags <==> t in listing || t in pushed
          invariant NoDuplicates(listing) ==> NoDuplicates(tags)
          decreases pending
        {
          var t :| t in pending;
          pending := pending - {t};
          if known[t] > startedAt && t !in listing {
            tags := tags + [t];
            pushed := pushed[t := known[t]];
          }
        }
      }
      entries := entries[id := Entry(tags, now, pushed)];
    }

    /** A cached answer is served on request, or while it is young enough. */
    method TryLoadTags(id: string, cachedTags: bool, tagsMaxAge: int, now: Time) returns (r: Option<seq<Tag>>)
      ensures r == Answer(EntryOf(id), cachedTags, tagsMaxAge, now)
    {
      if id !in entries { return None; }
      if cachedTags || (tagsMaxAge > 0 && now - entries[id].updatedAt <= tagsMaxAge) {
        return Some(entries[id].tags);
      }
      return None;
    }
  }

  // ---- One repo over time. Listings have a start and, once the registry has answered, a result.

  datatype Publication = Publication(tag: Tag, time: Time, cached: bool)

  /** A listing that was stored at the time `at`, and how many publications preceded that. */
  datatype Base = Base(start: Time, snapshot: seq<Tag>, publications: nat, at: Time)

  /** `log` is every publication so far, `stores` every listing stored so far. */
  datatype State = State(clock: Time, entry: Option<Entry>, inFlight: map<nat, Time>,
                         log: seq<Publication>, stores: seq<Base>)

  /** The listing the entry came from. */
  function BaseOf(s: State): Option<Base> {
    if s.stores == [] then None else Some(s.stores[|s.stores| - 1])
  }

  ghost predicate Init(s: State) {
    s.entry.None? && s.inFlight == map[] && s.log == [] && s.stores == []
  }

  ghost predicate Tick(s: State, s': State) {
    s'.clock >= s.clock && s' == s.(clock := s'.clock)
  }

  /** `AddCachedTag`: without an entry the tag is forgotten. */
  ghost predicate Publish(s: State, s': State, t: Tag) {
    s' == s.(entry := if s.entry.Some? then Some(Added(s.entry.value, t, s.clock)) else None,
             log := s.log + [Publication(t, s.clock, s.entry.Some?)])
  }

  ghost predicate StartListing(s: State, s': State, l: nat) {
    l !in s.inFlight && s' == s.(inFlight := s.inFlight[l := s.clock])
  }

  ghost predicate FailListing(s: State, s': State, l: nat) {
    l in s.inFlight && s' == s.(inFlight := s.inFlight - {l})
  }

  ghost predicate StoreListing(s: State, s': State, l: nat, snapshot: seq<Tag>) {
    && l in s.inFlight && s'.entry.Some?
    && Stored(s.entry, snapshot, s.inFlight[l], s.clock, s'.entry.value)
    && s' == s.(entry := s'.entry, inFlight := s.inFlight - {l},
                stores := s.stores + [Base(s.inFlight[l], snapshot, |s.log|, s.clock)])
  }

  ghost predicate Next(s: State, s': State) {
    || Tick(s, s')
    || (exists t :: Publish(s, s', t))
    || (exists l :: StartListing(s, s', l) || FailListing(s, s', l))
    || (exists l, snapshot :: StoreListing(s, s', l, snapshot))
  }

  ghost predicate Behaviour(trace: seq<State>) {
    trace != [] && Init(trace[0]) && forall i :: 0 <= i < |trace| - 1 ==> Next(trace[i], trace[i + 1])
  }

  /** No two listings are in flight at once. */
  ghost predicate Sequential(trace: seq<State>) {
    forall i :: 0 <= i < |trace| ==> |trace[i].inFlight| <= 1
  }

  // ---- Any interleaving.

  /** A record always belongs to a cached tag, and no record or start is in the future. */
  ghost predicate Sound(s: State) {
    && (s.entry.Some? ==> forall t :: t in s.entry.value.pushed ==>
          t in s.entry.value.tags && s.entry.value.pushed[t] <= s.clock)
    && (forall l :: l in s.inFlight ==> s.inFlight[l] <= s.clock)
    && (forall i :: 0 <= i < |s.log| ==> s.log[i].time <= s.clock)
    && (s.entry.Some? <==> BaseOf(s).Some?)
    && (BaseOf(s).Some? ==> BaseOf(s).value.publications <= |s.log| && BaseOf(s).value.start <= s.clock)
  }

  lemma NextSound(s: State, s': State)
    requires Sound(s) && Next(s, s')
    ensures Sound(s')
  {
    if t :| Publish(s, s', t) {
    } else if l, snapshot :| StoreListing(s, s', l, snapshot) {
    }
  }

  ghost predicate RecordedAfter(s: State, start: Time, t: Tag) {
    s.entry.Some? && t in s.entry.value.pushed && s.entry.value.pushed[t] > start
  }

  // ---- What is cached, told from the history of the run.

  /** The last publication of `t` that found an entry. */
  ghost predicate LastPublished(log: seq<Publication>, t: Tag, i: int) {
    && 0 <= i < |log| && log[i].tag == t && log[i].cached
    && forall j :: i < j < |log| ==> !(log[j].tag == t && log[j].cached)
  }

  /** Every listing stored after publication `i` started before it and did not list its tag. */
  ghost predicate Outlives(log: seq<Publication>, stores: seq<Base>, i: int)
    requires 0 <= i < |log|
  {
    forall j :: 0 <= j < |stores| && stores[j].publications > i ==>
      log[i].time > stores[j].start && log[i].tag !in stores[j].snapshot
  }

  ghost predicate StillPending(log: seq<Publication>, stores: seq<Base>, t: Tag) {
    exists i :: LastPublished(log, t, i) && Outlives(log, stores, i)
  }

  /** The records are exactly the publications still pending, at their times. */
  ghost predicate RecordsTold(e: Entry, log: seq<Publication>, stores: seq<Base>) {
    && (forall t :: t in e.pushed <==> StillPending(log, stores, t))
    && (forall t, i :: t in e.pushed && LastPublished(log, t, i) ==> e.pushed[t] == log[i].time)
  }

  /** The cached tags are the last stored answer and the publications still pending; the entry is as
      old as that answer; a publication finds an entry exactly if a listing was stored before it. */
  ghost predicate Told(s: State) {
    && (s.entry.Some? <==> s.stores != [])
    && (forall j :: 0 <= j < |s.stores| ==> s.stores[j].publications <= BaseOf(s).value.publications <= |s.log|)
    && (forall i :: 0 <= i < |s.log| ==> (s.log[i].cached <==> s.stores != [] && s.stores[0].publications <= i))
    && (s.entry.Some? ==>
          && RecordsTold(s.entry.value, s.log, s.stores)
          && s.entry.value.updatedAt == BaseOf(s).value.at
          && (forall t :: t in s.entry.value.tags <==> t in BaseOf(s).value.snapshot || t in s.entry.value.pushed)
          && (NoDuplicates(BaseOf(s).value.snapshot) ==> NoDuplicates(s.entry.value.tags)))
  }

  lemma PublishTold(s: State, s': State, t: Tag)
    requires Told(s) && Publish(s, s', t)
    ensures Told(s')
  {
    if s.entry.Some? {
      forall x ensures x in s'.entry.value.pushed <==> StillPending(s'.log, s'.stores, x) {
        LogExtends(s, s', t, x);
      }
      forall x, i | x in s'.entry.value.pushed && LastPublished(s'.log, x, i) ensures s'.entry.value.pushed[x] == s'.log[i].time {
        LogExtends(s, s', t, x);
      }
    }
  }

  /** A publication is the last of its own tag, pending until the next listing is stored, and changes
      nothing for the others. */
  lemma LogExtends(s: State, s': State, t: Tag, x: Tag)
    requires Told(s) && Publish(s, s', t) && s.entry.Some?
    ensures forall i :: LastPublished(s'.log, x, i) <==> if x == t then i == |s.log| else LastPublished(s.log, x, i)
    ensures StillPending(s'.log, s'.stores, x) <==> x == t || StillPending(s.log, s.stores, x)
  {
    var n := |s.log|;
    assert s'.log[n] == Publication(t, s.clock, true);
    forall i ensures LastPublished(s'.log, x, i) <==> if x == t then i == n else LastPublished(s.log, x, i) {
      LastOfLonger(s.log, s'.log[n], x, i);
    }
    if x == t {
      assert LastPublished(s'.log, x, n) && Outlives(s'.log, s'.stores, n);
    } else {
      forall i | LastPublished(s.log, x, i) ensures Outlives(s'.log, s'.stores, i) <==> Outlives(s.log, s.stores, i) {
        assert s'.log[i] == s.log[i];
      }
    }
  }

  lemma LastOfLonger(log: seq<Publication>, p: Publication, x: Tag, i: int)
    ensures LastPublished(log + [p], x, i) <==> if p.tag == x && p.cached then i == |log| else LastPublished(log, x, i)
  {
    var longer := log + [p];
    assert longer[|log|] == p;
    if LastPublished(longer, x, i) && i < |log| {
      assert !(longer[|log|].tag == x && longer[|log|].cached);
      forall j | i < j < |log| ensures !(log[j].tag == x && log[j].cached) { assert longer[j] == log[j]; }
    }
  }

  lemma StoreTold(s: State, s': State, l: nat, snapshot: seq<Tag>)
    requires Told(s) && StoreListing(s, s', l, snapshot)
    ensures Told(s')
  {
    var start, e := s.inFlight[l], s'.entry.value;
    assert s'.stores[|s.stores|] == Base(start, snapshot, |s.log|, s.clock);
    forall t ensures t in e.pushed <==> StillPending(s'.log, s'.stores, t) {
      StoreClears(s, s', l, snapshot, t);
    }
    forall t, i | t in e.pushed && LastPublished(s'.log, t, i) ensures e.pushed[t] == s'.log[i].time {
      assert t in s.entry.value.pushed;
    }
  }

  /** Of the publications pending, storing a listing leaves those it could have missed. */
  lemma StoreClears(s: State, s': State, l: nat, snapshot: seq<Tag>, t: Tag)
    requires Told(s) && StoreListing(s, s', l, snapshot)
    ensures StillPending(s'.log, s'.stores, t) <==> Survives(s.entry, snapshot, s.inFlight[l], t)
  {
    var base := Base(s.inFlight[l], snapshot, |s.log|, s.clock);
    assert s'.stores == s.stores + [base];
    forall i | LastPublished(s.log, t, i)
      ensures Outlives(s.log, s'.stores, i) <==>
              Outlives(s.log, s.stores, i) && s.log[i].time > base.start && t !in snapshot
    {
      assert s'.stores[|s.stores|] == base;
      assert forall j :: 0 <= j < |s.stores| ==> s'.stores[j] == s.stores[j];
    }
    if StillPending(s'.log, s'.stores, t) {
      var i :| LastPublished(s.log, t, i) && Outlives(s.log, s'.stores, i);
      assert s.log[i].cached;
    }
    if Survives(s.entry, snapshot, s.inFlight[l], t) {
      assert StillPending(s.log, s.stores, t);
    }
  }

  lemma NextTold(s: State, s': State)
    requires Told(s) && Next(s, s')
    ensures Told(s')
  {
    if t :| Publish(s, s', t) {
      PublishTold(s, s', t);
    } else if l, snapshot :| StoreListing(s, s', l, snapshot) {
      StoreTold(s, s', l, snapshot);
    }
  }

  /** In every interleaving, listings overlapping as they may: a tag is cached if and only if the
      last stored answer lists it, or its last publication came after a listing was first stored and
      every listing stored since then started before it and did not list the tag. */
  lemma {:induction false} HistoryExact(trace: seq<State>, i: nat)
    requires Behaviour(trace) && i < |trace|
    ensures Told(trace[i])
    ensures trace[i].entry.Some? ==> forall t ::
              t in trace[i].entry.value.tags <==>
              t in BaseOf(trace[i]).value.snapshot || StillPending(trace[i].log, trace[i].stores, t)
    decreases i
  {
    if i > 0 {
      HistoryExact(trace, i - 1);
      assert Next(trace[i - 1], trace[i - 1 + 1]);
      NextTold(trace[i - 1], trace[i]);
    }
  }

  /** An answer from the cache is the last stored listing with what is still pending; unless the
      caller takes any age, that listing was stored at most `tagsMaxAge` ago. Once a listing is
      stored, a caller that takes any age is always answered, and sees a tag from the moment of its
      publication. */
  lemma AnswerExact(trace: seq<State>, i: nat, cachedTags: bool, tagsMaxAge: int)
    requires Behaviour(trace) && i < |trace|
    ensures var s := trace[i];
            var answer := Answer(s.entry, cachedTags, tagsMaxAge, s.clock);
            && (answer.Some? <==> s.stores != [] && (cachedTags || (tagsMaxAge > 0 && s.clock - BaseOf(s).value.at <= tagsMaxAge)))
            && (answer.Some? ==> forall t :: t in answer.value <==>
                  t in BaseOf(s).value.snapshot || StillPending(s.log, s.stores, t))
            && (answer.Some? && NoDuplicates(BaseOf(s).value.snapshot) ==> NoDuplicates(answer.value))
            && (answer.Some? && s.log != [] && BaseOf(s).value.publications < |s.log| ==> s.log[|s.log| - 1].tag in answer.value)
  {
    HistoryExact(trace, i);
    var s := trace[i];
    if s.entry.Some? && BaseOf(s).value.publications < |s.log| {
      LastIsPending(s);
    }
  }

  /** The newest publication, if no listing was stored after it, is pending. */
  lemma LastIsPending(s: State)
    requires Told(s) && s.entry.Some? && BaseOf(s).value.publications < |s.log|
    ensures StillPending(s.log, s.stores, s.log[|s.log| - 1].tag)
  {
    var n := |s.log| - 1;
    assert LastPublished(s.log, s.log[n].tag, n);
    assert Outlives(s.log, s.stores, n);
  }

  // ---- Sequential listings: the entry is exactly the listing and what was published since it started.

  ghost predicate PublishedSince(log: seq<Publication>, start: Time, from: nat, t: Tag) {
    exists i :: 0 <= i < |log| && log[i].tag == t && log[i].cached && (log[i].time > start || i >= from)
  }

  ghost predicate Exact(s: State) {
    s.entry.Some? && BaseOf(s).Some? ==>
      forall t :: t in s.entry.value.tags <==>
        t in BaseOf(s).value.snapshot || PublishedSince(s.log, BaseOf(s).value.start, BaseOf(s).value.publications, t)
  }

  /** The records tell which tags were published after the listing in flight started. */
  ghost predicate RecordsExact(s: State) {
    forall l, t :: l in s.inFlight ==>
      (RecordedAfter(s, s.inFlight[l], t) <==> PublishedSince(s.log, s.inFlight[l], |s.log|, t))
  }

  ghost predicate Inv(s: State) {
    Sound(s) && Exact(s) && RecordsExact(s)
  }

  lemma PublishExact(s: State, s': State, t: Tag)
    requires Inv(s) && Publish(s, s', t)
    ensures Inv(s')
  {
    NextSound(s, s');
    var p := Publication(t, s.clock, s.entry.Some?);
    if BaseOf(s).Some? {
      var b := BaseOf(s).value;
      forall x ensures x in s'.entry.value.tags <==> x in b.snapshot || PublishedSince(s'.log, b.start, b.publications, x) {
        LogGrows(s.log, p, b.start, b.publications, x);
      }
    }
    forall l, x | l in s'.inFlight
      ensures RecordedAfter(s', s'.inFlight[l], x) <==> PublishedSince(s'.log, s'.inFlight[l], |s'.log|, x)
    {
      var start := s.inFlight[l];
      LogGrows(s.log, p, start, |s'.log|, x);
      NoneFrom(s.log, start, |s.log|, |s'.log|, x);
      assert RecordedAfter(s, start, x) <==> PublishedSince(s.log, start, |s.log|, x);
    }
  }

  lemma LogGrows(log: seq<Publication>, p: Publication, start: Time, from: nat, x: Tag)
    ensures PublishedSince(log + [p], start, from, x) <==>
            PublishedSince(log, start, from, x) || (x == p.tag && p.cached && (p.time > start || |log| >= from))
  {
    var longer := log + [p];
    assert longer[|log|] == p;
    if PublishedSince(log, start, from, x) {
      var i :| 0 <= i < |log| && log[i].tag == x && log[i].cached && (log[i].time > start || i >= from);
      assert longer[i] == log[i];
    }
  }

  /** Publications not made yet count for nothing, however they are numbered. */
  lemma NoneFrom(log: seq<Publication>, start: Time, from: nat, later: nat, x: Tag)
    requires |log| <= from && |log| <= later
    ensures PublishedSince(log, start, from, x) <==> PublishedSince(log, start, later, x)
  {
  }

  lemma StoreExact(s: State, s': State, l: nat, snapshot: seq<Tag>)
    requires Inv(s) && StoreListing(s, s', l, snapshot) && |s.inFlight| <= 1
    ensures Inv(s')
  {
    NextSound(s, s');
    forall m | m in s.inFlight ensures m == l { OnlyOne(s.inFlight, l, m); }
    var start := s.inFlight[l];
    forall t ensures t in s'.entry.value.tags <==> t in snapshot || PublishedSince(s'.log, start, |s'.log|, t) {
      assert RecordedAfter(s, start, t) <==> PublishedSince(s.log, start, |s.log|, t);
    }
  }

  lemma OnlyOne(m: map<nat, Time>, k: nat, l: nat)
    requires |m| <= 1 && k in m && l in m
    ensures k == l
  {
    assert {k} <= m.Keys && |m.Keys| == |m|;
    if k != l {
      assert {k, l} <= m.Keys;
      SubsetSize({k, l}, m.Keys);
    }
  }

  /** A listing starts with no publication after it. */
  lemma StartExact(s: State, s': State, l: nat)
    requires Inv(s) && StartListing(s, s', l)
    ensures Inv(s')
  {
    NextSound(s, s');
    forall m, t | m in s'.inFlight
      ensures RecordedAfter(s', s'.inFlight[m], t) <==> PublishedSince(s'.log, s'.inFlight[m], |s'.log|, t)
    {
      if m != l { assert RecordedAfter(s, s.inFlight[m], t) <==> PublishedSince(s.log, s.inFlight[m], |s.log|, t); }
    }
  }

  lemma OtherExact(s: State, s': State)
    requires Inv(s) && (Tick(s, s') || exists l :: FailListing(s, s', l))
    ensures Inv(s')
  {
    NextSound(s, s');
    forall m, t | m in s'.inFlight
      ensures RecordedAfter(s', s'.inFlight[m], t) <==> PublishedSince(s'.log, s'.inFlight[m], |s'.log|, t)
    {
      assert RecordedAfter(s, s.inFlight[m], t) <==> PublishedSince(s.log, s.inFlight[m], |s.log|, t);
    }
  }

  lemma NextExact(s: State, s': State)
    requires Inv(s) && Next(s, s') && |s.inFlight| <= 1
    ensures Inv(s')
  {
    if t :| Publish(s, s', t) {
      PublishExact(s, s', t);
    } else if l, snapshot :| StoreListing(s, s', l, snapshot) {
      StoreExact(s, s', l, snapshot);
    } else if l :| StartListing(s, s', l) {
      StartExact(s, s', l);
    } else {
      OtherExact(s, s');
    }
  }

  /** In every run whose listings do not overlap the cached tags are, after every step, the last
      stored listing's answer together with the tags published since that listing started, as far
      as an entry was there to take them. */
  lemma {:induction false} CacheExact(trace: seq<State>, i: nat)
    requires Behaviour(trace) && Sequential(trace) && i < |trace|
    ensures Inv(trace[i])
  {
    if i > 0 {
      CacheExact(trace, i - 1);
      assert Next(trace[i - 1], trace[i - 1 + 1]);
      NextExact(trace[i - 1], trace[i]);
    }
  }

  lemma {:induction false} CacheSound(trace: seq<State>, i: nat)
    requires Behaviour(trace) && i < |trace|
    ensures Sound(trace[i])
  {
    if i > 0 {
      CacheSound(trace, i - 1);
      assert Next(trace[i - 1], trace[i - 1 + 1]);
      NextSound(trace[i - 1], trace[i]);
    }
  }

  /** A listing in flight can always fail, and then nothing else changes. */
  lemma ListingCanFail(s: State, l: nat)
    requires l in s.inFlight
    ensures Next(s, s.(inFlight := s.inFlight - {l}))
  {
    assert FailListing(s, s.(inFlight := s.inFlight - {l}), l);
  }

  // ---- Where a published tag does get lost.

  /** A tag published while the repo's first listing is in flight finds no entry to be recorded in,
      and is missing from the cache once that listing is stored. */
  lemma FirstListingLosesPublication(t: Tag) returns (trace: seq<State>)
    ensures Behaviour(trace) && Sequential(trace) && |trace| == 5
    ensures trace[4].entry.Some? && trace[4].entry.value.tags == []
    ensures exists i :: 0 <= i < |trace[4].log| && trace[4].log[i].tag == t
              && BaseOf(trace[4]).Some? && trace[4].log[i].time > BaseOf(trace[4]).value.start
  {
    var s0 := State(0, None, map[], [], []);
    var s1 := s0.(inFlight := map[0 := 0]);
    var s2 := s1.(clock := 1);
    var s3 := s2.(log := [Publication(t, 1, false)]);
    var s4 := s3.(entry := Some(Entry([], 1, map[])), inFlight := map[], stores := [Base(0, [], 1, 1)]);
    trace := [s0, s1, s2, s3, s4];
    assert s0.inFlight[0 := 0] == map[0 := 0];
    assert StartListing(s0, s1, 0);
    assert Tick(s1, s2);
    assert [] + [Publication(t, 1, false)] == [Publication(t, 1, false)];
    assert Publish(s2, s3, t);
    assert s3.inFlight - {0} == map[];
    assert Stored(s3.entry, [], 0, 1, s4.entry.value);
    assert StoreListing(s3, s4, 0, []);
    assert |s1.inFlight| == 1;
    assert s4.log[0].tag == t;
  }

  /** With two listings in flight, the first confirms the tag and so clears its record; the second,
      whose answer is older, then drops it. */
  lemma OverlapLosesPublication(t: Tag) returns (trace: seq<State>)
    ensures Behaviour(trace) && |trace| == 9
    ensures StoreListing(trace[6], trace[7], 0, [t]) && StoreListing(trace[7], trace[8], 1, [])
    ensures RecordedAfter(trace[6], trace[6].inFlight[0], t) && RecordedAfter(trace[6], trace[7].inFlight[1], t)
    ensures t in trace[7].entry.value.tags && t !in trace[8].entry.value.tags
  {
    var s0 := State(0, None, map[], [], []);
    var s1 := s0.(inFlight := s0.inFlight[0 := 0]);
    var s2 := s1.(entry := Some(Entry([], 0, map[])), inFlight := s1.inFlight - {0}, stores := [Base(0, [], 0, 0)]);
    var s3 := s2.(inFlight := s2.inFlight[0 := 0]);
    var s4 := s3.(inFlight := s3.inFlight[1 := 0]);
    var s5 := s4.(clock := 1);
    var s6 := s5.(entry := Some(Added(s5.entry.value, t, 1)), log := s5.log + [Publication(t, 1, true)]);
    var s7 := s6.(entry := Some(Entry([t], 1, map[])), inFlight := s6.inFlight - {0}, stores := s6.stores + [Base(0, [t], 1, 1)]);
    var s8 := s7.(entry := Some(Entry([], 1, map[])), inFlight := s7.inFlight - {1}, stores := s7.stores + [Base(0, [], 1, 1)]);
    trace := [s0, s1, s2, s3, s4, s5, s6, s7, s8];
    assert StartListing(s0, s1, 0);
    assert StoreListing(s1, s2, 0, []);
    assert StartListing(s2, s3, 0);
    assert StartListing(s3, s4, 1);
    assert Tick(s4, s5);
    assert Publish(s5, s6, t);
    assert StoreListing(s6, s7, 0, [t]);
    assert StoreListing(s7, s8, 1, []);
  }
}
