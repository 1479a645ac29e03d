/** The bearer token cache: a bounded map of tokens and one exchange at a time per key. */
module BearerCache {
  import opened Basics
  import opened BearerResponse

  const CAPACITY := 128

  type Key = string

  datatype Entry = Entry(token: string, expiry: Time, target: string, policy: bool, exchange: Exchange)

  type Entries = map<Key, Entry>

  predicate Fresh(e: Entry, now: Time) { now + EXPIRY_MARGIN < e.expiry }

  function OnlyFresh(entries: Entries, now: Time): Entries {
    map k | k in entries && Fresh(entries[k], now) :: entries[k]
  }

  ghost predicate SoonestExpiring(entries: Entries, k: Key) {
    k in entries && forall j :: j in entries ==> entries[k].expiry <= entries[j].expiry
  }

  /** Storing drops what has expired and, only when that leaves the cache full, one entry that
      expires soonest. */
  ghost predicate Stored(entries: Entries, key: Key, e: Entry, now: Time, after: Entries) {
    var alive := OnlyFresh(entries, now);
    if |alive| < CAPACITY then after == alive[key := e]
    else exists victim :: SoonestExpiring(alive, victim) && after == (alive - {victim})[key := e]
  }

  function Invalidated(entries: Entries, target: string, policy: bool, token: string): Entries {
    map k | k in entries && !(entries[k].target == target && entries[k].policy == policy && entries[k].token == token) :: entries[k]
  }

  class Cache {
    var entries: Entries

    constructor ()
      ensures entries == map[]
    {
      entries := map[];
    }

    method Store(key: Key, entry: Entry, now: Time)
      requires 0 <= now
      modifies this
      ensures Stored(old(entries), key, entry, now, entries)
    {
      ghost var before := entries;
      var pending := entries.Keys;
      while pending != {}
        invariant pending <= before.Keys && pending <= entries.Keys <= before.Keys
        invariant forall k :: k in entries ==> entries[k] == before[k]
        invariant forall k :: k in before.Keys - pending ==> (k in entries <==> Fresh(before[k], now))
        decreases pending
      {
        var k :| k in pending;
        pending := pending - {k};
        if !Fresh(entries[k], now) { entries := entries - {k}; }
      }
      assert entries == OnlyFresh(before, now);
      if |entries| >= CAPACITY {
        var oldest := Oldest(now);
        entries := entries - {oldest};
      }
      entries := entries[key := entry];
    }

    /** The scan for the entry to evict; it starts from the zero time, which no live entry has. */
    method Oldest(now: Time) returns (oldestKey: Key)
      requires 0 <= now && |entries| > 0 && forall k :: k in entries ==> Fresh(entries[k], now)
      ensures SoonestExpiring(entries, oldestKey)
    {
      oldestKey := "";
      var oldest := 0;
      var pending := entries.Keys;
      while pending != {}
        invariant pending <= entries.Keys
        invariant oldest == 0 ==> pending == entries.Keys
        invariant oldest != 0 ==> oldestKey in entries && entries[oldestKey].expiry == oldest
        invariant oldest != 0 ==> forall k :: k in entries.Keys - pending ==> oldest <= entries[k].expiry
        decreases pending
      {
        var k :| k in pending;
        pending := pending - {k};
        if oldest == 0 || entries[k].expiry < oldest {
          oldestKey, oldest := k, entries[k].expiry;
        }
      }
      assert entries.Keys != {};
    }

    method Invalidate(target: string, policy: bool, token: string)
      modifies this
      ensures forall k :: k in entries <==>
                k in old(entries) && !(old(entries)[k].target == target && old(entries)[k].policy == policy && old(entries)[k].token == token)
      ensures forall k :: k in entries ==> entries[k] == old(entries)[k]
      ensures entries == Invalidated(old(entries), target, policy, token)
    {
      ghost var before := entries;
      var pending := entries.Keys;
      while pending != {}
        invariant pending <= before.Keys && pending <= entries.Keys <= before.Keys
        invariant forall k :: k in entries ==> entries[k] == before[k]
        invariant forall k :: k in before.Keys - pending ==> (k in entries <==> k in Invalidated(before, target, policy, token))
        decreases pending
      {
        var k :| k in pending;
        pending := pending - {k};
        var e := entries[k];
        if e.target == target && e.policy == policy && e.token == token { entries := entries - {k}; }
      }
    }
  }

  /** The cache never outgrows its capacity. */
  lemma StoredBounded(entries: Entries, key: Key, e: Entry, now: Time, after: Entries)
    requires |entries| <= CAPACITY && Stored(entries, key, e, now, after)
    ensures |after| <= CAPACITY && key in after && after[key] == e
    ensures forall k :: k in after && k != key ==> k in entries && after[k] == entries[k]
  {
    var alive := OnlyFresh(entries, now);
    SubmapSize(alive, entries);
    if |alive| >= CAPACITY {
      var victim :| SoonestExpiring(alive, victim) && after == (alive - {victim})[key := e];
      RemoveSize(alive, victim);
      AddSize(alive - {victim}, key, e);
    } else {
      AddSize(alive, key, e);
    }
  }

  /** What storing does to the others: an entry within 30 seconds of its expiry goes, and one that is
      not stays, unless at least 128 such entries were there, and then it is one that expires no later
      than any of them. */
  lemma StoredExact(entries: Entries, key: Key, e: Entry, now: Time, after: Entries, k: Key)
    requires Stored(entries, key, e, now, after) && k in entries && k != key
    ensures now + 30_000_000_000 >= entries[k].expiry ==> k !in after
    ensures now + 30_000_000_000 < entries[k].expiry ==>
              || (k in after && after[k] == entries[k])
              || (|OnlyFresh(entries, now)| >= 128 && after.Keys == OnlyFresh(entries, now).Keys - {k} + {key}
                  && forall j :: j in entries && now + 30_000_000_000 < entries[j].expiry ==> entries[k].expiry <= entries[j].expiry)
  {
    var alive := OnlyFresh(entries, now);
    if |alive| >= CAPACITY {
      var victim :| SoonestExpiring(alive, victim) && after == (alive - {victim})[key := e];
      if k == victim {
        forall j | j in entries && now + 30_000_000_000 < entries[j].expiry ensures entries[k].expiry <= entries[j].expiry {
          assert j in alive;
        }
      }
    }
  }

  lemma SubmapSize(x: Entries, y: Entries)
    requires x.Keys <= y.Keys
    ensures |x| <= |y|
  {
    SubsetSize(x.Keys, y.Keys);
    assert |x| == |x.Keys| && |y| == |y.Keys|;
  }

  lemma RemoveSize(m: Entries, k: Key)
    requires k in m
    ensures |m - {k}| == |m| - 1
  {
    assert (m - {k}).Keys == m.Keys - {k};
    assert |m - {k}| == |(m - {k}).Keys| && |m| == |m.Keys|;
  }

  lemma AddSize(m: Entries, k: Key, e: Entry)
    ensures |m[k := e]| <= |m| + 1
  {
    assert m[k := e].Keys == m.Keys + {k};
    assert |m[k := e]| == |m[k := e].Keys| && |m| == |m.Keys|;
  }

  // ---- The protocol. A request goes round its loop until it answers from the cache, is cancelled
  // while waiting, or exchanges a token itself.

  type Channel = nat

  datatype Request =
    | Checking(key: Key)
    | Waiting(key: Key, channel: Channel)
    | Leading(key: Key, channel: Channel)
    | Exchanging(key: Key, channel: Channel, started: Time)
    | Storing(key: Key, channel: Channel, entry: Entry)
    | Closing(key: Key, channel: Channel)
    | Answered(entry: Entry, at: Time)
    | Finished

  datatype State = State(now: Time, entries: Entries, inflight: map<Key, Channel>, closed: set<Channel>,
                         next: Channel, requests: map<nat, Request>)

  ghost predicate Init(s: State) {
    0 <= s.now && s.entries == map[] && s.inflight == map[] && s.closed == {} && s.next == 0 && s.requests == map[]
  }

  function With(s: State, p: nat, r: Request): State { s.(requests := s.requests[p := r]) }

  ghost predicate Arrive(s: State, s': State, p: nat, key: Key) {
    p !in s.requests && s' == With(s, p, Checking(key))
  }

  /** The critical section at the head of the loop. */
  ghost predicate Check(s: State, s': State, p: nat) {
    && p in s.requests && s.requests[p].Checking?
    && var key := s.requests[p].key;
    if key in s.entries && Fresh(s.entries[key], s.now) then
      s' == With(s, p, Answered(s.entries[key], s.now))
    else if key in s.inflight then
      s' == With(s, p, Waiting(key, s.inflight[key])).(entries := s.entries - {key})
    else
      s' == With(s, p, Leading(key, s.next)).(
              entries := s.entries - {key}, inflight := s.inflight[key := s.next], next := s.next + 1)
  }

  ghost predicate Wake(s: State, s': State, p: nat) {
    && p in s.requests && s.requests[p].Waiting? && s.requests[p].channel in s.closed
    && s' == With(s, p, Checking(s.requests[p].key))
  }

  ghost predicate Cancel(s: State, s': State, p: nat) {
    p in s.requests && s.requests[p].Waiting? && s' == With(s, p, Finished)
  }

  ghost predicate StartExchange(s: State, s': State, p: nat) {
    && p in s.requests && s.requests[p].Leading?
    && s' == With(s, p, Exchanging(s.requests[p].key, s.requests[p].channel, s.now))
  }

  /** The exchange ends with a token to cache, or without one: it failed, was cancelled, or granted
      nothing cacheable. */
  ghost predicate EndExchange(s: State, s': State, p: nat) {
    && p in s.requests && s.requests[p].Exchanging?
    && var r := s.requests[p];
    || s' == With(s, p, Closing(r.key, r.channel))
    || (exists e :: GrantedBy(e, r.started, s.now) && s' == With(s, p, Storing(r.key, r.channel, e)))
  }

  /** What an inspected response of this exchange can put into an entry. */
  ghost predicate GrantedBy(e: Entry, started: Time, now: Time) {
    e.exchange.started == started && e.expiry == LifetimeEnd(e.exchange) && Fresh(e, now)
  }

  /** Every grant of an inspected response is one the protocol stores. */
  lemma GrantFitsProtocol(status: int, read: Read, parse: seq<byte> -> Option<Payload>, started: Time, now: Time,
                          target: string, policy: bool)
    ensures var g := Inspect(status, read, parse, started, now);
            g.Grant? ==> GrantedBy(Entry(g.token, g.expiry, target, policy, g.exchange), started, now)
  {
  }

  ghost predicate StoreToken(s: State, s': State, p: nat) {
    && p in s.requests && s.requests[p].Storing?
    && var r := s.requests[p];
    && Stored(s.entries, r.key, r.entry, s.now, s'.entries)
    && s' == With(s, p, Closing(r.key, r.channel)).(entries := s'.entries)
  }

  ghost predicate Close(s: State, s': State, p: nat) {
    && p in s.requests && s.requests[p].Closing?
    && var r := s.requests[p];
    s' == With(s, p, Finished).(inflight := s.inflight - {r.key}, closed := s.closed + {r.channel})
  }

  ghost predicate Invalidates(s: State, s': State, target: string, policy: bool, token: string) {
    s' == s.(entries := Invalidated(s.entries, target, policy, token))
  }

  ghost predicate Invalidate(s: State, s': State) {
    exists target, policy, token :: Invalidates(s, s', target, policy, token)
  }

  ghost predicate Tick(s: State, s': State) { s'.now >= s.now && s' == s.(now := s'.now) }

  ghost predicate Moves(s: State, s': State, p: nat) {
    || Check(s, s', p) || Wake(s, s', p) || Cancel(s, s', p) || StartExchange(s, s', p)
    || EndExchange(s, s', p) || StoreToken(s, s', p) || Close(s, s', p)
  }

  ghost predicate Next(s: State, s': State) {
    || Tick(s, s') || Invalidate(s, s')
    || (exists p, key :: Arrive(s, s', p, key))
    || (exists p :: Moves(s, s', p))
  }

  ghost predicate Behaviour(trace: seq<State>) {
    trace != [] && Init(trace[0]) && forall i :: 0 <= i < |trace| - 1 ==> Next(trace[i], trace[i + 1])
  }

  // ---- Safety.

  type Requests = map<nat, Request>

  /** The request holds the inflight marker of its key. */
  predicate Leads(r: Request) { r.Leading? || r.Exchanging? || r.Storing? || r.Closing? }

  /** It leads and has not stored anything yet. */
  predicate BeforeStore(r: Request) { r.Leading? || r.Exchanging? || r.Storing? }

  ghost predicate LeaderOf(reqs: Requests, p: nat, k: Key) {
    p in reqs && Leads(reqs[p]) && reqs[p].key == k
  }

  /** A marker exists exactly while its leader runs, and leaders of one key are one. */
  ghost predicate SingleFlight(reqs: Requests, inflight: map<Key, Channel>) {
    && (forall k :: k in inflight ==> exists p :: LeaderOf(reqs, p, k))
    && (forall p, k :: LeaderOf(reqs, p, k) ==> k in inflight && inflight[k] == reqs[p].channel)
    && (forall p, q, k :: LeaderOf(reqs, p, k) && LeaderOf(reqs, q, k) ==> p == q)
  }

  /** A waiter's channel is its key's marker, which the leader will close, or closed already. */
  ghost predicate NoLostWakeup(reqs: Requests, inflight: map<Key, Channel>, closed: set<Channel>) {
    forall p :: p in reqs && reqs[p].Waiting? ==>
      reqs[p].channel in closed || (reqs[p].key in inflight && inflight[reqs[p].key] == reqs[p].channel)
  }

  ghost predicate ChannelsApart(inflight: map<Key, Channel>, closed: set<Channel>, next: Channel) {
    && (forall c :: c in closed ==> c < next)
    && (forall k :: k in inflight ==> inflight[k] < next && inflight[k] !in closed)
    && (forall k, j :: k in inflight && j in inflight && inflight[k] == inflight[j] ==> k == j)
  }

  ghost predicate Dated(e: Entry) { e.expiry == LifetimeEnd(e.exchange) }

  ghost predicate EntriesDated(entries: Entries) {
    forall k :: k in entries ==> Dated(entries[k])
  }

  ghost predicate RequestsSound(reqs: Requests, entries: Entries) {
    && (forall p :: p in reqs && BeforeStore(reqs[p]) ==> reqs[p].key !in entries)
    && (forall p :: p in reqs && reqs[p].Storing? ==> Dated(reqs[p].entry))
  }

  /** An answer from the cache was more than the margin away from the end of the token's lifetime. */
  ghost predicate AnswersFresh(reqs: Requests) {
    forall p :: p in reqs && reqs[p].Answered? ==> Dated(reqs[p].entry) && Fresh(reqs[p].entry, reqs[p].at)
  }

  ghost predicate Safe(s: State) {
    && SingleFlight(s.requests, s.inflight) && NoLostWakeup(s.requests, s.inflight, s.closed)
    && ChannelsApart(s.inflight, s.closed, s.next)
    && |s.entries| <= CAPACITY && EntriesDated(s.entries)
    && RequestsSound(s.requests, s.entries) && AnswersFresh(s.requests)
  }

  /** A request that leads goes on leading the same key, one that does not stays out of it. */
  lemma SingleStays(reqs: Requests, inflight: map<Key, Channel>, p: nat, r: Request)
    requires SingleFlight(reqs, inflight)
    requires Leads(r) <==> p in reqs && Leads(reqs[p])
    requires Leads(r) ==> r.key == reqs[p].key && r.channel == reqs[p].channel
    ensures SingleFlight(reqs[p := r], inflight)
  {
    var after := reqs[p := r];
    forall q, k ensures LeaderOf(after, q, k) <==> LeaderOf(reqs, q, k) {}
    forall k | k in inflight ensures exists q :: LeaderOf(after, q, k) {
      var q :| LeaderOf(reqs, q, k);
      assert LeaderOf(after, q, k);
    }
  }

  /** A new leader takes a key nobody leads. */
  lemma SingleTakes(reqs: Requests, inflight: map<Key, Channel>, p: nat, key: Key, c: Channel)
    requires SingleFlight(reqs, inflight) && p in reqs && !Leads(reqs[p]) && key !in inflight
    ensures SingleFlight(reqs[p := Leading(key, c)], inflight[key := c])
  {
    var after := reqs[p := Leading(key, c)];
    forall q, k ensures LeaderOf(after, q, k) <==> LeaderOf(reqs, q, k) || (q == p && k == key) {}
    assert LeaderOf(after, p, key);
    forall k | k in inflight ensures exists q :: LeaderOf(after, q, k) {
      var q :| LeaderOf(reqs, q, k);
      assert LeaderOf(after, q, k);
    }
  }

  /** The leader leaves and takes the marker with it. */
  lemma SingleEnds(reqs: Requests, inflight: map<Key, Channel>, p: nat, r: Request)
    requires SingleFlight(reqs, inflight) && p in reqs && Leads(reqs[p]) && !Leads(r)
    ensures SingleFlight(reqs[p := r], inflight - {reqs[p].key})
  {
    var after, key := reqs[p := r], reqs[p].key;
    assert LeaderOf(reqs, p, key);
    forall q, k ensures LeaderOf(after, q, k) <==> LeaderOf(reqs, q, k) && k != key {
      if LeaderOf(reqs, q, key) { assert q == p; }
    }
    forall k | k in inflight - {key} ensures exists q :: LeaderOf(after, q, k) {
      var q :| LeaderOf(reqs, q, k);
      assert LeaderOf(after, q, k);
    }
  }

  lemma WakeupTakes(reqs: Requests, inflight: map<Key, Channel>, closed: set<Channel>, p: nat, key: Key, c: Channel)
    requires NoLostWakeup(reqs, inflight, closed) && key !in inflight
    ensures NoLostWakeup(reqs[p := Leading(key, c)], inflight[key := c], closed)
  {
  }

  /** Closing wakes exactly those who waited for the marker. */
  lemma WakeupEnds(reqs: Requests, inflight: map<Key, Channel>, closed: set<Channel>, p: nat, key: Key)
    requires NoLostWakeup(reqs, inflight, closed) && key in inflight
    ensures NoLostWakeup(reqs[p := Finished], inflight - {key}, closed + {inflight[key]})
  {
  }

  lemma ApartEnds(inflight: map<Key, Channel>, closed: set<Channel>, next: Channel, key: Key)
    requires ChannelsApart(inflight, closed, next) && key in inflight
    ensures ChannelsApart(inflight - {key}, closed + {inflight[key]}, next)
  {
  }

  lemma EntriesShrink(entries: Entries, fewer: Entries, reqs: Requests)
    requires fewer.Keys <= entries.Keys && (forall k :: k in fewer ==> fewer[k] == entries[k])
    requires |entries| <= CAPACITY && EntriesDated(entries) && RequestsSound(reqs, entries)
    ensures |fewer| <= CAPACITY && EntriesDated(fewer) && RequestsSound(reqs, fewer)
  {
    SubmapSize(fewer, entries);
  }

  /** A step of one request that leaves markers and entries alone. */
  lemma StaysSafe(s: State, s': State, p: nat, r: Request)
    requires Safe(s) && s' == With(s, p, r)
    requires Leads(r) <==> p in s.requests && Leads(s.requests[p])
    requires Leads(r) ==> r.key == s.requests[p].key && r.channel == s.requests[p].channel
    requires BeforeStore(r) ==> BeforeStore(s.requests[p])
    requires r.Storing? ==> Dated(r.entry)
    requires r.Waiting? ==> r.key in s.inflight && s.inflight[r.key] == r.channel
    requires r.Answered? ==> Dated(r.entry) && Fresh(r.entry, r.at)
    ensures Safe(s')
  {
    SingleStays(s.requests, s.inflight, p, r);
  }

  lemma DropSafe(s: State, s': State, fewer: Entries)
    requires Safe(s) && s' == s.(entries := fewer)
    requires fewer.Keys <= s.entries.Keys && (forall k :: k in fewer ==> fewer[k] == s.entries[k])
    ensures Safe(s')
  {
    EntriesShrink(s.entries, fewer, s.requests);
  }

  lemma CheckSafe(s: State, s': State, p: nat)
    requires Safe(s) && Check(s, s', p)
    ensures Safe(s')
  {
    var key := s.requests[p].key;
    if key in s.entries && Fresh(s.entries[key], s.now) {
      StaysSafe(s, s', p, Answered(s.entries[key], s.now));
    } else {
      MissSafe(s, s', p);
    }
  }

  lemma MissSafe(s: State, s': State, p: nat)
    requires Safe(s) && Check(s, s', p) && !s'.requests[p].Answered?
    ensures Safe(s')
  {
    var key := s.requests[p].key;
    var dropped := s.(entries := s.entries - {key});
    DropSafe(s, dropped, s.entries - {key});
    if key in s.inflight {
      StaysSafe(dropped, s', p, Waiting(key, s.inflight[key]));
    } else {
      LeadSafe(dropped, s', p, key);
    }
  }

  lemma LeadSafe(s: State, s': State, p: nat, key: Key)
    requires Safe(s) && p in s.requests && s.requests[p] == Checking(key) && key !in s.inflight && key !in s.entries
    requires s' == With(s, p, Leading(key, s.next)).(inflight := s.inflight[key := s.next], next := s.next + 1)
    ensures Safe(s')
  {
    SingleTakes(s.requests, s.inflight, p, key, s.next);
    WakeupTakes(s.requests, s.inflight, s.closed, p, key, s.next);
  }

  lemma CloseSafe(s: State, s': State, p: nat)
    requires Safe(s) && Close(s, s', p)
    ensures Safe(s')
  {
    var key := s.requests[p].key;
    assert LeaderOf(s.requests, p, key);
    SingleEnds(s.requests, s.inflight, p, Finished);
    WakeupEnds(s.requests, s.inflight, s.closed, p, key);
    ApartEnds(s.inflight, s.closed, s.next, key);
  }

  lemma StoreSafe(s: State, s': State, p: nat)
    requires Safe(s) && StoreToken(s, s', p)
    ensures Safe(s')
  {
    var r := s.requests[p];
    var closing := With(s, p, Closing(r.key, r.channel));
    assert LeaderOf(s.requests, p, r.key);
    forall q | q in closing.requests && BeforeStore(closing.requests[q]) ensures closing.requests[q].key != r.key {
      assert LeaderOf(s.requests, q, closing.requests[q].key);
    }
    StaysSafe(s, closing, p, Closing(r.key, r.channel));
    StoredBounded(s.entries, r.key, r.entry, s.now, s'.entries);
  }

  lemma MovesSafe(s: State, s': State, p: nat)
    requires Safe(s) && Moves(s, s', p)
    ensures Safe(s')
  {
    if Check(s, s', p) {
      CheckSafe(s, s', p);
    } else if StoreToken(s, s', p) {
      StoreSafe(s, s', p);
    } else if Close(s, s', p) {
      CloseSafe(s, s', p);
    } else {
      StaysSafe(s, s', p, s'.requests[p]);
    }
  }

  lemma NextSafe(s: State, s': State)
    requires Safe(s) && Next(s, s')
    ensures Safe(s')
  {
    if Tick(s, s') {
    } else if Invalidate(s, s') {
      DropSafe(s, s', s'.entries);
    } else if p, key :| Arrive(s, s', p, key) {
      StaysSafe(s, s', p, Checking(key));
    } else {
      var p :| Moves(s, s', p);
      MovesSafe(s, s', p);
    }
  }

  /** In every interleaving of requests, cancellations, failures, expiries and invalidations: one
      exchange per key, no lost wakeup, a bounded cache, and only fresh answers. */
  lemma {:induction false} AlwaysSafe(trace: seq<State>, i: nat)
    requires Behaviour(trace) && i < |trace|
    ensures Safe(trace[i]) && |trace[i].entries| <= 128
  {
    if i > 0 {
      AlwaysSafe(trace, i - 1);
      assert Next(trace[i - 1], trace[i - 1 + 1]);
      NextSafe(trace[i - 1], trace[i]);
    }
  }

  /** The answer a request got, at whatever moment it is looked at, came from an exchange whose
      token was still good for more than the margin when it was given. */
  lemma AnswerFresh(trace: seq<State>, i: nat, p: nat)
    requires Behaviour(trace) && i < |trace| && p in trace[i].requests && trace[i].requests[p].Answered?
    ensures var r := trace[i].requests[p];
            r.at + 30_000_000_000 < Earlier(r.entry.exchange) + r.entry.exchange.seconds * 1_000_000_000
  {
    AlwaysSafe(trace, i);
  }

  // ---- A refused token is not answered again.

  predicate Names(e: Entry, target: string, policy: bool, token: string) {
    e.target == target && e.policy == policy && e.token == token
  }

  ghost predicate Dropped(entries: Entries, target: string, policy: bool, token: string) {
    forall k :: k in entries ==> !Names(entries[k], target, policy, token)
  }

  /** The step stores such a token. */
  ghost predicate StoresToken(s: State, s': State, target: string, policy: bool, token: string) {
    exists q :: q in s.requests && s.requests[q].Storing? && Names(s.requests[q].entry, target, policy, token) && StoreToken(s, s', q)
  }

  lemma StaysDropped(s: State, s': State, target: string, policy: bool, token: string)
    requires Next(s, s') && Dropped(s.entries, target, policy, token) && !StoresToken(s, s', target, policy, token)
    ensures Dropped(s'.entries, target, policy, token)
  {
    if p :| StoreToken(s, s', p) {
      var r := s.requests[p];
      forall k | k in s'.entries ensures !Names(s'.entries[k], target, policy, token) {
        StoredFrom(s.entries, r.key, r.entry, s.now, s'.entries, k);
      }
    }
  }

  lemma StoredFrom(entries: Entries, key: Key, e: Entry, now: Time, after: Entries, k: Key)
    requires Stored(entries, key, e, now, after) && k in after
    ensures (k == key && after[k] == e) || (k in entries && after[k] == entries[k])
  {
    var alive := OnlyFresh(entries, now);
    if |alive| >= CAPACITY {
      var victim :| SoonestExpiring(alive, victim) && after == (alive - {victim})[key := e];
    }
  }

  lemma {:induction false} Persists(all: seq<Entries>, i: nat, j: nat, target: string, policy: bool, token: string)
    requires i <= j < |all| && Dropped(all[i], target, policy, token)
    requires forall m :: i <= m < j && Dropped(all[m], target, policy, token) ==> Dropped(all[m + 1], target, policy, token)
    ensures Dropped(all[j], target, policy, token)
    decreases j
  {
    if j > i {
      Persists(all, i, j - 1, target, policy, token);
      assert Dropped(all[j - 1], target, policy, token) ==> Dropped(all[j - 1 + 1], target, policy, token);
    }
  }

  lemma OneStep(trace: seq<State>, m: nat, target: string, policy: bool, token: string)
    requires Behaviour(trace) && m + 1 < |trace| && !StoresToken(trace[m], trace[m + 1], target, policy, token)
    requires Dropped(trace[m].entries, target, policy, token)
    ensures Dropped(trace[m + 1].entries, target, policy, token)
  {
    StepTaken(trace, m);
    StaysDropped(trace[m], trace[m + 1], target, policy, token);
  }

  lemma DroppedUntil(trace: seq<State>, i: nat, j: nat, target: string, policy: bool, token: string)
    requires Behaviour(trace) && i <= j < |trace| && Dropped(trace[i].entries, target, policy, token)
    requires forall m :: i <= m < j ==> !StoresToken(trace[m], trace[m + 1], target, policy, token)
    ensures Dropped(trace[j].entries, target, policy, token)
  {
    var all := seq(|trace|, m requires 0 <= m < |trace| => trace[m].entries);
    forall m | i <= m < j && Dropped(all[m], target, policy, token) ensures Dropped(all[m + 1], target, policy, token) {
      OneStep(trace, m, target, policy, token);
    }
    Persists(all, i, j, target, policy, token);
  }

  lemma InvalidatesDrops(s: State, s': State, target: string, policy: bool, token: string)
    requires Invalidates(s, s', target, policy, token)
    ensures Dropped(s'.entries, target, policy, token)
  {
  }

  lemma StepTaken(trace: seq<State>, i: nat)
    requires Behaviour(trace) && i + 1 < |trace|
    ensures Next(trace[i], trace[i + 1])
  {
  }

  /** After a token was invalidated, no request is answered with it until it has been stored anew. */
  lemma InvalidatedNotAnswered(trace: seq<State>, i: nat, j: nat, p: nat, target: string, policy: bool, token: string)
    requires Behaviour(trace) && i < j < |trace| - 1 && Invalidates(trace[i], trace[i + 1], target, policy, token)
    requires p in trace[j + 1].requests && trace[j + 1].requests[p].Answered?
    requires !(p in trace[j].requests && trace[j].requests[p].Answered?)
    requires Names(trace[j + 1].requests[p].entry, target, policy, token)
    ensures exists m :: i < m < j && StoresToken(trace[m], trace[m + 1], target, policy, token)
  {
    if forall m :: i < m < j ==> !StoresToken(trace[m], trace[m + 1], target, policy, token) {
      InvalidatesDrops(trace[i], trace[i + 1], target, policy, token);
      DroppedUntil(trace, i + 1, j, target, policy, token);
      StepTaken(trace, j);
      AnsweredFromCache(trace[j], trace[j + 1], p);
    }
  }

  /** A request becomes answered only by reading the cache. */
  lemma AnsweredFromCache(s: State, s': State, p: nat)
    requires Next(s, s') && p in s'.requests && s'.requests[p].Answered? && !(p in s.requests && s.requests[p].Answered?)
    ensures exists k :: k in s.entries && s'.requests[p].entry == s.entries[k]
  {
    if q, key :| Arrive(s, s', q, key) {
    } else if q :| Moves(s, s', q) {
      MoveAnswers(s, s', q, p);
    }
  }

  lemma MoveAnswers(s: State, s': State, q: nat, p: nat)
    requires Moves(s, s', q) && p in s'.requests && s'.requests[p].Answered? && !(p in s.requests && s.requests[p].Answered?)
    ensures Check(s, s', q) && q == p
  {
    assert forall r :: r in s'.requests && r != q ==> r in s.requests && s'.requests[r] == s.requests[r];
  }

  // ---- What the cache is for.

  /** A token that was granted can be stored, and a request for the same key that is checked next,
      while the token is good for more than the margin, is answered with it and exchanges nothing. */
  lemma SecondRequestServed(s: State, p: nat, e: Entry, q: nat) returns (s1: State, s2: State, s3: State)
    requires p in s.requests && s.requests[p].Exchanging? && GrantedBy(e, s.requests[p].started, s.now)
    requires q in s.requests && s.requests[q] == Checking(s.requests[p].key)
    ensures Next(s, s1) && Next(s1, s2) && Next(s2, s3)
    ensures q in s3.requests && s3.requests[q] == Answered(e, s.now)
  {
    var key, channel := s.requests[p].key, s.requests[p].channel;
    s1 := ExchangeGranted(s, p, e);
    s2 := GrantStored(s1, p, key, channel, e);
    s3 := KeyServed(s2, q, key, e);
  }

  lemma ExchangeGranted(s: State, p: nat, e: Entry) returns (s': State)
    requires p in s.requests && s.requests[p].Exchanging? && GrantedBy(e, s.requests[p].started, s.now)
    ensures Next(s, s') && s' == With(s, p, Storing(s.requests[p].key, s.requests[p].channel, e))
  {
    s' := With(s, p, Storing(s.requests[p].key, s.requests[p].channel, e));
    assert EndExchange(s, s', p);
    assert Moves(s, s', p);
  }

  lemma GrantStored(s: State, p: nat, key: Key, channel: Channel, e: Entry) returns (s': State)
    requires p in s.requests && s.requests[p] == Storing(key, channel, e)
    ensures Next(s, s') && s'.now == s.now && key in s'.entries && s'.entries[key] == e
    ensures s'.requests == s.requests[p := Closing(key, channel)]
  {
    var after := StoreChoice(s.entries, key, e, s.now);
    s' := With(s, p, Closing(key, channel)).(entries := after);
    assert StoreToken(s, s', p);
    assert Moves(s, s', p);
  }

  lemma KeyServed(s: State, q: nat, key: Key, e: Entry) returns (s': State)
    requires q in s.requests && s.requests[q] == Checking(key) && key in s.entries && s.entries[key] == e && Fresh(e, s.now)
    ensures Next(s, s') && s' == With(s, q, Answered(e, s.now))
  {
    s' := With(s, q, Answered(e, s.now));
    assert Check(s, s', q);
    assert Moves(s, s', q);
  }

  lemma StoreChoice(entries: Entries, key: Key, e: Entry, now: Time) returns (after: Entries)
    ensures Stored(entries, key, e, now, after) && key in after && after[key] == e
  {
    var alive := OnlyFresh(entries, now);
    if |alive| < CAPACITY {
      after := alive[key := e];
    } else {
      var victim := Soonest(alive);
      after := (alive - {victim})[key := e];
    }
  }

  lemma {:induction false} Soonest(entries: Entries) returns (k: Key)
    requires |entries| > 0
    ensures SoonestExpiring(entries, k)
    decreases |entries|
  {
    assert entries.Keys != {};
    var first :| first in entries;
    k := first;
    var rest := entries - {first};
    RemoveSize(entries, first);
    assert forall x :: x in entries ==> x == first || (x in rest && rest[x] == entries[x]);
    if |rest| > 0 {
      var j := Soonest(rest);
      if rest[j].expiry < entries[first].expiry { k := j; }
    } else {
      assert rest.Keys == {};
    }
  }

  // ---- Nothing that can happen is left out of the behaviours.

  lemma CacheStarts(now: Time)
    requires 0 <= now
    ensures Init(State(now, map[], map[], {}, 0, map[]))
  {
  }

  /** Time passes, requests arrive, tokens are invalidated, whatever the state. */
  lemma AlwaysPossible(s: State, later: Time, p: nat, key: Key, target: string, policy: bool, token: string)
    requires s.now <= later && p !in s.requests
    ensures Next(s, s.(now := later)) && Next(s, With(s, p, Checking(key)))
    ensures Next(s, s.(entries := Invalidated(s.entries, target, policy, token)))
  {
    assert Arrive(s, With(s, p, Checking(key)), p, key);
    assert Invalidates(s, s.(entries := Invalidated(s.entries, target, policy, token)), target, policy, token);
  }

  /** A waiting request can give up, and is woken once its channel is closed; an exchange can start,
      and end without a token. */
  lemma RequestCanMove(s: State, p: nat)
    requires p in s.requests
    ensures s.requests[p].Waiting? ==> Next(s, With(s, p, Finished))
    ensures s.requests[p].Waiting? && s.requests[p].channel in s.closed ==> Next(s, With(s, p, Checking(s.requests[p].key)))
    ensures s.requests[p].Leading? ==> Next(s, With(s, p, Exchanging(s.requests[p].key, s.requests[p].channel, s.now)))
    ensures s.requests[p].Exchanging? ==> Next(s, With(s, p, Closing(s.requests[p].key, s.requests[p].channel)))
  {
    var r := s.requests[p];
    if r.Waiting? {
      assert Moves(s, With(s, p, Finished), p);
      if r.channel in s.closed { assert Moves(s, With(s, p, Checking(r.key)), p); }
    } else if r.Leading? {
      assert Moves(s, With(s, p, Exchanging(r.key, r.channel, s.now)), p);
    } else if r.Exchanging? {
      assert EndExchange(s, With(s, p, Closing(r.key, r.channel)), p);
      assert Moves(s, With(s, p, Closing(r.key, r.channel)), p);
    }
  }
}
