/** The discovery cache of the Bedrock extension (extensions/amazon-bedrock/discovery.ts):
    concurrent callers of one key share one fetch, and its result is kept for the refresh
    interval.  A state machine over every interleaving of callers and fetches. */
module BedrockDiscovery {
  import opened Wrappers
  import opened BedrockModels

  /** The cache key; the interval is in whole seconds. */
  datatype Key = Key(region: string, providerFilter: seq<string>, refreshInterval: nat, contextWindow: int, maxTokens: int)

  /** What a fetch came to; `List` is the discovered model list. */
  type List = seq<Model>
  datatype Outcome = Pending | Fetched(list: List) | Failed

  /** A fetch, and whether the caller that started it has continued after its `await`. */
  datatype Fetch = Fetch(key: Key, startedAt: int, outcome: Outcome, resumed: bool)

  datatype Entry = Entry(expiresAt: int, value: Option<List>, inFlight: Option<nat>)

  /** How a call was handled. */
  datatype Route = Served(list: List) | Joined(fetch: nat) | Started(fetch: nat)
  datatype Caller = Caller(key: Key, at: int, route: Route)

  datatype System = System(cache: map<Key, Entry>, fetches: seq<Fetch>, callers: seq<Caller>, logged: bool, warnings: nat)

  datatype Event = Discover(key: Key, now: int) | Settle(fetch: nat, outcome: Outcome) | Resume(fetch: nat)

  const INITIAL := System(map[], [], [], false, 0)

  function Expiry(key: Key, start: int): int {
    start + key.refreshInterval * 1000
  }

  /** What the cache has to offer. */
  function Lookup(cache: map<Key, Entry>, key: Key, now: int): Option<Route> {
    if key.refreshInterval > 0 && key in cache then
      var cached := cache[key];
      if cached.value.Some? && cached.expiresAt > now then Some(Served(cached.value.value))
      else if cached.inFlight.Some? then Some(Joined(cached.inFlight.value))
      else None
    else None
  }

  predicate Unsettled(s: System, f: nat) {
    f < |s.fetches| && s.fetches[f].outcome.Pending?
  }

  predicate ReadyToResume(s: System, f: nat) {
    f < |s.fetches| && !s.fetches[f].outcome.Pending? && !s.fetches[f].resumed
  }

  /** An event that is not enabled leaves the system unchanged. */
  function Step(s: System, e: Event): System {
    match e
    case Discover(key, now) =>
      (match Lookup(s.cache, key, now)
       case Some(route) => s.(callers := s.callers + [Caller(key, now, route)])
       case None =>
         var f := |s.fetches|;
         s.(fetches := s.fetches + [Fetch(key, now, Pending, false)],
            callers := s.callers + [Caller(key, now, Started(f))],
            cache := if key.refreshInterval > 0 then s.cache[key := Entry(Expiry(key, now), None, Some(f))] else s.cache))
    case Settle(f, outcome) =>
      if Unsettled(s, f) then s.(fetches := s.fetches[f := s.fetches[f].(outcome := outcome)]) else s
    case Resume(f) =>
      if ReadyToResume(s, f) then
        var fetch := s.fetches[f];
        var s' := s.(fetches := s.fetches[f := fetch.(resumed := true)]);
        if fetch.outcome.Fetched? then
          if fetch.key.refreshInterval > 0
          then s'.(cache := s.cache[fetch.key := Entry(Expiry(fetch.key, fetch.startedAt), Some(fetch.outcome.list), None)])
          else s'
        else
          s'.(cache := if fetch.key.refreshInterval > 0 then s.cache - {fetch.key} else s.cache,
              logged := true,
              warnings := if s.logged then s.warnings else s.warnings + 1)
      else s
  }

  function Run(s: System, es: seq<Event>): System
    decreases |es|
  {
    if es == [] then s else Run(Step(s, es[0]), es[1..])
  }

  // ---------------------------------------------------------------- invariant

  ghost predicate IsLast(fetches: seq<Fetch>, f: nat) {
    f < |fetches| && forall g :: f < g < |fetches| ==> fetches[g].key != fetches[f].key
  }

  /** What the cache holds for the last fetch of a key. */
  function EntryFor(fetch: Fetch, f: nat): Option<Entry> {
    if !fetch.resumed then Some(Entry(Expiry(fetch.key, fetch.startedAt), None, Some(f)))
    else if fetch.outcome.Fetched? then Some(Entry(Expiry(fetch.key, fetch.startedAt), Some(fetch.outcome.list), None))
    else None
  }

  ghost predicate HasFetch(fetches: seq<Fetch>, key: Key) {
    exists f: nat :: IsLast(fetches, f) && fetches[f].key == key
  }

  /** The cache says exactly what became of the last fetch of each key. */
  ghost predicate CacheOk(cache: map<Key, Entry>, fetches: seq<Fetch>) {
    && (forall key :: key in cache ==> key.refreshInterval > 0 && HasFetch(fetches, key))
    && (forall f: nat {:trigger IsLast(fetches, f)} :: IsLast(fetches, f) && fetches[f].key.refreshInterval > 0 ==>
          var key := fetches[f].key;
          EntryFor(fetches[f], f) == if key in cache then Some(cache[key]) else None)
  }

  /** Only the last fetch of a cached key can be unfinished. */
  ghost predicate FlightsOk(fetches: seq<Fetch>) {
    && (forall f :: 0 <= f < |fetches| && fetches[f].key.refreshInterval > 0 && !fetches[f].resumed ==> IsLast(fetches, f))
    && (forall f :: 0 <= f < |fetches| && fetches[f].outcome.Pending? ==> !fetches[f].resumed)
  }

  ghost predicate CallerOk(fetches: seq<Fetch>, c: Caller) {
    match c.route
    case Served(list) => c.key.refreshInterval > 0 && exists f :: 0 <= f < |fetches| && Supplies(fetches[f], c, list)
    case Joined(f) => c.key.refreshInterval > 0 && f < |fetches| && fetches[f].key == c.key
    case Started(f) => f < |fetches| && fetches[f].key == c.key && fetches[f].startedAt == c.at
  }

  /** The list is the fetch's result, and the fetch started less than one interval before. */
  predicate Supplies(fetch: Fetch, c: Caller, list: List) {
    fetch.key == c.key && fetch.outcome == Fetched(list) && c.at < Expiry(fetch.key, fetch.startedAt)
  }

  ghost predicate CallersOk(fetches: seq<Fetch>, callers: seq<Caller>) {
    && (forall i :: 0 <= i < |callers| ==> CallerOk(fetches, callers[i]))
    && (forall i, j :: 0 <= i < j < |callers| && callers[i].route.Started? && callers[j].route.Started? ==>
          callers[i].route.fetch < callers[j].route.fetch)
  }

  ghost predicate LogOk(s: System) {
    && s.warnings == (if s.logged then 1 else 0)
    && (s.logged <==> exists f :: 0 <= f < |s.fetches| && s.fetches[f].resumed && s.fetches[f].outcome.Failed?)
  }

  ghost predicate Inv(s: System) {
    CacheOk(s.cache, s.fetches) && FlightsOk(s.fetches) && CallersOk(s.fetches, s.callers) && LogOk(s)
  }

  /** Fetches only move forward. */
  ghost predicate Progress(a: seq<Fetch>, b: seq<Fetch>) {
    && |a| <= |b|
    && forall f :: 0 <= f < |a| ==>
         && b[f].key == a[f].key && b[f].startedAt == a[f].startedAt
         && (!a[f].outcome.Pending? ==> b[f].outcome == a[f].outcome)
         && (a[f].resumed ==> b[f].resumed)
  }

  lemma CallerStays(a: seq<Fetch>, b: seq<Fetch>, c: Caller)
    requires Progress(a, b) && CallerOk(a, c)
    ensures CallerOk(b, c)
  {
    if c.route.Served? {
      var f :| 0 <= f < |a| && Supplies(a[f], c, c.route.list);
      assert Supplies(b[f], c, c.route.list);
    }
  }

  lemma CallersStay(a: seq<Fetch>, b: seq<Fetch>, callers: seq<Caller>)
    requires Progress(a, b) && CallersOk(a, callers)
    ensures CallersOk(b, callers)
  {
    forall i | 0 <= i < |callers| ensures CallerOk(b, callers[i]) {
      CallerStays(a, b, callers[i]);
    }
  }

  /** Changing a fetch in place changes nobody's being last. */
  lemma LastSame(a: seq<Fetch>, b: seq<Fetch>)
    requires |a| == |b| && forall f :: 0 <= f < |a| ==> b[f].key == a[f].key
    ensures forall f: nat :: IsLast(a, f) <==> IsLast(b, f)
    ensures forall key :: HasFetch(a, key) ==> HasFetch(b, key)
  {
    forall f: nat ensures IsLast(a, f) <==> IsLast(b, f) {
    }
    forall key | HasFetch(a, key) ensures HasFetch(b, key) {
      var f: nat :| IsLast(a, f) && a[f].key == key;
      assert IsLast(b, f) && b[f].key == key;
    }
  }

  lemma {:induction false} LastExists(fetches: seq<Fetch>, key: Key, f: nat) returns (l: nat)
    requires f < |fetches| && fetches[f].key == key
    ensures IsLast(fetches, l) && fetches[l].key == key && f <= l
    decreases |fetches| - f
  {
    if IsLast(fetches, f) {
      l := f;
    } else {
      var g :| f < g < |fetches| && fetches[g].key == fetches[f].key;
      l := LastExists(fetches, key, g);
    }
  }

  lemma LastUnique(fetches: seq<Fetch>, f: nat, g: nat)
    requires IsLast(fetches, f) && IsLast(fetches, g) && fetches[f].key == fetches[g].key
    ensures f == g
  {
  }

  /** A cached key's last fetch and its entry. */
  lemma CacheEntry(s: System, key: Key) returns (f: nat)
    requires Inv(s) && key in s.cache
    ensures IsLast(s.fetches, f) && s.fetches[f].key == key && Some(s.cache[key]) == EntryFor(s.fetches[f], f)
  {
    assert HasFetch(s.fetches, key);
    f :| IsLast(s.fetches, f) && s.fetches[f].key == key;
  }

  // ---------------------------------------------------------------- a call

  lemma LookupOk(s: System, key: Key, now: int)
    requires Inv(s) && Lookup(s.cache, key, now).Some?
    ensures CallerOk(s.fetches, Caller(key, now, Lookup(s.cache, key, now).value))
    ensures !Lookup(s.cache, key, now).value.Started?
  {
    var f := CacheEntry(s, key);
    if s.fetches[f].resumed && s.cache[key].expiresAt > now {
      assert Supplies(s.fetches[f], Caller(key, now, Lookup(s.cache, key, now).value), s.fetches[f].outcome.list);
    }
  }

  lemma ServedInv(s: System, key: Key, now: int)
    requires Inv(s) && Lookup(s.cache, key, now).Some?
    ensures Inv(Step(s, Discover(key, now)))
  {
    LookupOk(s, key, now);
  }

  lemma NothingInFlight(s: System, key: Key, now: int)
    requires Inv(s) && Lookup(s.cache, key, now).None? && key.refreshInterval > 0
    ensures forall f :: 0 <= f < |s.fetches| && s.fetches[f].key == key ==> s.fetches[f].resumed
  {
    forall f | 0 <= f < |s.fetches| && s.fetches[f].key == key ensures s.fetches[f].resumed {
      assert IsLast(s.fetches, f) || s.fetches[f].resumed;
    }
  }

  lemma StartedInv(s: System, key: Key, now: int)
    requires Inv(s) && Lookup(s.cache, key, now).None?
    ensures Inv(Step(s, Discover(key, now)))
  {
    var s' := Step(s, Discover(key, now));
    var n := |s.fetches|;
    if key.refreshInterval > 0 {
      NothingInFlight(s, key, now);
    }
    assert IsLast(s'.fetches, n);
    forall f: nat ensures IsLast(s'.fetches, f) <==> f == n || (IsLast(s.fetches, f) && s.fetches[f].key != key) {
      LastAfterAppend(s.fetches, s'.fetches[n], f);
    }
    CallersStay(s.fetches, s'.fetches, s.callers);
    StartedCache(s, key, now);
    StartedLog(s, key, now);
  }

  lemma LastAfterAppend(fetches: seq<Fetch>, x: Fetch, f: nat)
    ensures IsLast(fetches + [x], f) <==> f == |fetches| || (IsLast(fetches, f) && fetches[f].key != x.key)
  {
    var all := fetches + [x];
    if IsLast(all, f) && f < |fetches| {
      forall g | f < g < |fetches| ensures fetches[g].key != fetches[f].key {
        assert all[g] == fetches[g];
      }
      assert all[|fetches|].key != all[f].key;
    }
  }

  lemma StartedCache(s: System, key: Key, now: int)
    requires Inv(s) && Lookup(s.cache, key, now).None?
    ensures CacheOk(Step(s, Discover(key, now)).cache, Step(s, Discover(key, now)).fetches)
  {
    var s' := Step(s, Discover(key, now));
    var n := |s.fetches|;
    LastAfterAppend(s.fetches, s'.fetches[n], n);
    forall k | k in s'.cache ensures k.refreshInterval > 0 && HasFetch(s'.fetches, k) {
      if k == key {
        assert IsLast(s'.fetches, n) && s'.fetches[n].key == k;
      } else {
        assert HasFetch(s.fetches, k);
        var f: nat :| IsLast(s.fetches, f) && s.fetches[f].key == k;
        LastAfterAppend(s.fetches, s'.fetches[n], f);
        assert s'.fetches[f].key == k;
      }
    }
    forall f: nat | IsLast(s'.fetches, f) && s'.fetches[f].key.refreshInterval > 0
      ensures var k := s'.fetches[f].key;
              EntryFor(s'.fetches[f], f) == if k in s'.cache then Some(s'.cache[k]) else None
    {
      LastAfterAppend(s.fetches, s'.fetches[n], f);
    }
  }

  lemma StartedLog(s: System, key: Key, now: int)
    requires LogOk(s) && Lookup(s.cache, key, now).None?
    ensures LogOk(Step(s, Discover(key, now)))
  {
    var s' := Step(s, Discover(key, now));
    if s.logged {
      var f :| 0 <= f < |s.fetches| && s.fetches[f].resumed && s.fetches[f].outcome.Failed?;
      assert s'.fetches[f] == s.fetches[f];
    }
  }

  // ---------------------------------------------------------------- a fetch ends

  lemma SettleInv(s: System, f: nat, outcome: Outcome)
    requires Inv(s) && Unsettled(s, f)
    ensures Inv(Step(s, Settle(f, outcome)))
  {
    var s' := Step(s, Settle(f, outcome));
    LastSame(s.fetches, s'.fetches);
    FlightsStay(s.fetches, s'.fetches);
    CallersStay(s.fetches, s'.fetches, s.callers);
    if s.logged {
      var g :| 0 <= g < |s.fetches| && s.fetches[g].resumed && s.fetches[g].outcome.Failed?;
      assert s'.fetches[g] == s.fetches[g];
    }
  }

  lemma FlightsStay(a: seq<Fetch>, b: seq<Fetch>)
    requires FlightsOk(a) && |a| == |b|
    requires forall f :: 0 <= f < |a| ==>
               b[f].key == a[f].key && (a[f].resumed ==> b[f].resumed) && (b[f].outcome.Pending? ==> b[f] == a[f])
    ensures FlightsOk(b)
  {
    LastSame(a, b);
  }

  lemma ResumeInv(s: System, f: nat)
    requires Inv(s) && ReadyToResume(s, f)
    ensures Inv(Step(s, Resume(f)))
  {
    var s' := Step(s, Resume(f));
    FlightsStay(s.fetches, s'.fetches);
    CallersStay(s.fetches, s'.fetches, s.callers);
    ResumeCache(s, f);
    ResumeLog(s, f);
  }

  lemma ResumeEntry(s: System, f: nat, g: nat)
    requires CacheOk(s.cache, s.fetches) && ReadyToResume(s, f)
    requires IsLast(s.fetches, g) && s.fetches[g].key.refreshInterval > 0
    requires s.fetches[f].key == s.fetches[g].key ==> f == g
    ensures var s' := Step(s, Resume(f)); var key := s.fetches[g].key;
            EntryFor(s'.fetches[g], g) == if key in s'.cache then Some(s'.cache[key]) else None
  {
  }

  lemma ResumeCache(s: System, f: nat)
    requires CacheOk(s.cache, s.fetches) && FlightsOk(s.fetches) && ReadyToResume(s, f)
    ensures CacheOk(Step(s, Resume(f)).cache, Step(s, Resume(f)).fetches)
  {
    var s' := Step(s, Resume(f));
    LastSame(s.fetches, s'.fetches);
    assert s'.cache.Keys <= s.cache.Keys;
    forall g: nat | IsLast(s'.fetches, g) && s'.fetches[g].key.refreshInterval > 0
      ensures var k := s'.fetches[g].key;
              EntryFor(s'.fetches[g], g) == if k in s'.cache then Some(s'.cache[k]) else None
    {
      assert IsLast(s.fetches, g);
      if s.fetches[g].key == s.fetches[f].key {
        LastUnique(s.fetches, f, g);
      }
      ResumeEntry(s, f, g);
    }
  }

  lemma ResumeLog(s: System, f: nat)
    requires Inv(s) && ReadyToResume(s, f)
    ensures LogOk(Step(s, Resume(f)))
  {
    var s' := Step(s, Resume(f));
    if s.logged {
      var g :| 0 <= g < |s.fetches| && s.fetches[g].resumed && s.fetches[g].outcome.Failed?;
      assert s'.fetches[g] == s.fetches[g];
    }
    assert s'.fetches[f].resumed;
  }

  /** Every event keeps the invariant. */
  lemma StepInv(s: System, e: Event)
    requires Inv(s)
    ensures Inv(Step(s, e))
  {
    match e {
      case Discover(key, now) =>
        if Lookup(s.cache, key, now).Some? {
          ServedInv(s, key, now);
        } else {
          StartedInv(s, key, now);
        }
      case Settle(f, outcome) =>
        if Unsettled(s, f) {
          SettleInv(s, f, outcome);
        }
      case Resume(f) =>
        if ReadyToResume(s, f) {
          ResumeInv(s, f);
        }
    }
  }

  lemma {:induction false} RunKeeps(s: System, es: seq<Event>)
    requires Inv(s)
    ensures Inv(Run(s, es))
    decreases |es|
  {
    if es != [] {
      StepInv(s, es[0]);
      RunKeeps(Step(s, es[0]), es[1..]);
    }
  }

  // ---------------------------------------------------------------- whole runs

  /** With a positive interval, at most one fetch per key is under way at any time. */
  lemma OneFetchInFlight(es: seq<Event>, f: nat, g: nat)
    requires var fetches := Run(INITIAL, es).fetches;
             && f < |fetches| && g < |fetches| && fetches[f].key == fetches[g].key
             && fetches[f].key.refreshInterval > 0 && !fetches[f].resumed && !fetches[g].resumed
    ensures f == g
  {
    RunKeeps(INITIAL, es);
    LastUnique(Run(INITIAL, es).fetches, f, g);
  }

  /** A call that comes while a fetch of its key is under way joins that fetch. */
  lemma JoinsTheFlight(es: seq<Event>, f: nat, now: int)
    requires var fetches := Run(INITIAL, es).fetches;
             f < |fetches| && fetches[f].key.refreshInterval > 0 && !fetches[f].resumed
    ensures var s := Run(INITIAL, es); var key := s.fetches[f].key;
            Step(s, Discover(key, now)) == s.(callers := s.callers + [Caller(key, now, Joined(f))])
  {
    RunKeeps(INITIAL, es);
    assert IsLast(Run(INITIAL, es).fetches, f);
  }

  /** The list is the result of a fetch of the key that started less than one interval before. */
  ghost predicate ServedInTime(s: System, c: Caller)
    requires c.route.Served?
  {
    exists f :: 0 <= f < |s.fetches| && s.fetches[f].key == c.key &&
      s.fetches[f].outcome == Fetched(c.route.list) &&
      c.at < s.fetches[f].startedAt + c.key.refreshInterval * 1000
  }

  /** A list served from the cache is the result of a fetch of the same key that started
      less than one interval before the call. */
  lemma ServedIsFresh(es: seq<Event>, i: nat)
    requires i < |Run(INITIAL, es).callers| && Run(INITIAL, es).callers[i].route.Served?
    ensures ServedInTime(Run(INITIAL, es), Run(INITIAL, es).callers[i])
  {
    RunKeeps(INITIAL, es);
    var s := Run(INITIAL, es);
    var c := s.callers[i];
    assert CallerOk(s.fetches, c);
    var f :| 0 <= f < |s.fetches| && Supplies(s.fetches[f], c, c.route.list);
  }

  /** Once its initiator has seen a fetch fail, the cache has no entry for the key, and the
      next call starts a new fetch. */
  lemma FailureRetries(es: seq<Event>, f: nat, now: int)
    requires var s := Run(INITIAL, es); ReadyToResume(s, f) && s.fetches[f].outcome.Failed?
    ensures var s' := Step(Run(INITIAL, es), Resume(f)); var key := s'.fetches[f].key;
            key !in s'.cache && Step(s', Discover(key, now)).fetches == s'.fetches + [Fetch(key, now, Pending, false)]
  {
    RunKeeps(INITIAL, es);
  }

  /** What a caller has been told so far. */
  datatype Answer = Waiting | Resolved(list: List) | Rejected

  function AnswerTo(s: System, c: Caller): Answer
    requires CallerOk(s.fetches, c)
  {
    match c.route
    case Served(list) => Resolved(list)
    case Joined(f) =>
      (match s.fetches[f].outcome
       case Pending => Waiting
       case Fetched(list) => Resolved(list)
       case Failed => Rejected)
    case Started(f) =>
      if !s.fetches[f].resumed then Waiting
      else if s.fetches[f].outcome.Fetched? then Resolved(s.fetches[f].outcome.list)
      else Resolved([])
  }

  lemma StepProgress(s: System, e: Event)
    ensures Progress(s.fetches, Step(s, e).fetches) && s.callers <= Step(s, e).callers
  {
  }

  lemma {:induction false} RunProgress(s: System, es: seq<Event>)
    ensures Progress(s.fetches, Run(s, es).fetches) && s.callers <= Run(s, es).callers
    decreases |es|
  {
    if es != [] {
      StepProgress(s, es[0]);
      RunProgress(Step(s, es[0]), es[1..]);
    }
  }

  /** An answer, once given, never changes. */
  lemma AnswersAreFinal(es: seq<Event>, later: seq<Event>, i: nat)
    requires i < |Run(INITIAL, es).callers|
    ensures var s := Run(INITIAL, es); var s' := Run(s, later);
            && i < |s'.callers| && CallerOk(s.fetches, s.callers[i]) && CallerOk(s'.fetches, s'.callers[i])
            && (AnswerTo(s, s.callers[i]) != Waiting ==> AnswerTo(s', s'.callers[i]) == AnswerTo(s, s.callers[i]))
  {
    var s := Run(INITIAL, es);
    RunKeeps(INITIAL, es);
    RunProgress(s, later);
    RunKeeps(s, later);
    assert CallerOk(s.fetches, s.callers[i]);
    FlightsSettled(s);
  }

  lemma FlightsSettled(s: System)
    requires Inv(s)
    ensures forall f :: 0 <= f < |s.fetches| && s.fetches[f].resumed ==> !s.fetches[f].outcome.Pending?
  {
  }

  predicate SharesFetch(initiator: Caller, joined: Caller) {
    initiator.route.Started? && joined.route == Joined(initiator.route.fetch)
  }

  /** What the caller that started a fetch and one that joined it are told. */
  ghost predicate SharedAnswers(s: System, initiator: Caller, joined: Caller)
    requires initiator.route.Started?
  {
    var f := initiator.route.fetch;
    && CallerOk(s.fetches, initiator) && CallerOk(s.fetches, joined)
    && match s.fetches[f].outcome
       case Pending => AnswerTo(s, initiator) == Waiting && AnswerTo(s, joined) == Waiting
       case Fetched(list) =>
         && AnswerTo(s, initiator) == (if s.fetches[f].resumed then Resolved(list) else Waiting)
         && AnswerTo(s, joined) == Resolved(list)
       case Failed =>
         && AnswerTo(s, initiator) == (if s.fetches[f].resumed then Resolved([]) else Waiting)
         && AnswerTo(s, joined) == Rejected
  }

  /** Callers sharing a fetch: after success they all get its list; after a failure those
      that joined are rejected while the one that started it gets an empty list. */
  lemma SharedOutcome(es: seq<Event>, i: nat, j: nat)
    requires var s := Run(INITIAL, es);
             i < |s.callers| && j < |s.callers| && SharesFetch(s.callers[i], s.callers[j])
    ensures var s := Run(INITIAL, es); SharedAnswers(s, s.callers[i], s.callers[j])
  {
    RunKeeps(INITIAL, es);
    FlightsSettled(Run(INITIAL, es));
    assert CallerOk(Run(INITIAL, es).fetches, Run(INITIAL, es).callers[i]);
    assert CallerOk(Run(INITIAL, es).fetches, Run(INITIAL, es).callers[j]);
  }

  /** A fetch comes to the first result that it is settled with, whatever happens later. */
  lemma FirstResultStays(s: System, f: nat, outcome: Outcome, later: seq<Event>)
    requires Unsettled(s, f) && !outcome.Pending?
    ensures var s' := Run(Step(s, Settle(f, outcome)), later);
            f < |s'.fetches| && s'.fetches[f].key == s.fetches[f].key && s'.fetches[f].outcome == outcome
  {
    RunProgress(Step(s, Settle(f, outcome)), later);
  }

  datatype Call = Call(key: Key, now: int)

  ghost function CallsMade(callers: seq<Caller>): seq<Call> {
    seq(|callers|, i requires 0 <= i < |callers| => Call(callers[i].key, callers[i].at))
  }

  ghost function CallsOf(es: seq<Event>): seq<Call> {
    if es == [] then []
    else (if es[0].Discover? then [Call(es[0].key, es[0].now)] else []) + CallsOf(es[1..])
  }

  /** The callers are the calls of the run, in order, with their keys and times. */
  lemma {:induction false} CallsRecorded(s: System, es: seq<Event>)
    ensures CallsMade(Run(s, es).callers) == CallsMade(s.callers) + CallsOf(es)
    decreases |es|
  {
    if es != [] {
      CallsRecorded(Step(s, es[0]), es[1..]);
      var call := if es[0].Discover? then [Call(es[0].key, es[0].now)] else [];
      assert CallsMade(Step(s, es[0]).callers) == CallsMade(s.callers) + call;
      assert CallsMade(s.callers) + (call + CallsOf(es[1..])) == (CallsMade(s.callers) + call) + CallsOf(es[1..]);
    }
  }

  /** However many fetches fail, one warning is logged. */
  lemma WarnsOnce(es: seq<Event>)
    ensures var s := Run(INITIAL, es);
            s.warnings == if exists f :: 0 <= f < |s.fetches| && s.fetches[f].resumed && s.fetches[f].outcome.Failed?
                          then 1 else 0
  {
    RunKeeps(INITIAL, es);
  }

  // ---------------------------------------------------------------- the refresh rate

  predicate Orderly(clock: int, es: seq<Event>)
    decreases |es|
  {
    if es == [] then true
    else if es[0].Discover? then clock <= es[0].now && Orderly(es[0].now, es[1..])
    else Orderly(clock, es[1..])
  }

  predicate Apart(fetch: Fetch, next: int) {
    fetch.outcome.Fetched? && fetch.key.refreshInterval > 0 ==> Expiry(fetch.key, fetch.startedAt) <= next
  }

  /** A successful fetch is followed by the next one of its key after a full interval. */
  ghost predicate Spaced(fetches: seq<Fetch>, clock: int) {
    && (forall f :: 0 <= f < |fetches| ==> fetches[f].startedAt <= clock)
    && (forall f, g :: 0 <= f < g < |fetches| && fetches[f].key == fetches[g].key ==> Apart(fetches[f], fetches[g].startedAt))
  }

  lemma StartSpaced(s: System, key: Key, now: int, clock: int)
    requires Inv(s) && Spaced(s.fetches, clock) && clock <= now && Lookup(s.cache, key, now).None?
    ensures Spaced(Step(s, Discover(key, now)).fetches, now)
  {
    forall f | 0 <= f < |s.fetches| && s.fetches[f].key == key && s.fetches[f].outcome.Fetched? && key.refreshInterval > 0
      ensures Expiry(key, s.fetches[f].startedAt) <= now
    {
      var l := LastExists(s.fetches, key, f);
      NothingInFlight(s, key, now);
      if l == f {
        assert EntryFor(s.fetches[f], f) == Some(s.cache[key]);
      }
    }
  }

  lemma SettleSpaced(s: System, f: nat, outcome: Outcome, clock: int)
    requires Inv(s) && Spaced(s.fetches, clock) && Unsettled(s, f)
    ensures Spaced(Step(s, Settle(f, outcome)).fetches, clock)
  {
    if s.fetches[f].key.refreshInterval > 0 {
      assert IsLast(s.fetches, f);
    }
  }

  lemma ResumeSpaced(s: System, f: nat, clock: int)
    requires Spaced(s.fetches, clock) && ReadyToResume(s, f)
    ensures Spaced(Step(s, Resume(f)).fetches, clock)
  {
    var fetches := Step(s, Resume(f)).fetches;
    forall i | 0 <= i < |fetches|
      ensures fetches[i] == s.fetches[i].(resumed := fetches[i].resumed)
    {
    }
  }

  lemma StepSpaced(s: System, clock: int, e: Event)
    requires Inv(s) && Spaced(s.fetches, clock) && (e.Discover? ==> clock <= e.now)
    ensures Spaced(Step(s, e).fetches, if e.Discover? then e.now else clock)
  {
    match e
    case Discover(key, now) =>
      if Lookup(s.cache, key, now).None? {
        StartSpaced(s, key, now, clock);
      }
    case Settle(f, outcome) =>
      if Unsettled(s, f) {
        SettleSpaced(s, f, outcome, clock);
      }
    case Resume(f) =>
      if ReadyToResume(s, f) {
        ResumeSpaced(s, f, clock);
      }
  }

  lemma {:induction false} RunSpaced(s: System, clock: int, es: seq<Event>) returns (end: int)
    requires Inv(s) && Spaced(s.fetches, clock) && Orderly(clock, es)
    ensures Spaced(Run(s, es).fetches, end)
    decreases |es|
  {
    if es == [] {
      end := clock;
    } else {
      StepInv(s, es[0]);
      StepSpaced(s, clock, es[0]);
      end := RunSpaced(Step(s, es[0]), if es[0].Discover? then es[0].now else clock, es[1..]);
    }
  }

  /** With a clock that does not go back, successful fetches of one key start at least one
      refresh interval before the key's next fetch. */
  lemma FetchesAreSpaced(clock: int, es: seq<Event>, f: nat, g: nat)
    requires Orderly(clock, es)
    requires var fetches := Run(INITIAL, es).fetches;
             && f < g < |fetches| && fetches[f].key == fetches[g].key && fetches[f].outcome.Fetched?
             && fetches[f].key.refreshInterval > 0
    ensures var fetches := Run(INITIAL, es).fetches;
            fetches[f].startedAt + fetches[f].key.refreshInterval * 1000 <= fetches[g].startedAt
  {
    var end := RunSpaced(INITIAL, clock, es);
  }

  // ---------------------------------------------------------------- the cache as the extension updates it

  class Discovery {
    var cache: map<Key, Entry>
    var fetches: seq<Fetch>
    var callers: seq<Caller>
    var hasLoggedBedrockError: bool
    var warnings: nat

    ghost function View(): System
      reads this
    {
      System(cache, fetches, callers, hasLoggedBedrockError, warnings)
    }

    constructor ()
      ensures View() == INITIAL
    {
      cache, fetches, callers, hasLoggedBedrockError, warnings := map[], [], [], false, 0;
    }

    /** `discoverBedrockModels` up to its first `await`. */
    method DiscoverBedrockModels(key: Key, now: int)
      modifies this
      ensures View() == Step(old(View()), Discover(key, now))
    {
      if key.refreshInterval > 0 {
        if key in cache {
          var cached := cache[key];
          if cached.value.Some? && cached.expiresAt > now {
            callers := callers + [Caller(key, now, Served(cached.value.value))];
            return;
          }
          if cached.inFlight.Some? {
            callers := callers + [Caller(key, now, Joined(cached.inFlight.value))];
            return;
          }
        }
      }
      var discoveryPromise := |fetches|;
      fetches := fetches + [Fetch(key, now, Pending, false)];
      callers := callers + [Caller(key, now, Started(discoveryPromise))];
      if key.refreshInterval > 0 {
        cache := cache[key := Entry(now + key.refreshInterval * 1000, None, Some(discoveryPromise))];
      }
    }

    method SettleFetch(f: nat, outcome: Outcome)
      requires f < |fetches| && fetches[f].outcome.Pending?
      modifies `fetches
      ensures View() == Step(old(View()), Settle(f, outcome))
    {
      fetches := fetches[f := fetches[f].(outcome := outcome)];
    }

    /** The rest of `discoverBedrockModels`: the `try` and `catch` after the `await`. */
    method ResumeInitiator(f: nat)
      requires f < |fetches| && !fetches[f].outcome.Pending? && !fetches[f].resumed
      modifies this
      ensures View() == Step(old(View()), Resume(f))
    {
      var fetch := fetches[f];
      fetches := fetches[f := fetch.(resumed := true)];
      if fetch.outcome.Fetched? {
        if fetch.key.refreshInterval > 0 {
          cache := cache[fetch.key := Entry(fetch.startedAt + fetch.key.refreshInterval * 1000, Some(fetch.outcome.list), None)];
        }
      } else {
        if fetch.key.refreshInterval > 0 {
          cache := cache - {fetch.key};
        }
        if !hasLoggedBedrockError {
          hasLoggedBedrockError := true;
          warnings := warnings + 1;
        }
      }
    }

    /** Lets one event happen, if it can. */
    method Handle(e: Event)
      modifies this
      ensures View() == Step(old(View()), e)
    {
      match e {
        case Discover(key, now) =>
          DiscoverBedrockModels(key, now);
        case Settle(f, outcome) =>
          if f < |fetches| && fetches[f].outcome.Pending? {
            SettleFetch(f, outcome);
          }
        case Resume(f) =>
          if f < |fetches| && !fetches[f].outcome.Pending? && !fetches[f].resumed {
            ResumeInitiator(f);
          }
      }
    }
  }

  /** Of two fetches of one key, with a positive interval, one has come to its end. */
  ghost predicate OneUnderWay(fetches: seq<Fetch>) {
    forall f, g :: 0 <= f < g < |fetches| && fetches[f].key == fetches[g].key && fetches[f].key.refreshInterval > 0 ==>
      fetches[f].resumed || fetches[g].resumed
  }

  /** Every list served from the cache was in time, and callers sharing a fetch are told the
      same. */
  ghost predicate AnswersOk(s: System) {
    && (forall i :: 0 <= i < |s.callers| && s.callers[i].route.Served? ==> ServedInTime(s, s.callers[i]))
    && (forall i, j :: 0 <= i < |s.callers| && 0 <= j < |s.callers| && SharesFetch(s.callers[i], s.callers[j]) ==>
          SharedAnswers(s, s.callers[i], s.callers[j]))
  }

  lemma RunAnswersOk(es: seq<Event>)
    ensures AnswersOk(Run(INITIAL, es)) && OneUnderWay(Run(INITIAL, es).fetches)
  {
    var s := Run(INITIAL, es);
    forall i | 0 <= i < |s.callers| && s.callers[i].route.Served? ensures ServedInTime(s, s.callers[i]) {
      ServedIsFresh(es, i);
    }
    forall i, j | 0 <= i < |s.callers| && 0 <= j < |s.callers| && SharesFetch(s.callers[i], s.callers[j])
      ensures SharedAnswers(s, s.callers[i], s.callers[j])
    {
      SharedOutcome(es, i, j);
    }
    forall f, g | 0 <= f < g < |s.fetches| && s.fetches[f].key == s.fetches[g].key && s.fetches[f].key.refreshInterval > 0
      ensures s.fetches[f].resumed || s.fetches[g].resumed
    {
      if !s.fetches[f].resumed && !s.fetches[g].resumed {
        OneFetchInFlight(es, f, g);
      }
    }
  }

  /** The extension's own fields after any interleaving of calls, fetch results and
      continuations. */
  method Interleave(es: seq<Event>) returns (d: Discovery)
    ensures fresh(d) && d.View() == Run(INITIAL, es)
    ensures OneUnderWay(d.fetches) && AnswersOk(d.View())
    ensures d.warnings == if exists f :: 0 <= f < |d.fetches| && d.fetches[f].resumed && d.fetches[f].outcome.Failed? then 1 else 0
  {
    d := new Discovery();
    for i := 0 to |es|
      invariant fresh(d) && Run(d.View(), es[i..]) == Run(INITIAL, es)
    {
      assert es[i..][0] == es[i] && es[i..][1..] == es[i + 1..];
      d.Handle(es[i]);
    }
    WarnsOnce(es);
    RunAnswersOk(es);
  }
}
