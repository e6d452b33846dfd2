/** The recall cache of the active-memory plugin (extensions/active-memory/index.ts):
    a time-to-live cache in an insertion-ordered map with oldest-first eviction. */
module RecallCache {
  import opened Wrappers

  const DEFAULT_MAX_CACHE_ENTRIES: nat := 1000

  /** An entry of the map, and also the record of one `set`. */
  datatype Item = Item(key: string, expiresAt: int, result: string)

  // ---------------------------------------------------------------- the ordered map

  function Find(items: seq<Item>, key: string): Option<Item> {
    if items == [] then None
    else if items[0].key == key then Some(items[0])
    else Find(items[1..], key)
  }

  function Delete(items: seq<Item>, key: string): seq<Item> {
    if items == [] then []
    else (if items[0].key == key then [] else [items[0]]) + Delete(items[1..], key)
  }

  /** Drops what has expired at `now`. */
  function Sweep(items: seq<Item>, now: int): seq<Item> {
    if items == [] then []
    else (if items[0].expiresAt <= now then [] else [items[0]]) + Sweep(items[1..], now)
  }

  /** The eviction loop; it stops at an empty key. */
  function Evict(items: seq<Item>): seq<Item> {
    if |items| > DEFAULT_MAX_CACHE_ENTRIES && items[0].key != "" then Evict(items[1..]) else items
  }

  function AfterGet(items: seq<Item>, key: string, now: int): seq<Item> {
    match Find(items, key)
    case None => items
    case Some(item) => if item.expiresAt <= now then Delete(items, key) else items
  }

  function Lookup(items: seq<Item>, key: string, now: int): Option<string> {
    match Find(items, key)
    case None => None
    case Some(item) => if item.expiresAt <= now then None else Some(item.result)
  }

  /** `setCachedResult`, which reads the clock once to sweep and once to stamp the entry. */
  function AfterSet(items: seq<Item>, key: string, result: string, ttl: int, sweepAt: int, now: int): seq<Item> {
    Evict(Delete(Sweep(items, sweepAt), key) + [Item(key, now + ttl, result)])
  }

  class RecallCache {
    var items: seq<Item>

    constructor ()
      ensures items == []
    {
      items := [];
    }

    method GetCachedResult(key: string, now: int) returns (r: Option<string>)
      modifies this
      ensures r == Lookup(old(items), key, now) && items == AfterGet(old(items), key, now)
    {
      var cached := Find(items, key);
      if cached.None? {
        return None;
      }
      if cached.value.expiresAt <= now {
        items := Delete(items, key);
        return None;
      }
      return Some(cached.value.result);
    }

    /** The loop deletes from the map it walks. */
    method SweepExpiredCacheEntries(now: int)
      modifies this
      ensures items == Sweep(old(items), now)
    {
      var i := 0;
      while i < |items|
        invariant i <= |items|
        invariant items[..i] + Sweep(items[i..], now) == Sweep(old(items), now)
        decreases |items| - i
      {
        assert items[i..][0] == items[i] && items[i..][1..] == items[i + 1..];
        if items[i].expiresAt <= now {
          assert (items[..i] + items[i + 1..])[..i] == items[..i];
          assert (items[..i] + items[i + 1..])[i..] == items[i + 1..];
          items := items[..i] + items[i + 1..];
        } else {
          assert items[..i + 1] == items[..i] + [items[i]];
          i := i + 1;
        }
      }
      assert items[i..] == [] && items[..i] == items;
    }

    method SetCachedResult(key: string, result: string, ttlMs: int, sweepAt: int, now: int)
      modifies this
      ensures items == AfterSet(old(items), key, result, ttlMs, sweepAt, now)
    {
      SweepExpiredCacheEntries(sweepAt);
      DeleteAbsent(items, key);
      if Find(items, key).Some? {
        items := Delete(items, key);
      }
      items := items + [Item(key, now + ttlMs, result)];
      ghost var full := items;
      while |items| > DEFAULT_MAX_CACHE_ENTRIES
        invariant Evict(items) == Evict(full)
        decreases |items|
      {
        var oldestKey := items[0].key;
        if oldestKey == "" {
          break;
        }
        items := items[1..];
      }
    }
  }

  lemma {:induction false} DeleteAbsent(items: seq<Item>, key: string)
    ensures Find(items, key).None? ==> Delete(items, key) == items
  {
    if items != [] {
      DeleteAbsent(items[1..], key);
    }
  }

  // ---------------------------------------------------------------- the history of sets

  /** `sets[n]` is the last set of its key. */
  ghost predicate IsLatest(sets: seq<Item>, n: nat) {
    n < |sets| && forall m :: n < m < |sets| ==> sets[m].key != sets[n].key
  }

  ghost function KeysAfter(sets: seq<Item>, n: nat): set<string> {
    set m | n < m < |sets| :: sets[m].key
  }

  /** `at` gives for each cached item its position in the history. */
  ghost predicate Positions(sets: seq<Item>, items: seq<Item>, at: seq<nat>) {
    && |at| == |items|
    && (forall i :: 0 <= i < |at| ==> IsLatest(sets, at[i]) && sets[at[i]] == items[i])
    && (forall i, j :: 0 <= i < j < |at| ==> at[i] < at[j])
  }

  /** The last set of a key is cached, has expired, or was pushed out by 1000 other keys. */
  ghost predicate Accounted(sets: seq<Item>, at: seq<nat>, now: int) {
    forall n: nat {:trigger IsLatest(sets, n)} :: IsLatest(sets, n) ==>
      n in at || sets[n].expiresAt <= now || |KeysAfter(sets, n)| >= DEFAULT_MAX_CACHE_ENTRIES
  }

  ghost predicate Agrees(sets: seq<Item>, items: seq<Item>, at: seq<nat>, now: int) {
    && Positions(sets, items, at)
    && Accounted(sets, at, now)
    && |items| <= DEFAULT_MAX_CACHE_ENTRIES
    && (forall n :: 0 <= n < |sets| ==> sets[n].key != "")
  }

  lemma {:induction false} FindAt(items: seq<Item>, key: string)
    ensures Find(items, key).Some? ==> exists i :: 0 <= i < |items| && items[i] == Find(items, key).value && items[i].key == key
    ensures Find(items, key).None? ==> forall i :: 0 <= i < |items| ==> items[i].key != key
  {
    if items != [] && items[0].key != key {
      FindAt(items[1..], key);
      if Find(items, key).Some? {
        var i :| 0 <= i < |items[1..]| && items[1..][i] == Find(items, key).value && items[1..][i].key == key;
        assert items[i + 1].key == key;
      }
      forall i | 0 <= i < |items| && Find(items, key).None? ensures items[i].key != key {
        if i > 0 {
          assert items[i] == items[1..][i - 1];
        }
      }
    }
  }

  lemma AccountedLater(sets: seq<Item>, at: seq<nat>, now: int, now': int)
    requires Accounted(sets, at, now) && now <= now'
    ensures Accounted(sets, at, now')
  {
  }

  /** Sweeping keeps the positions of what stays; what goes has expired. */
  lemma {:induction false} SweepPositions(sets: seq<Item>, items: seq<Item>, at: seq<nat>, now: int) returns (at': seq<nat>)
    requires Positions(sets, items, at)
    ensures Positions(sets, Sweep(items, now), at')
    ensures forall n :: n in at' ==> n in at
    ensures forall n :: n in at && n !in at' ==> n < |sets| && sets[n].expiresAt <= now
    ensures |Sweep(items, now)| <= |items|
  {
    if items == [] {
      at' := [];
    } else {
      PositionsTail(sets, items, at);
      var rest := SweepPositions(sets, items[1..], at[1..], now);
      at' := rest;
      if items[0].expiresAt > now {
        PositionsCons(sets, items[0], at[0], Sweep(items[1..], now), rest);
        at' := [at[0]] + rest;
      }
    }
  }

  lemma PositionsTail(sets: seq<Item>, items: seq<Item>, at: seq<nat>)
    requires Positions(sets, items, at) && items != []
    ensures Positions(sets, items[1..], at[1..])
    ensures IsLatest(sets, at[0]) && sets[at[0]] == items[0]
    ensures forall n :: n in at[1..] ==> at[0] < n
    ensures forall n :: n in at <==> n == at[0] || n in at[1..]
  {
    assert at == [at[0]] + at[1..];
  }

  lemma PositionsCons(sets: seq<Item>, item: Item, n: nat, items: seq<Item>, at: seq<nat>)
    requires Positions(sets, items, at) && IsLatest(sets, n) && sets[n] == item
    requires forall m :: m in at ==> n < m
    ensures Positions(sets, [item] + items, [n] + at)
  {
    forall j | 0 < j <= |at| ensures n < ([n] + at)[j] {
      assert at[j - 1] in at;
    }
  }

  /** Deleting a key keeps the positions of the other keys. */
  lemma {:induction false} DeletePositions(sets: seq<Item>, items: seq<Item>, at: seq<nat>, key: string) returns (at': seq<nat>)
    requires Positions(sets, items, at)
    ensures Positions(sets, Delete(items, key), at')
    ensures forall n :: n in at' ==> n in at && sets[n].key != key
    ensures forall n :: n in at && n !in at' ==> n < |sets| && sets[n].key == key
    ensures |Delete(items, key)| <= |items|
  {
    if items == [] {
      at' := [];
    } else {
      PositionsTail(sets, items, at);
      var rest := DeletePositions(sets, items[1..], at[1..], key);
      at' := rest;
      if items[0].key != key {
        PositionsCons(sets, items[0], at[0], Delete(items[1..], key), rest);
        at' := [at[0]] + rest;
      }
    }
  }

  // ---------------------------------------------------------------- one set

  lemma OneLatest(sets: seq<Item>, a: nat, b: nat)
    requires IsLatest(sets, a) && IsLatest(sets, b) && sets[a].key == sets[b].key
    ensures a == b
  {
  }

  /** The items from position `i` on hold that many different keys, all set after `at[i - 1]`. */
  lemma {:induction false} KeysBehind(sets: seq<Item>, items: seq<Item>, at: seq<nat>, n: nat)
    requires Positions(sets, items, at) && forall i :: 0 <= i < |at| ==> n < at[i]
    ensures |KeysAfter(sets, n)| >= |items|
    decreases |items|
  {
    if items != [] {
      PositionsTail(sets, items, at);
      KeysBehind(sets, items[1..], at[1..], at[0]);
      assert sets[at[0]].key !in KeysAfter(sets, at[0]);
      assert KeysAfter(sets, at[0]) + {sets[at[0]].key} <= KeysAfter(sets, n);
      SubsetSize(KeysAfter(sets, at[0]) + {sets[at[0]].key}, KeysAfter(sets, n));
    }
  }

  lemma {:induction false} SubsetSize(a: set<string>, b: set<string>)
    requires a <= b
    ensures |a| <= |b|
  {
    assert b == a + (b - a);
    assert |b| == |a| + |b - a|;
  }

  lemma PositionsGrow(sets: seq<Item>, items: seq<Item>, at: seq<nat>, x: Item)
    requires Positions(sets, items, at) && forall i :: 0 <= i < |at| ==> sets[at[i]].key != x.key
    ensures Positions(sets + [x], items + [x], at + [|sets|])
  {
    var sets' := sets + [x];
    forall i | 0 <= i < |at| ensures IsLatest(sets', at[i]) && sets'[at[i]] == items[i] {
      assert IsLatest(sets, at[i]);
    }
  }

  lemma AccountedGrow(sets: seq<Item>, at: seq<nat>, at': seq<nat>, x: Item, now: int)
    requires Accounted(sets, at, now)
    requires forall n: nat :: IsLatest(sets, n) && n in at && sets[n].key != x.key ==> n in at' || sets[n].expiresAt <= now
    ensures Accounted(sets + [x], at' + [|sets|], now)
  {
    var sets' := sets + [x];
    forall n: nat | IsLatest(sets', n)
      ensures n in at' + [|sets|] || sets'[n].expiresAt <= now || |KeysAfter(sets', n)| >= DEFAULT_MAX_CACHE_ENTRIES
    {
      if n == |sets| {
        assert (at' + [|sets|])[|at'|] == n;
      } else {
        assert sets'[|sets|].key != sets'[n].key;
        forall m | n < m < |sets| ensures sets[m].key != sets[n].key {
          assert sets'[m] == sets[m];
        }
        assert IsLatest(sets, n);
        forall k | k in KeysAfter(sets, n) ensures k in KeysAfter(sets', n) {
          var m :| n < m < |sets| && sets[m].key == k;
          assert sets'[m].key == k;
        }
        SubsetSize(KeysAfter(sets, n), KeysAfter(sets', n));
      }
    }
  }

  /** At most one entry is evicted, and 1000 other keys have been set since. */
  lemma EvictAgrees(sets: seq<Item>, items: seq<Item>, at: seq<nat>, now: int) returns (at': seq<nat>)
    requires Positions(sets, items, at) && Accounted(sets, at, now)
    requires |items| <= DEFAULT_MAX_CACHE_ENTRIES + 1
    requires forall n :: 0 <= n < |sets| ==> sets[n].key != ""
    ensures Agrees(sets, Evict(items), at', now)
  {
    at' := at;
    if |items| > DEFAULT_MAX_CACHE_ENTRIES {
      at' := at[1..];
      assert items[0] == sets[at[0]];
      assert Evict(items) == Evict(items[1..]) == items[1..];
      PositionsTail(sets, items, at);
      KeysBehind(sets, items[1..], at[1..], at[0]);
      forall n: nat | IsLatest(sets, n)
        ensures n in at' || sets[n].expiresAt <= now || |KeysAfter(sets, n)| >= DEFAULT_MAX_CACHE_ENTRIES
      {
        if n in at && n !in at' {
          assert at == [at[0]] + at[1..];
        }
      }
    }
  }

  lemma SetAgrees(sets: seq<Item>, items: seq<Item>, at: seq<nat>, before: int,
                  key: string, result: string, ttl: int, sweepAt: int, now: int) returns (at': seq<nat>)
    requires Agrees(sets, items, at, before) && before <= sweepAt <= now && key != ""
    ensures Agrees(sets + [Item(key, now + ttl, result)], AfterSet(items, key, result, ttl, sweepAt, now), at', now)
  {
    var x := Item(key, now + ttl, result);
    AccountedLater(sets, at, before, now);
    var swept := SweepPositions(sets, items, at, sweepAt);
    var kept := DeletePositions(sets, Sweep(items, sweepAt), swept, key);
    PositionsGrow(sets, Delete(Sweep(items, sweepAt), key), kept, x);
    AccountedGrow(sets, at, kept, x, now);
    at' := EvictAgrees(sets + [x], Delete(Sweep(items, sweepAt), key) + [x], kept + [|sets|], now);
  }

  // ---------------------------------------------------------------- one get

  lemma GetAgrees(sets: seq<Item>, items: seq<Item>, at: seq<nat>, before: int, key: string, now: int)
    returns (at': seq<nat>)
    requires Agrees(sets, items, at, before) && before <= now
    ensures Agrees(sets, AfterGet(items, key, now), at', now)
  {
    AccountedLater(sets, at, before, now);
    at' := at;
    FindAt(items, key);
    if Find(items, key).Some? && Find(items, key).value.expiresAt <= now {
      var i :| 0 <= i < |items| && items[i] == Find(items, key).value && items[i].key == key;
      at' := DeletePositions(sets, items, at, key);
      forall n: nat | IsLatest(sets, n)
        ensures n in at' || sets[n].expiresAt <= now || |KeysAfter(sets, n)| >= DEFAULT_MAX_CACHE_ENTRIES
      {
        if n in at && n !in at' {
          var m := at[i];
          assert IsLatest(sets, m) && sets[m].key == key == sets[n].key;
          assert m == n;
        }
      }
    }
  }

  // ---------------------------------------------------------------- whole traces

  datatype Op = Get(key: string, now: int) | Set(key: string, result: string, ttl: int, sweepAt: int, now: int)

  datatype Trace = Trace(items: seq<Item>, sets: seq<Item>, clock: int)

  function Apply(t: Trace, op: Op): Trace {
    match op
    case Get(key, now) => Trace(AfterGet(t.items, key, now), t.sets, now)
    case Set(key, result, ttl, sweepAt, now) =>
      Trace(AfterSet(t.items, key, result, ttl, sweepAt, now), t.sets + [Item(key, now + ttl, result)], now)
  }

  function ApplyAll(t: Trace, ops: seq<Op>): Trace
    decreases |ops|
  {
    if ops == [] then t else ApplyAll(Apply(t, ops[0]), ops[1..])
  }

  /** The clock never goes back, and keys are not empty. */
  predicate Orderly(clock: int, ops: seq<Op>)
    decreases |ops|
  {
    if ops == [] then true
    else
      match ops[0]
      case Get(_, now) => clock <= now && Orderly(now, ops[1..])
      case Set(key, _, _, sweepAt, now) => key != "" && clock <= sweepAt <= now && Orderly(now, ops[1..])
  }

  lemma {:induction false} TraceAgrees(t: Trace, ops: seq<Op>, at: seq<nat>) returns (at': seq<nat>)
    requires Agrees(t.sets, t.items, at, t.clock) && Orderly(t.clock, ops)
    ensures var t' := ApplyAll(t, ops); Agrees(t'.sets, t'.items, at', t'.clock)
    decreases |ops|
  {
    if ops == [] {
      at' := at;
    } else {
      var next;
      match ops[0] {
        case Get(key, now) =>
          next := GetAgrees(t.sets, t.items, at, t.clock, key, now);
        case Set(key, result, ttl, sweepAt, now) =>
          next := SetAgrees(t.sets, t.items, at, t.clock, key, result, ttl, sweepAt, now);
      }
      at' := TraceAgrees(Apply(t, ops[0]), ops[1..], next);
    }
  }

  /** The cache size stays within its limit. */
  lemma SizeBounded(clock: int, ops: seq<Op>)
    requires Orderly(clock, ops)
    ensures |ApplyAll(Trace([], [], clock), ops).items| <= DEFAULT_MAX_CACHE_ENTRIES
  {
    var at := TraceAgrees(Trace([], [], clock), ops, []);
  }

  /** What a lookup at `now` should give after these sets. */
  ghost predicate RightAnswer(sets: seq<Item>, key: string, now: int, answer: Option<string>) {
    match answer
    case Some(r) =>
      exists n: nat :: IsLatest(sets, n) && sets[n].key == key && sets[n].result == r && sets[n].expiresAt > now
    case None =>
      forall n: nat :: IsLatest(sets, n) && sets[n].key == key ==>
        sets[n].expiresAt <= now || |KeysAfter(sets, n)| >= DEFAULT_MAX_CACHE_ENTRIES
  }

  /** A hit is the value of the key's last set, not yet expired.  A miss means the key was
      never set, its last value has expired, or 1000 other keys have been set since. */
  lemma LookupAgrees(clock: int, ops: seq<Op>, key: string, now: int)
    requires Orderly(clock, ops)
    requires ApplyAll(Trace([], [], clock), ops).clock <= now
    ensures var t := ApplyAll(Trace([], [], clock), ops); RightAnswer(t.sets, key, now, Lookup(t.items, key, now))
  {
    var t := ApplyAll(Trace([], [], clock), ops);
    var at := TraceAgrees(Trace([], [], clock), ops, []);
    FindAt(t.items, key);
    if Lookup(t.items, key, now).Some? {
      var i :| 0 <= i < |t.items| && t.items[i] == Find(t.items, key).value && t.items[i].key == key;
      assert IsLatest(t.sets, at[i]);
    } else {
      forall n: nat | IsLatest(t.sets, n) && t.sets[n].key == key
        ensures t.sets[n].expiresAt <= now || |KeysAfter(t.sets, n)| >= DEFAULT_MAX_CACHE_ENTRIES
      {
        if n in at {
          var j :| 0 <= j < |at| && at[j] == n;
          assert t.items[j].key == key;
          SameLatest(t.sets, t.items, at, j, key);
        }
      }
    }
  }

  /** A cached key is found as its one entry. */
  lemma SameLatest(sets: seq<Item>, items: seq<Item>, at: seq<nat>, j: nat, key: string)
    requires Positions(sets, items, at) && j < |items| && items[j].key == key
    ensures Find(items, key) == Some(items[j])
  {
    FindAt(items, key);
    var i :| 0 <= i < |items| && items[i] == Find(items, key).value && items[i].key == key;
    OneLatest(sets, at[i], at[j]);
  }

  // ---------------------------------------------------------------- the plugin's own lookups

  /** What a recall is asked for. */
  datatype Query = Query(agentId: string, sessionKey: Option<string>, sessionId: Option<string>, text: string)

  function BuildCacheKey(hash: string -> string, q: Query): (key: string)
    ensures key != ""
  {
    var session := match q.sessionKey
                   case Some(key) => key
                   case None => match q.sessionId case Some(id) => id case None => "none";
    q.agentId + ":" + session + ":" + hash(q.text)
  }

  /** A lookup or a stored result; storing reads the clock before the sweep and after it. */
  datatype Use = LookUp(query: Query, now: int) | Keep(query: Query, result: string, ttl: int, sweepAt: int, now: int)

  function OpsOf(hash: string -> string, uses: seq<Use>): seq<Op> {
    if uses == [] then []
    else
      var op := match uses[0]
                case LookUp(q, now) => Get(BuildCacheKey(hash, q), now)
                case Keep(q, result, ttl, sweepAt, now) => Set(BuildCacheKey(hash, q), result, ttl, sweepAt, now);
      [op] + OpsOf(hash, uses[1..])
  }

  /** The clock never goes back. */
  predicate ClockRuns(clock: int, uses: seq<Use>)
    decreases |uses|
  {
    if uses == [] then true
    else clock <= uses[0].now && (uses[0].Keep? ==> clock <= uses[0].sweepAt <= uses[0].now) && ClockRuns(uses[0].now, uses[1..])
  }

  lemma {:induction false} UsesAreOrderly(hash: string -> string, clock: int, uses: seq<Use>)
    requires ClockRuns(clock, uses)
    ensures Orderly(clock, OpsOf(hash, uses))
    decreases |uses|
  {
    if uses != [] {
      UsesAreOrderly(hash, uses[0].now, uses[1..]);
      assert OpsOf(hash, uses)[1..] == OpsOf(hash, uses[1..]);
    }
  }

  /** Whatever the plugin looked up and stored before, looking a query up agrees with the
      timed history of what was stored under its key. */
  lemma QueryAgrees(hash: string -> string, clock: int, uses: seq<Use>, q: Query, now: int)
    requires ClockRuns(clock, uses) && ApplyAll(Trace([], [], clock), OpsOf(hash, uses)).clock <= now
    ensures var t, key := ApplyAll(Trace([], [], clock), OpsOf(hash, uses)), BuildCacheKey(hash, q);
            RightAnswer(t.sets, key, now, Lookup(t.items, key, now))
  {
    UsesAreOrderly(hash, clock, uses);
    LookupAgrees(clock, OpsOf(hash, uses), BuildCacheKey(hash, q), now);
  }

  // ---------------------------------------------------------------- what a key stands for

  /** The session of a query: its key, else its id, else `none`. */
  ghost predicate InSession(q: Query, session: string) {
    || q.sessionKey == Some(session)
    || (q.sessionKey == None && q.sessionId == Some(session))
    || (q.sessionKey == None && q.sessionId == None && session == "none")
  }

  /** The same text, asked under the same agent and session as they are written in a key. */
  ghost predicate Alike(q: Query, r: Query) {
    q.text == r.text && exists s, s' :: InSession(q, s) && InSession(r, s') && q.agentId + ":" + s == r.agentId + ":" + s'
  }

  ghost predicate SameCaller(q: Query, r: Query) {
    q.text == r.text && q.agentId == r.agentId && exists s :: InSession(q, s) && InSession(r, s)
  }

  /** A hash without collisions whose digests have no colon. */
  ghost predicate Perfect(hash: string -> string) {
    && (forall x :: ':' !in hash(x))
    && forall x, y :: hash(x) == hash(y) ==> x == y
  }

  lemma LastColon(s: string, a: string, x: string)
    requires s == a + ":" + x && ':' !in x
    ensures |a| < |s| && s[|a|] == ':' && s[..|a|] == a && s[|a| + 1..] == x
    ensures forall i :: |a| < i < |s| ==> s[i] != ':'
  {
    forall i | |a| < i < |s| ensures s[i] != ':' {
      assert s[i] == x[i - |a| - 1];
    }
  }

  lemma CutAtLast(a: string, b: string, x: string, y: string)
    requires a + ":" + x == b + ":" + y && ':' !in x && ':' !in y
    ensures a == b && x == y
  {
    LastColon(a + ":" + x, a, x);
    LastColon(a + ":" + x, b, y);
  }

  lemma KeyInSession(hash: string -> string, q: Query) returns (s: string)
    ensures InSession(q, s) && forall s' :: InSession(q, s') ==> s' == s
    ensures BuildCacheKey(hash, q) == q.agentId + ":" + s + ":" + hash(q.text)
  {
    s := match q.sessionKey
         case Some(key) => key
         case None => match q.sessionId case Some(id) => id case None => "none";
  }

  /** Two queries share a key exactly when they ask the same text under the same agent and
      session, as far as the joined text tells them apart. */
  lemma SameKeyExactly(hash: string -> string, q: Query, r: Query)
    requires Perfect(hash)
    ensures BuildCacheKey(hash, q) == BuildCacheKey(hash, r) <==> Alike(q, r)
  {
    var s := KeyInSession(hash, q);
    var s' := KeyInSession(hash, r);
    if BuildCacheKey(hash, q) == BuildCacheKey(hash, r) {
      CutAtLast(q.agentId + ":" + s, r.agentId + ":" + s', hash(q.text), hash(r.text));
    }
  }

  lemma FirstColon(s: string, a: string, x: string)
    requires s == a + ":" + x && ':' !in a
    ensures |a| < |s| && s[|a|] == ':' && s[..|a|] == a && s[|a| + 1..] == x
    ensures forall i :: 0 <= i < |a| ==> s[i] != ':'
  {
    forall i | 0 <= i < |a| ensures s[i] != ':' {
      assert s[i] == a[i];
    }
  }

  lemma CutAtFirst(a: string, b: string, x: string, y: string)
    requires a + ":" + x == b + ":" + y && ':' !in a && ':' !in b
    ensures a == b && x == y
  {
    FirstColon(a + ":" + x, a, x);
    FirstColon(a + ":" + x, b, y);
  }

  /** Sessions of one agent are kept apart, and so are agents whose ids have no colon. */
  lemma CallersApart(q: Query, r: Query)
    requires q.agentId == r.agentId || (':' !in q.agentId && ':' !in r.agentId)
    ensures Alike(q, r) <==> SameCaller(q, r)
  {
    if Alike(q, r) {
      var s, s' :| InSession(q, s) && InSession(r, s') && q.agentId + ":" + s == r.agentId + ":" + s';
      if q.agentId == r.agentId {
        assert (q.agentId + ":" + s)[|q.agentId| + 1..] == s && (r.agentId + ":" + s')[|q.agentId| + 1..] == s';
      } else {
        CutAtFirst(q.agentId, r.agentId, s, s');
      }
    }
  }

  /** With a colon in an agent id two callers can share a key. */
  lemma CallersShareKey() returns (q: Query, r: Query)
    ensures q == Query("a", Some("b:c"), None, "x") && r == Query("a:b", Some("c"), None, "x")
    ensures Alike(q, r) && !SameCaller(q, r)
  {
    q, r := Query("a", Some("b:c"), None, "x"), Query("a:b", Some("c"), None, "x");
    assert InSession(q, "b:c") && InSession(r, "c");
    assert "a" + ":" + "b:c" == "a:b" + ":" + "c";
  }

  // ---------------------------------------------------------------- the history of queries

  /** Use `n` stored the last result for a query like `q`. */
  ghost predicate KeptLast(uses: seq<Use>, n: nat, q: Query) {
    && n < |uses| && uses[n].Keep? && Alike(uses[n].query, q)
    && forall m :: n < m < |uses| && uses[m].Keep? ==> !Alike(uses[m].query, q)
  }

  ghost function QueriesAfter(uses: seq<Use>, n: nat): set<Query> {
    set m | n < m < |uses| && uses[m].Keep? :: uses[m].query
  }

  /** A hit is the last result kept for such a query, within its time; a miss means that there
      is none, that its time is over, or that 1000 different queries were kept since. */
  ghost predicate RightRecall(uses: seq<Use>, q: Query, now: int, answer: Option<string>) {
    match answer
    case Some(r) => exists n: nat :: KeptLast(uses, n, q) && uses[n].result == r && uses[n].now + uses[n].ttl > now
    case None =>
      forall n: nat :: KeptLast(uses, n, q) ==> uses[n].now + uses[n].ttl <= now || |QueriesAfter(uses, n)| >= 1000
  }

  /** `sets` are what the uses stored, and `at` says which use each of them was. */
  ghost predicate Listed(hash: string -> string, uses: seq<Use>, sets: seq<Item>, at: seq<nat>) {
    && |at| == |sets|
    && (forall i, j :: 0 <= i < j < |at| ==> at[i] < at[j])
    && (forall i :: 0 <= i < |at| ==>
          at[i] < |uses| && uses[at[i]].Keep? && sets[i] == StoredBy(hash, uses[at[i]]))
    && (forall m :: 0 <= m < |uses| && uses[m].Keep? ==> m in at)
  }

  function StoredBy(hash: string -> string, use: Use): Item
    requires use.Keep?
  {
    Item(BuildCacheKey(hash, use.query), use.now + use.ttl, use.result)
  }

  lemma ListedGrows(hash: string -> string, uses: seq<Use>, use: Use, sets: seq<Item>, at: seq<nat>)
    requires Listed(hash, uses, sets, at)
    ensures use.Keep? ==> Listed(hash, uses + [use], sets + [StoredBy(hash, use)], at + [|uses|])
    ensures use.LookUp? ==> Listed(hash, uses + [use], sets, at)
  {
    var all := uses + [use];
    assert forall m :: 0 <= m < |uses| ==> all[m] == uses[m];
    assert forall m :: m in at ==> m in at + [|uses|];
    assert |uses| in at + [|uses|];
  }

  lemma {:induction false} OpsGrow(hash: string -> string, uses: seq<Use>, use: Use)
    ensures OpsOf(hash, uses + [use]) == OpsOf(hash, uses) + OpsOf(hash, [use])
  {
    if uses == [] {
      assert uses + [use] == [use];
    } else {
      OpsGrow(hash, uses[1..], use);
      assert (uses + [use])[1..] == uses[1..] + [use];
    }
  }

  lemma {:induction false} ApplyMore(t: Trace, ops: seq<Op>, more: seq<Op>)
    ensures ApplyAll(t, ops + more) == ApplyAll(ApplyAll(t, ops), more)
    decreases |ops|
  {
    if ops == [] {
      assert ops + more == more;
    } else {
      assert (ops + more)[1..] == ops[1..] + more;
      ApplyMore(Apply(t, ops[0]), ops[1..], more);
    }
  }

  lemma OneMore(hash: string -> string, t: Trace, use: Use)
    ensures ApplyAll(t, OpsOf(hash, [use])).sets == t.sets + if use.Keep? then [StoredBy(hash, use)] else []
  {
    assert OpsOf(hash, [use])[1..] == [];
  }

  lemma {:induction false} KeepsListed(hash: string -> string, clock: int, uses: seq<Use>) returns (at: seq<nat>)
    ensures Listed(hash, uses, ApplyAll(Trace([], [], clock), OpsOf(hash, uses)).sets, at)
    decreases |uses|
  {
    if uses == [] {
      at := [];
    } else {
      var front, last := uses[..|uses| - 1], uses[|uses| - 1];
      var t := ApplyAll(Trace([], [], clock), OpsOf(hash, front));
      at := KeepsListed(hash, clock, front);
      assert uses == front + [last];
      OpsGrow(hash, front, last);
      ApplyMore(Trace([], [], clock), OpsOf(hash, front), OpsOf(hash, [last]));
      OneMore(hash, t, last);
      ListedGrows(hash, front, last, t.sets, at);
      if last.Keep? {
        at := at + [|front|];
      }
    }
  }

  lemma {:induction false} KeysOfQueries(hash: string -> string, queries: set<Query>, keys: set<string>)
    requires forall key :: key in keys ==> exists q :: q in queries && BuildCacheKey(hash, q) == key
    ensures |keys| <= |queries|
  {
    if keys != {} {
      var key :| key in keys;
      var q :| q in queries && BuildCacheKey(hash, q) == key;
      forall k | k in keys - {key} ensures exists r :: r in queries - {q} && BuildCacheKey(hash, r) == k {
        var r :| r in queries && BuildCacheKey(hash, r) == k;
        assert r in queries - {q};
      }
      KeysOfQueries(hash, queries - {q}, keys - {key});
    }
  }

  /** Of the sets of a key, the last one was made by the last use for a query like `q`. */
  lemma LatestIsKeptLast(hash: string -> string, uses: seq<Use>, sets: seq<Item>, at: seq<nat>, q: Query, i: nat)
    requires Perfect(hash) && Listed(hash, uses, sets, at) && i < |at|
    ensures KeptLast(uses, at[i], q) <==> IsLatest(sets, i) && sets[i].key == BuildCacheKey(hash, q)
  {
    forall j | 0 <= j < |at| ensures sets[j].key == BuildCacheKey(hash, q) <==> Alike(uses[at[j]].query, q) {
      SameKeyExactly(hash, uses[at[j]].query, q);
    }
    if KeptLast(uses, at[i], q) {
      forall m | i < m < |sets| ensures sets[m].key != sets[i].key {
        assert at[i] < at[m];
      }
    }
    if IsLatest(sets, i) && sets[i].key == BuildCacheKey(hash, q) {
      forall m | at[i] < m < |uses| && uses[m].Keep? ensures !Alike(uses[m].query, q) {
        var j :| 0 <= j < |at| && at[j] == m;
        assert i < j;
      }
    }
  }

  lemma EnoughQueries(hash: string -> string, uses: seq<Use>, sets: seq<Item>, at: seq<nat>, i: nat)
    requires Listed(hash, uses, sets, at) && i < |at|
    ensures |KeysAfter(sets, i)| <= |QueriesAfter(uses, at[i])|
  {
    forall key | key in KeysAfter(sets, i)
      ensures exists q :: q in QueriesAfter(uses, at[i]) && BuildCacheKey(hash, q) == key
    {
      var m :| i < m < |sets| && sets[m].key == key;
      assert at[i] < at[m];
      assert uses[at[m]].query in QueriesAfter(uses, at[i]);
    }
    KeysOfQueries(hash, QueriesAfter(uses, at[i]), KeysAfter(sets, i));
  }

  /** A right answer about a key's sets is a right answer about the queries. */
  lemma RightForQueries(hash: string -> string, uses: seq<Use>, sets: seq<Item>, at: seq<nat>, q: Query, now: int, answer: Option<string>)
    requires Perfect(hash) && Listed(hash, uses, sets, at)
    requires RightAnswer(sets, BuildCacheKey(hash, q), now, answer)
    ensures RightRecall(uses, q, now, answer)
  {
    var key := BuildCacheKey(hash, q);
    match answer {
      case Some(r) =>
        var n: nat :| IsLatest(sets, n) && sets[n].key == key && sets[n].result == r && sets[n].expiresAt > now;
        LatestIsKeptLast(hash, uses, sets, at, q, n);
        assert KeptLast(uses, at[n], q);
      case None =>
        forall n: nat | KeptLast(uses, n, q)
          ensures uses[n].now + uses[n].ttl <= now || |QueriesAfter(uses, n)| >= 1000
        {
          var i :| 0 <= i < |at| && at[i] == n;
          LatestIsKeptLast(hash, uses, sets, at, q, i);
          EnoughQueries(hash, uses, sets, at, i);
        }
    }
  }

  /** The plugin's cache after any history of lookups and stored results: it is within its
      limit and answers the next query rightly. */
  method Recall(hash: string -> string, clock: int, uses: seq<Use>, q: Query, now: int)
    returns (cache: RecallCache, r: Option<string>)
    requires ClockRuns(clock, uses) && ApplyAll(Trace([], [], clock), OpsOf(hash, uses)).clock <= now
    ensures fresh(cache) && |cache.items| <= DEFAULT_MAX_CACHE_ENTRIES
    ensures RightAnswer(ApplyAll(Trace([], [], clock), OpsOf(hash, uses)).sets, BuildCacheKey(hash, q), now, r)
    ensures Perfect(hash) ==> RightRecall(uses, q, now, r)
  {
    cache := new RecallCache();
    var ops := OpsOf(hash, uses);
    ghost var t := Trace([], [], clock);
    for i := 0 to |ops|
      invariant fresh(cache) && t.items == cache.items
      invariant ApplyAll(t, ops[i..]) == ApplyAll(Trace([], [], clock), ops)
    {
      assert ops[i..][0] == ops[i] && ops[i..][1..] == ops[i + 1..];
      t := Apply(t, ops[i]);
      match ops[i] {
        case Get(key, at) =>
          var _ := cache.GetCachedResult(key, at);
        case Set(key, result, ttl, sweepAt, at) =>
          cache.SetCachedResult(key, result, ttl, sweepAt, at);
      }
    }
    UsesAreOrderly(hash, clock, uses);
    SizeBounded(clock, ops);
    QueryAgrees(hash, clock, uses, q, now);
    GetShrinks(cache.items, BuildCacheKey(hash, q), now);
    r := cache.GetCachedResult(BuildCacheKey(hash, q), now);
    if Perfect(hash) {
      ghost var at := KeepsListed(hash, clock, uses);
      RightForQueries(hash, uses, ApplyAll(Trace([], [], clock), ops).sets, at, q, now, r);
    }
  }

  lemma GetShrinks(items: seq<Item>, key: string, now: int)
    ensures |AfterGet(items, key, now)| <= |items|
  {
    DeleteShrinks(items, key);
  }

  lemma {:induction false} DeleteShrinks(items: seq<Item>, key: string)
    ensures |Delete(items, key)| <= |items|
  {
    if items != [] {
      DeleteShrinks(items[1..], key);
    }
  }
}
