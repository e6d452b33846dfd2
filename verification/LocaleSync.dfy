/** The decision core of `syncLocale` (scripts/control-ui-i18n.ts): which value each key
    gets, which keys are recorded as English fallbacks, and what is written back. */
module LocaleSync {
  import opened JsText
  import opened TranslationBatches
  import opened BatchTranslation
  import opened StableSort
  import opened TranslationTree

  /** What a run reads besides the source: the flattened locale file, the recorded
      fallback keys, the translation memory, and the two switches. */
  datatype Inputs = Inputs(existing: map<string, string>, fallback: set<string>, tm: map<string, string>,
                           allowTranslate: bool, force: bool)

  /** `hash` is the hash of a source text, `cacheKey` the memory key of a segment and its hash. */
  datatype Keys = Keys(hash: string -> string, cacheKey: (string, string) -> string)

  ghost predicate Injective(k: Keys) {
    forall a, b, x, y {:trigger k.cacheKey(a, x), k.cacheKey(b, y)} ::
      k.cacheKey(a, x) == k.cacheKey(b, y) ==> a == b && x == y
  }

  function CacheKeyOf(k: Keys, f: Flat): string {
    k.cacheKey(f.key, k.hash(f.text))
  }

  function ItemOf(k: Keys, f: Flat): BatchItem {
    BatchItem(CacheKeyOf(k, f), f.key, f.text, k.hash(f.text))
  }

  /** The value taken over without translating, if any. */
  function Reused(k: Keys, d: Inputs, f: Flat): Result<string> {
    var refresh := d.allowTranslate && f.key in d.fallback;
    if CacheKeyOf(k, f) in d.tm && !refresh then Success(d.tm[CacheKeyOf(k, f)])
    else if f.key in d.existing && !refresh then Success(d.existing[f.key])
    else Failure("pending")
  }

  predicate Translated(translated: map<string, string>, f: Flat) {
    f.key in translated && translated[f.key] != ""
  }

  /** The value a key ends up with. */
  function ValueOf(k: Keys, d: Inputs, translated: map<string, string>, f: Flat): string {
    match Reused(k, d, f)
    case Success(v) => v
    case Failure(_) =>
      if Translated(translated, f) then translated[f.key]
      else if f.key in d.existing && !d.force then d.existing[f.key]
      else f.text
  }

  /** Whether a key is recorded as a fallback. */
  predicate FallsBack(k: Keys, d: Inputs, translated: map<string, string>, f: Flat) {
    match Reused(k, d, f)
    case Success(_) => f.key in d.fallback
    case Failure(_) =>
      if Translated(translated, f) then false
      else if f.key in d.existing && !d.force then f.key in d.fallback
      else true
  }

  /** The items left to translate, in source order. */
  function Pending(k: Keys, d: Inputs, source: seq<Flat>): seq<BatchItem> {
    if source == [] then []
    else
      var last := source[|source| - 1];
      Pending(k, d, source[..|source| - 1]) + (if Reused(k, d, last).Failure? then [ItemOf(k, last)] else [])
  }

  lemma {:induction false} PendingMembers(k: Keys, d: Inputs, source: seq<Flat>)
    ensures forall f :: f in source && Reused(k, d, f).Failure? ==> ItemOf(k, f) in Pending(k, d, source)
    ensures forall item :: item in Pending(k, d, source) ==>
              exists f :: f in source && Reused(k, d, f).Failure? && item == ItemOf(k, f)
  {
    if source != [] {
      var front, last := source[..|source| - 1], source[|source| - 1];
      PendingMembers(k, d, front);
      assert source == front + [last];
      forall item | item in Pending(k, d, source)
        ensures exists f :: f in source && Reused(k, d, f).Failure? && item == ItemOf(k, f)
      {
        if item in Pending(k, d, front) {
          var f :| f in front && Reused(k, d, f).Failure? && item == ItemOf(k, f);
          assert f in source;
        } else {
          assert last in source;
        }
      }
    }
  }

  function KeySet(source: seq<Flat>): set<string> {
    set f | f in source :: f.key
  }

  /** `fallback` is sorted; `tm` is the translation memory after the run. */
  datatype Outcome = Outcome(values: map<string, string>, fallback: seq<string>, tm: map<string, string>)

  ghost predicate NoRepeats(s: seq<string>) {
    forall i, j :: 0 <= i < j < |s| ==> s[i] != s[j]
  }

  /** What a completed run has decided, given the translations it received. */
  ghost predicate Decided(k: Keys, d: Inputs, translated: map<string, string>, source: seq<Flat>,
                          values: map<string, string>, fallback: seq<string>)
  {
    && values.Keys == KeySet(source)
    && (forall f :: f in source ==> values[f.key] == ValueOf(k, d, translated, f))
    && NoRepeats(fallback)
    && (forall key :: key in fallback ==> key in values)
    && (forall f :: f in source ==> (f.key in fallback <==> FallsBack(k, d, translated, f)))
  }

  /** The translations a run works with: none without a provider, else one non-blank
      text for every pending item. */
  ghost predicate Received(k: Keys, d: Inputs, source: seq<Flat>, translated: map<string, string>) {
    if d.allowTranslate then
      && translated.Keys == KeysOf(Pending(k, d, source))
      && (forall key :: key in translated ==> !IsBlank(translated[key]))
    else translated == map[]
  }

  /** The memory gains the received translations and loses nothing. */
  ghost predicate Remembered(k: Keys, d: Inputs, source: seq<Flat>, translated: map<string, string>, tm: map<string, string>) {
    && (forall f :: f in source && Reused(k, d, f).Failure? && f.key in translated ==>
          CacheKeyOf(k, f) in tm && tm[CacheKeyOf(k, f)] == translated[f.key])
    && (forall c :: c in d.tm ==> c in tm)
    && (forall c :: c in tm && !(c in d.tm && tm[c] == d.tm[c]) ==>
          exists f :: f in source && Reused(k, d, f).Failure? && f.key in translated && c == CacheKeyOf(k, f))
  }

  /** A completed run. */
  ghost predicate Completed(k: Keys, d: Inputs, source: seq<Flat>, translated: map<string, string>,
                            leq: (string, string) -> bool, o: Outcome)
  {
    && Received(k, d, source, translated)
    && Decided(k, d, translated, source, o.values, o.fallback)
    && Remembered(k, d, source, translated, o.tm)
    && SortedBy(leq, o.fallback)
  }

  // ---------------------------------------------------------------- the script's loops

  /** One round of the first loop: reuse what can be reused and queue the rest. */
  method ReuseSegment(k: Keys, d: Inputs, f: Flat, nextFlat: map<string, string>, pending: seq<BatchItem>, fallbackKeys: seq<string>)
    returns (nextFlat': map<string, string>, pending': seq<BatchItem>, fallbackKeys': seq<string>)
    ensures match Reused(k, d, f)
            case Success(v) =>
              && nextFlat' == nextFlat[f.key := v] && pending' == pending
              && fallbackKeys' == if f.key in d.fallback then fallbackKeys + [f.key] else fallbackKeys
            case Failure(_) =>
              nextFlat' == nextFlat && pending' == pending + [ItemOf(k, f)] && fallbackKeys' == fallbackKeys
  {
    nextFlat', pending', fallbackKeys' := nextFlat, pending, fallbackKeys;
    var segmentCacheKey := CacheKeyOf(k, f);
    var shouldRefreshFallback := f.key in d.fallback;
    if segmentCacheKey in d.tm && !(d.allowTranslate && shouldRefreshFallback) {
      nextFlat' := nextFlat[f.key := d.tm[segmentCacheKey]];
      if shouldRefreshFallback {
        fallbackKeys' := fallbackKeys + [f.key];
      }
    } else if f.key in d.existing && !(d.allowTranslate && shouldRefreshFallback) {
      nextFlat' := nextFlat[f.key := d.existing[f.key]];
      if shouldRefreshFallback {
        fallbackKeys' := fallbackKeys + [f.key];
      }
    } else {
      pending' := pending + [BatchItem(segmentCacheKey, f.key, f.text, k.hash(f.text))];
    }
  }

  /** The first loop. */
  method ReuseExisting(k: Keys, d: Inputs, source: seq<Flat>)
    returns (nextFlat: map<string, string>, pending: seq<BatchItem>, fallbackKeys: seq<string>)
    requires DistinctKeys(source)
    ensures pending == Pending(k, d, source)
    ensures ReusedOnly(k, d, source, nextFlat, fallbackKeys)
  {
    nextFlat, pending, fallbackKeys := map[], [], [];
    for i := 0 to |source|
      invariant pending == Pending(k, d, source[..i])
      invariant ReusedOnly(k, d, source[..i], nextFlat, fallbackKeys)
    {
      ReuseStep(k, d, source, i, nextFlat, fallbackKeys);
      nextFlat, pending, fallbackKeys := ReuseSegment(k, d, source[i], nextFlat, pending, fallbackKeys);
    }
    assert source[..|source|] == source;
  }

  /** The state after the first loop: only reused keys have a value. */
  ghost predicate ReusedOnly(k: Keys, d: Inputs, source: seq<Flat>, nextFlat: map<string, string>, fallbackKeys: seq<string>) {
    && (forall key :: key in nextFlat ==> key in KeySet(source))
    && (forall f :: f in source ==> (f.key in nextFlat <==> Reused(k, d, f).Success?))
    && (forall f :: f in source && Reused(k, d, f).Success? ==> nextFlat[f.key] == Reused(k, d, f).value)
    && NoRepeats(fallbackKeys)
    && (forall key :: key in fallbackKeys ==> key in nextFlat)
    && (forall f :: f in source && Reused(k, d, f).Success? ==> (f.key in fallbackKeys <==> f.key in d.fallback))
  }

  lemma ReuseStep(k: Keys, d: Inputs, source: seq<Flat>, i: nat, nextFlat: map<string, string>, fallbackKeys: seq<string>)
    requires DistinctKeys(source) && i < |source| && ReusedOnly(k, d, source[..i], nextFlat, fallbackKeys)
    ensures Pending(k, d, source[..i + 1]) ==
            Pending(k, d, source[..i]) + if Reused(k, d, source[i]).Failure? then [ItemOf(k, source[i])] else []
    ensures match Reused(k, d, source[i])
            case Failure(_) => ReusedOnly(k, d, source[..i + 1], nextFlat, fallbackKeys)
            case Success(v) =>
              ReusedOnly(k, d, source[..i + 1], nextFlat[source[i].key := v],
                         if source[i].key in d.fallback then fallbackKeys + [source[i].key] else fallbackKeys)
  {
    NewKey(source, i);
    ReuseAdds(k, d, source[..i], source[i], nextFlat, fallbackKeys);
    assert source[..i + 1] == source[..i] + [source[i]];
    assert source[..i + 1][..i] == source[..i];
  }

  lemma ReuseAdds(k: Keys, d: Inputs, seen: seq<Flat>, f: Flat, nextFlat: map<string, string>, fallbackKeys: seq<string>)
    requires ReusedOnly(k, d, seen, nextFlat, fallbackKeys) && f.key !in KeySet(seen)
    ensures match Reused(k, d, f)
            case Failure(_) => ReusedOnly(k, d, seen + [f], nextFlat, fallbackKeys)
            case Success(v) =>
              ReusedOnly(k, d, seen + [f], nextFlat[f.key := v],
                         if f.key in d.fallback then fallbackKeys + [f.key] else fallbackKeys)
  {
    var all := seen + [f];
    assert KeySet(all) == KeySet(seen) + {f.key};
    assert f.key !in nextFlat && f.key !in fallbackKeys;
    forall g | g in all ensures g == f || (g in seen && g.key != f.key) {
      if g in seen {
        assert g.key in KeySet(seen);
      }
    }
  }

  lemma NewKey(source: seq<Flat>, i: nat)
    requires DistinctKeys(source) && i < |source|
    ensures source[i].key !in KeySet(source[..i])
    ensures forall f :: f in source[..i] ==> f.key != source[i].key
  {
  }

  /** The values after the translations of `items` have been stored. */
  ghost predicate StoredValues(next0: map<string, string>, items: seq<BatchItem>, translated: map<string, string>,
                               nextFlat: map<string, string>)
  {
    && nextFlat == next0 + translated
    && translated.Keys == KeysOf(items)
    && (forall key :: key in translated ==> !IsBlank(translated[key]))
  }

  /** The memory after the translations of `items` have been stored. */
  ghost predicate StoredMemory(tm0: map<string, string>, items: seq<BatchItem>, translated: map<string, string>,
                               tm: map<string, string>)
    requires KeysOf(items) <= translated.Keys
  {
    && (forall item :: item in items ==>
          item.key in KeysOf(items) && item.cacheKey in tm && tm[item.cacheKey] == translated[item.key])
    && (forall c :: c in tm0 ==> c in tm)
    && (forall c :: c in tm && !(c in tm0 && tm[c] == tm0[c]) ==> exists item :: item in items && item.cacheKey == c)
  }

  ghost predicate Stored(next0: map<string, string>, tm0: map<string, string>, items: seq<BatchItem>,
                         translated: map<string, string>, nextFlat: map<string, string>, tm: map<string, string>)
  {
    StoredValues(next0, items, translated, nextFlat) && StoredMemory(tm0, items, translated, tm)
  }

  /** No two items share a key or a memory key. */
  ghost predicate Separate(items: seq<BatchItem>) {
    forall i, j :: 0 <= i < j < |items| ==> items[i].key != items[j].key && items[i].cacheKey != items[j].cacheKey
  }

  lemma ItemAdded(items: seq<BatchItem>, item: BatchItem)
    requires Separate(items + [item])
    ensures KeysOf(items + [item]) == KeysOf(items) + {item.key}
    ensures forall other :: other in items + [item] <==> other in items || other == item
    ensures forall other :: other in items ==> other.key != item.key && other.cacheKey != item.cacheKey
  {
    KeysOfSplit(items, [item]);
    assert [item][0].key in KeysOf([item]);
    var all := items + [item];
    assert all[|items|] == item;
    forall i | 0 <= i < |items| ensures items[i].key != item.key && items[i].cacheKey != item.cacheKey {
      assert all[i] == items[i];
    }
  }

  lemma StoreMemory(tm0: map<string, string>, items: seq<BatchItem>, translated: map<string, string>,
                    tm: map<string, string>, item: BatchItem, value: string)
    requires KeysOf(items) <= translated.Keys && StoredMemory(tm0, items, translated, tm)
    requires Separate(items + [item])
    ensures KeysOf(items + [item]) <= translated[item.key := value].Keys
    ensures StoredMemory(tm0, items + [item], translated[item.key := value], tm[item.cacheKey := value])
  {
    ItemAdded(items, item);
    MemoryItems(tm0, items, translated, tm, item, value);
    var tm' := tm[item.cacheKey := value];
    forall c | c in tm' && !(c in tm0 && tm'[c] == tm0[c])
      ensures exists other :: other in items + [item] && other.cacheKey == c
    {
      MemoryFrom(tm0, items, translated, tm, item, value, c);
    }
  }

  lemma MemoryItems(tm0: map<string, string>, items: seq<BatchItem>, translated: map<string, string>,
                    tm: map<string, string>, item: BatchItem, value: string)
    requires KeysOf(items) <= translated.Keys && StoredMemory(tm0, items, translated, tm)
    requires forall other :: other in items ==> other.key != item.key && other.cacheKey != item.cacheKey
    requires KeysOf(items + [item]) == KeysOf(items) + {item.key}
    ensures var translated', tm' := translated[item.key := value], tm[item.cacheKey := value];
            forall other :: other in items + [item] ==>
              other.key in KeysOf(items + [item]) && other.cacheKey in tm' && tm'[other.cacheKey] == translated'[other.key]
  {
  }

  lemma MemoryFrom(tm0: map<string, string>, items: seq<BatchItem>, translated: map<string, string>,
                   tm: map<string, string>, item: BatchItem, value: string, c: string)
    requires KeysOf(items) <= translated.Keys && StoredMemory(tm0, items, translated, tm)
    requires var tm' := tm[item.cacheKey := value]; c in tm' && !(c in tm0 && tm'[c] == tm0[c])
    ensures exists other :: other in items + [item] && other.cacheKey == c
  {
    if c == item.cacheKey {
      assert item in items + [item];
    } else {
      var other :| other in items && other.cacheKey == c;
      assert other in items + [item];
    }
  }

  lemma StoreValues(next0: map<string, string>, items: seq<BatchItem>, translated: map<string, string>,
                    nextFlat: map<string, string>, item: BatchItem, value: string)
    requires StoredValues(next0, items, translated, nextFlat) && Separate(items + [item]) && !IsBlank(value)
    ensures StoredValues(next0, items + [item], translated[item.key := value], nextFlat[item.key := value])
  {
    ItemAdded(items, item);
    PutLast(next0, translated, item.key, value);
  }

  lemma PutLast(a: map<string, string>, b: map<string, string>, key: string, value: string)
    ensures (a + b)[key := value] == a + b[key := value]
  {
  }

  lemma StoreOne(next0: map<string, string>, tm0: map<string, string>, items: seq<BatchItem>, translated: map<string, string>,
                 nextFlat: map<string, string>, tm: map<string, string>, item: BatchItem, value: string)
    requires Stored(next0, tm0, items, translated, nextFlat, tm) && Separate(items + [item]) && !IsBlank(value)
    ensures Stored(next0, tm0, items + [item], translated[item.key := value], nextFlat[item.key := value], tm[item.cacheKey := value])
  {
    StoreValues(next0, items, translated, nextFlat, item, value);
    StoreMemory(tm0, items, translated, tm, item, value);
  }

  // ---------------------------------------------------------------- the translation stage

  /** `translateBatch` begun after `n` attempts. */
  type BatchRuns = (nat, seq<BatchItem>) -> Run

  function RunsOf(oracle: Oracle): BatchRuns {
    (n: nat, items: seq<BatchItem>) => Translate(oracle, n, items, 0)
  }

  /** The batches one after the other: what they gave together, and the attempts it took. */
  datatype Stage = Stage(result: Result<map<string, string>>, attempts: nat)

  function TranslateAll(runs: BatchRuns, n: nat, batches: seq<seq<BatchItem>>): Stage
    decreases |batches|
  {
    if batches == [] then Stage(Success(map[]), 0)
    else
      var before := TranslateAll(runs, n, batches[..|batches| - 1]);
      if before.result.Failure? then before
      else AfterBatch(before, runs(n + before.attempts, batches[|batches| - 1]))
  }

  function AfterBatch(before: Stage, run: Run): Stage
    requires before.result.Success?
  {
    Stage(if run.result.Failure? then run.result else Success(before.result.value + run.result.value),
          before.attempts + |run.log|)
  }

  lemma StageNext(runs: BatchRuns, n: nat, batches: seq<seq<BatchItem>>, i: nat)
    requires i < |batches| && TranslateAll(runs, n, batches[..i]).result.Success?
    ensures var before := TranslateAll(runs, n, batches[..i]);
            TranslateAll(runs, n, batches[..i + 1]) == AfterBatch(before, runs(n + before.attempts, batches[i]))
  {
    assert batches[..i + 1][..i] == batches[..i];
  }

  lemma {:induction false} FirstFailure(runs: BatchRuns, n: nat, batches: seq<seq<BatchItem>>) returns (i: nat)
    requires TranslateAll(runs, n, batches).result.Failure?
    ensures i < |batches| && TranslateAll(runs, n, batches[..i]).result.Success?
    ensures TranslateAll(runs, n, batches[..i + 1]).result.Failure?
    decreases |batches|
  {
    var front := batches[..|batches| - 1];
    if TranslateAll(runs, n, front).result.Success? {
      i := |front|;
      assert batches[..i] == front && batches[..i + 1] == batches;
    } else {
      i := FirstFailure(runs, n, front);
      assert front[..i] == batches[..i] && front[..i + 1] == batches[..i + 1];
    }
  }

  /** The first batch that fails ends the stage: those before it succeeded, its error is the
      stage's, and no batch after it is tried. */
  lemma StageFailure(runs: BatchRuns, n: nat, batches: seq<seq<BatchItem>>) returns (i: nat)
    requires TranslateAll(runs, n, batches).result.Failure?
    ensures i < |batches| && TranslateAll(runs, n, batches[..i]).result.Success?
    ensures TranslateAll(runs, n, batches).result == runs(n + TranslateAll(runs, n, batches[..i]).attempts, batches[i]).result
    ensures TranslateAll(runs, n, batches) == TranslateAll(runs, n, batches[..i + 1])
  {
    i := FirstFailure(runs, n, batches);
    StageStopped(runs, n, batches, i + 1);
    StageNext(runs, n, batches, i);
  }

  /** No batch of k items takes more than 4k - 2 attempts. */
  ghost predicate Thrifty(runs: BatchRuns) {
    forall n: nat, items {:trigger runs(n, items)} :: |runs(n, items).log| <= PromptLimit(|items|)
  }

  lemma RunsThrifty(oracle: Oracle)
    ensures Thrifty(RunsOf(oracle))
  {
    forall n: nat, items ensures |RunsOf(oracle)(n, items).log| <= PromptLimit(|items|) {
      AttemptBound(oracle, n, items, 0);
    }
  }

  lemma {:induction false} StageBound(runs: BatchRuns, n: nat, batches: seq<seq<BatchItem>>)
    requires Thrifty(runs) && forall i :: 0 <= i < |batches| ==> batches[i] != []
    ensures TranslateAll(runs, n, batches).attempts <= 4 * |Concat(batches)| - 2 * |batches|
    decreases |batches|
  {
    if batches != [] {
      var front, last := batches[..|batches| - 1], batches[|batches| - 1];
      assert batches == front + [last];
      ConcatAppend(front, last);
      StageBound(runs, n, front);
    }
  }

  /** What has failed after some batches has failed. */
  lemma {:induction false} StageStopped(runs: BatchRuns, n: nat, batches: seq<seq<BatchItem>>, i: nat)
    requires i <= |batches| && TranslateAll(runs, n, batches[..i]).result.Failure?
    ensures TranslateAll(runs, n, batches) == TranslateAll(runs, n, batches[..i])
    decreases |batches|
  {
    if i < |batches| {
      var front := batches[..|batches| - 1];
      assert front[..i] == batches[..i];
      StageStopped(runs, n, front, i);
    } else {
      assert batches[..i] == batches;
    }
  }

  /** The stage after one more batch. */
  lemma StageContinues(runs: BatchRuns, n: nat, batches: seq<seq<BatchItem>>, i: nat, translated: map<string, string>,
                       attempts: nat, run: Run)
    requires i < |batches| && n <= attempts && run == runs(attempts, batches[i])
    requires TranslateAll(runs, n, batches[..i]) == Stage(Success(translated), attempts - n)
    ensures run.result.Success? ==>
              TranslateAll(runs, n, batches[..i + 1]) == Stage(Success(translated + run.result.value), attempts + |run.log| - n)
    ensures run.result.Failure? ==> TranslateAll(runs, n, batches) == Stage(run.result, attempts + |run.log| - n)
  {
    StageNext(runs, n, batches, i);
    if run.result.Failure? {
      StageStopped(runs, n, batches, i + 1);
    }
  }

  /** The translations after those of a batch were taken over. */
  ghost predicate TookOver(translated: map<string, string>, t: map<string, string>, seen: set<string>,
                           translated': map<string, string>)
  {
    && translated'.Keys == translated.Keys + seen && seen <= t.Keys
    && forall key :: key in translated' ==> translated'[key] == if key in seen then t[key] else translated[key]
  }

  lemma StoreNext(next0: map<string, string>, tm0: map<string, string>, items: seq<BatchItem>, batch: seq<BatchItem>, j: nat,
                  t: map<string, string>, translated: map<string, string>, nextFlat: map<string, string>, tm: map<string, string>)
    requires j < |batch| && Separate(items + batch)
    requires Stored(next0, tm0, items + batch[..j], translated, nextFlat, tm)
    requires t.Keys == KeysOf(batch) && forall key :: key in t ==> !IsBlank(t[key])
    ensures batch[j].key in t && t[batch[j].key] != ""
    ensures var item := batch[j]; var value := t[item.key];
            Stored(next0, tm0, items + batch[..j + 1], translated[item.key := value], nextFlat[item.key := value],
                   tm[item.cacheKey := value])
  {
    var item := batch[j];
    assert item.key in KeysOf(batch);
    NonBlankNotEmpty(t[item.key]);
    assert items + batch[..j + 1] == (items + batch[..j]) + [item];
    SeparatePrefix(items + batch, items + batch[..j + 1]);
    StoreOne(next0, tm0, items + batch[..j], translated, nextFlat, tm, item, t[item.key]);
  }

  /** The inner loop: store one batch's translations. */
  method StoreBatch(batch: seq<BatchItem>, t: map<string, string>, nextFlat: map<string, string>, tm: map<string, string>,
                    ghost next0: map<string, string>, ghost tm0: map<string, string>,
                    ghost items: seq<BatchItem>, ghost translated: map<string, string>)
    returns (nextFlat': map<string, string>, tm': map<string, string>, ghost translated': map<string, string>)
    requires Stored(next0, tm0, items, translated, nextFlat, tm) && Separate(items + batch)
    requires t.Keys == KeysOf(batch) && forall key :: key in t ==> !IsBlank(t[key])
    ensures Stored(next0, tm0, items + batch, translated', nextFlat', tm') && translated' == translated + t
  {
    nextFlat', tm', translated' := nextFlat, tm, translated;
    assert items + batch[..0] == items;
    for j := 0 to |batch|
      invariant Stored(next0, tm0, items + batch[..j], translated', nextFlat', tm')
      invariant TookOver(translated, t, KeysOf(batch[..j]), translated')
    {
      var item := batch[j];
      StoreNext(next0, tm0, items, batch, j, t, translated', nextFlat', tm');
      TakeOne(translated, t, batch, j, translated');
      if item.key in t && t[item.key] != "" {
        translated' := translated'[item.key := t[item.key]];
        nextFlat' := nextFlat'[item.key := t[item.key]];
        tm' := tm'[item.cacheKey := t[item.key]];
      }
    }
    assert batch[..|batch|] == batch;
    TookAll(translated, t, translated');
  }

  lemma TakeOne(translated: map<string, string>, t: map<string, string>, batch: seq<BatchItem>, j: nat,
                translated': map<string, string>)
    requires j < |batch| && batch[j].key in t && TookOver(translated, t, KeysOf(batch[..j]), translated')
    ensures TookOver(translated, t, KeysOf(batch[..j + 1]), translated'[batch[j].key := t[batch[j].key]])
  {
    KeysOfSplit(batch[..j], [batch[j]]);
    assert batch[..j + 1] == batch[..j] + [batch[j]];
    assert [batch[j]][0].key in KeysOf([batch[j]]) && KeysOf([batch[j]]) == {batch[j].key};
  }

  lemma TookAll(translated: map<string, string>, t: map<string, string>, translated': map<string, string>)
    requires TookOver(translated, t, t.Keys, translated')
    ensures translated' == translated + t
  {
  }

  /** Translate one batch and store the result. */
  method TranslateAndStore(translator: Translator, batch: seq<BatchItem>, nextFlat: map<string, string>, tm: map<string, string>,
                           ghost next0: map<string, string>, ghost tm0: map<string, string>,
                           ghost items: seq<BatchItem>, ghost translated: map<string, string>)
    returns (r: Result<(map<string, string>, map<string, string>)>, ghost translated': map<string, string>, ghost run: Run)
    requires Stored(next0, tm0, items, translated, nextFlat, tm) && Separate(items + batch)
    modifies translator
    ensures run == RunsOf(translator.oracle)(old(translator.attempts), batch)
    ensures translator.attempts == old(translator.attempts) + |run.log|
    ensures match run.result
            case Failure(m) => r == Failure(m)
            case Success(t) => && r.Success? && translated' == translated + t
                               && Stored(next0, tm0, items + batch, translated', r.value.0, r.value.1)
  {
    translated' := translated;
    ghost var n := translator.attempts;
    run := Translate(translator.oracle, n, batch, 0);
    var t := translator.TranslateBatch(batch);
    if t.Failure? {
      return Failure(t.message), translated', run;
    }
    SuccessCorrect(translator.oracle, n, batch, 0);
    var nextFlat', tm';
    nextFlat', tm', translated' := StoreBatch(batch, t.value, nextFlat, tm, next0, tm0, items, translated);
    return Success((nextFlat', tm')), translated', run;
  }

  lemma SeparatePrefix(items: seq<BatchItem>, a: seq<BatchItem>)
    requires Separate(items) && a <= items
    ensures Separate(a)
  {
    forall i | 0 <= i < |a| ensures a[i] == items[i] {
    }
  }

  /** What became of a stage that began after `n` attempts. */
  ghost predicate StageRan<T>(runs: BatchRuns, n: nat, attempts: nat, batches: seq<seq<BatchItem>>, r: Result<T>,
                              translated: map<string, string>)
  {
    var stage := TranslateAll(runs, n, batches);
    && attempts == n + stage.attempts
    && match r case Failure(m) => stage.result == Failure(m) case Success(_) => stage.result == Success(translated)
  }

  /** The translation stage: batches in order, the first failing batch ends the run. */
  method TranslatePending(translator: Translator, pending: seq<BatchItem>, budget: int,
                          next0: map<string, string>, tm0: map<string, string>)
    returns (r: Result<(map<string, string>, map<string, string>)>, ghost translated: map<string, string>,
             ghost batches: seq<seq<BatchItem>>)
    requires Separate(pending)
    modifies translator
    ensures IsLeastSplit(batches, pending, budget)
    ensures StageRan(RunsOf(translator.oracle), old(translator.attempts), translator.attempts, batches, r, translated)
    ensures r.Success? ==> Stored(next0, tm0, pending, translated, r.value.0, r.value.1)
  {
    var nextFlat, tm := next0, tm0;
    translated := map[];
    var split := BuildTranslationBatches(pending, budget);
    batches := split;
    ghost var n, runs := translator.attempts, RunsOf(translator.oracle);
    assert Concat(batches[..0]) == [] && next0 + map[] == next0;
    for i := 0 to |split|
      invariant Stored(next0, tm0, Concat(batches[..i]), translated, nextFlat, tm)
      invariant n <= translator.attempts
      invariant TranslateAll(runs, n, batches[..i]) == Stage(Success(translated), translator.attempts - n)
    {
      NextBatch(pending, batches, i);
      ghost var before, attempts, run := translated, translator.attempts, Run(Failure(""), []);
      var stored;
      stored, translated, run := TranslateAndStore(translator, split[i], nextFlat, tm, next0, tm0, Concat(batches[..i]), translated);
      StageContinues(runs, n, batches, i, before, attempts, run);
      if stored.Failure? {
        return Failure(stored.message), translated, batches;
      }
      nextFlat, tm := stored.value.0, stored.value.1;
    }
    assert batches[..|batches|] == batches;
    return Success((nextFlat, tm)), translated, batches;
  }

  lemma BatchFollows(batches: seq<seq<BatchItem>>, i: nat)
    requires i < |batches|
    ensures Concat(batches[..i + 1]) == Concat(batches[..i]) + batches[i]
  {
    assert batches[..i + 1] == batches[..i] + [batches[i]];
    ConcatAppend(batches[..i], batches[i]);
  }

  lemma {:induction false} ConcatSplit(batches: seq<seq<BatchItem>>, n: nat)
    requires n <= |batches|
    ensures Concat(batches) == Concat(batches[..n]) + Concat(batches[n..])
    decreases |batches| - n
  {
    if n == |batches| {
      assert batches[..n] == batches;
    } else {
      ConcatSplit(batches, n + 1);
      assert batches[..n + 1] == batches[..n] + [batches[n]];
      ConcatAppend(batches[..n], batches[n]);
      assert batches[n..][1..] == batches[n + 1..];
    }
  }

  lemma StageWithin(oracle: Oracle, n: nat, batches: seq<seq<BatchItem>>, items: seq<BatchItem>, budget: int)
    requires IsSplit(batches, items, budget)
    ensures TranslateAll(RunsOf(oracle), n, batches).attempts <= 4 * |items| - 2 * |batches|
  {
    forall i | 0 <= i < |batches| ensures batches[i] != [] {
      assert Fits(batches[i], budget);
    }
    RunsThrifty(oracle);
    StageBound(RunsOf(oracle), n, batches);
  }

  /** The stored prefix grows by one batch. */
  lemma NextBatch(pending: seq<BatchItem>, batches: seq<seq<BatchItem>>, i: nat)
    requires i < |batches| && Concat(batches) == pending && Separate(pending)
    ensures Concat(batches[..i + 1]) == Concat(batches[..i]) + batches[i]
    ensures Separate(Concat(batches[..i + 1]))
  {
    BatchFollows(batches, i);
    ConcatSplit(batches, i + 1);
    SeparatePrefix(pending, Concat(batches[..i + 1]));
  }

  lemma NothingToSplit(budget: int)
    ensures IsLeastSplit([], [], budget)
  {
  }

  lemma NoBatches(batches: seq<seq<BatchItem>>, items: seq<BatchItem>, budget: int)
    requires IsSplit(batches, items, budget)
    ensures batches == [] <==> items == []
  {
    if batches != [] {
      assert Fits(batches[0], budget);
    }
  }

  /** The value a pending item ends up with, and whether it is recorded as a fallback. */
  function PendingValue(d: Inputs, translated: map<string, string>, item: BatchItem): string {
    if item.key in translated then translated[item.key]
    else if item.key in d.existing && !d.force then d.existing[item.key]
    else item.text
  }

  predicate PendingFallsBack(d: Inputs, translated: map<string, string>, item: BatchItem) {
    item.key !in translated && (item.key in d.existing && !d.force ==> item.key in d.fallback)
  }

  /** The last loop after the items in `seen`, started with `next1` and `fallback1`. */
  ghost predicate Filled(d: Inputs, translated: map<string, string>, next1: map<string, string>, fallback1: seq<string>,
                         seen: seq<BatchItem>, nextFlat: map<string, string>, fallback: seq<string>)
  {
    && nextFlat.Keys == next1.Keys + KeysOf(seen)
    && (forall key :: key in next1 ==> nextFlat[key] == next1[key])
    && (forall item :: item in seen ==> item.key in nextFlat && nextFlat[item.key] == PendingValue(d, translated, item))
    && NoRepeats(fallback)
    && (forall key :: key in fallback ==> key in fallback1 || key in KeysOf(seen))
    && (forall key :: key in fallback1 ==> key in fallback)
    && (forall item :: item in seen ==> (item.key in fallback <==> PendingFallsBack(d, translated, item)))
  }

  lemma FillOne(d: Inputs, translated: map<string, string>, next1: map<string, string>, fallback1: seq<string>,
                seen: seq<BatchItem>, nextFlat: map<string, string>, fallback: seq<string>, item: BatchItem)
    requires Filled(d, translated, next1, fallback1, seen, nextFlat, fallback) && Separate(seen + [item])
    requires item.key !in fallback1
    requires if item.key in next1 then item.key in translated && next1[item.key] == translated[item.key]
             else item.key !in translated
    ensures item.key in nextFlat <==> item.key in next1
    ensures Filled(d, translated, next1, fallback1, seen + [item],
                   nextFlat[item.key := PendingValue(d, translated, item)],
                   if PendingFallsBack(d, translated, item) then fallback + [item.key] else fallback)
  {
    ItemAdded(seen, item);
    NewItemKey(seen, item);
    FillOneValues(d, translated, next1, fallback1, seen, nextFlat, fallback, item);
    FillOneFallback(d, translated, next1, fallback1, seen, nextFlat, fallback, item);
  }

  lemma NewItemKey(seen: seq<BatchItem>, item: BatchItem)
    requires forall other :: other in seen ==> other.key != item.key
    ensures item.key !in KeysOf(seen)
  {
    forall i | 0 <= i < |seen| ensures seen[i].key != item.key {
      assert seen[i] in seen;
    }
  }

  lemma FillOneValues(d: Inputs, translated: map<string, string>, next1: map<string, string>, fallback1: seq<string>,
                      seen: seq<BatchItem>, nextFlat: map<string, string>, fallback: seq<string>, item: BatchItem)
    requires Filled(d, translated, next1, fallback1, seen, nextFlat, fallback) && item.key !in KeysOf(seen)
    requires forall other :: other in seen ==> other.key != item.key
    requires if item.key in next1 then item.key in translated && next1[item.key] == translated[item.key]
             else item.key !in translated
    ensures var nextFlat' := nextFlat[item.key := PendingValue(d, translated, item)];
            && (item.key in nextFlat <==> item.key in next1)
            && nextFlat'.Keys == next1.Keys + KeysOf(seen) + {item.key}
            && (forall key :: key in next1 ==> nextFlat'[key] == next1[key])
            && (forall other :: other in seen + [item] ==>
                  other.key in nextFlat' && nextFlat'[other.key] == PendingValue(d, translated, other))
  {
  }

  lemma FillOneFallback(d: Inputs, translated: map<string, string>, next1: map<string, string>, fallback1: seq<string>,
                        seen: seq<BatchItem>, nextFlat: map<string, string>, fallback: seq<string>, item: BatchItem)
    requires Filled(d, translated, next1, fallback1, seen, nextFlat, fallback)
    requires item.key !in fallback1 && item.key !in KeysOf(seen)
    requires forall other :: other in seen ==> other.key != item.key
    ensures var fallback' := if PendingFallsBack(d, translated, item) then fallback + [item.key] else fallback;
            && NoRepeats(fallback')
            && (forall key :: key in fallback' ==> key in fallback1 || key in KeysOf(seen) || key == item.key)
            && (forall key :: key in fallback1 ==> key in fallback')
            && (forall other :: other in seen + [item] ==> (other.key in fallback' <==> PendingFallsBack(d, translated, other)))
  {
    assert item.key !in fallback;
  }

  /** One round of the last loop. */
  method FillSegment(d: Inputs, item: BatchItem, nextFlat: map<string, string>, fallbackKeys: seq<string>)
    returns (nextFlat': map<string, string>, fallbackKeys': seq<string>)
    ensures (nextFlat', fallbackKeys') == FilledOne(d, item, nextFlat, fallbackKeys)
  {
    nextFlat', fallbackKeys' := nextFlat, fallbackKeys;
    if item.key in nextFlat {
      return;
    }
    if item.key in d.existing && !d.force {
      nextFlat' := nextFlat[item.key := d.existing[item.key]];
      if item.key in d.fallback {
        fallbackKeys' := fallbackKeys + [item.key];
      }
      return;
    }
    nextFlat' := nextFlat[item.key := item.text];
    fallbackKeys' := fallbackKeys + [item.key];
  }

  function FilledOne(d: Inputs, item: BatchItem, nextFlat: map<string, string>, fallbackKeys: seq<string>)
    : (map<string, string>, seq<string>)
  {
    if item.key in nextFlat then (nextFlat, fallbackKeys)
    else if item.key in d.existing && !d.force then
      (nextFlat[item.key := d.existing[item.key]], if item.key in d.fallback then fallbackKeys + [item.key] else fallbackKeys)
    else (nextFlat[item.key := item.text], fallbackKeys + [item.key])
  }

  /** One round gives the item the value and the fallback entry it should have. */
  lemma FilledValue(d: Inputs, translated: map<string, string>, next1: map<string, string>, nextFlat: map<string, string>,
                    fallbackKeys: seq<string>, item: BatchItem)
    requires item.key in nextFlat <==> item.key in next1
    requires item.key in next1 ==> item.key in translated && nextFlat[item.key] == translated[item.key]
    requires item.key !in next1 ==> item.key !in translated
    ensures FilledOne(d, item, nextFlat, fallbackKeys) ==
            (nextFlat[item.key := PendingValue(d, translated, item)],
             if PendingFallsBack(d, translated, item) then fallbackKeys + [item.key] else fallbackKeys)
  {
    if item.key in nextFlat {
      assert nextFlat[item.key := nextFlat[item.key]] == nextFlat;
    }
  }

  /** The last loop: whatever is still without a value gets its old one or the source text. */
  method FillIn(d: Inputs, pending: seq<BatchItem>, ghost translated: map<string, string>,
                next1: map<string, string>, fallback1: seq<string>)
    returns (nextFlat: map<string, string>, fallbackKeys: seq<string>)
    requires Separate(pending) && NoRepeats(fallback1)
    requires forall i :: 0 <= i < |pending| ==>
               && pending[i].key !in fallback1
               && if pending[i].key in next1
                  then pending[i].key in translated && next1[pending[i].key] == translated[pending[i].key]
                  else pending[i].key !in translated
    ensures Filled(d, translated, next1, fallback1, pending, nextFlat, fallbackKeys)
  {
    nextFlat, fallbackKeys := next1, fallback1;
    FilledNone(d, translated, next1, fallback1);
    for i := 0 to |pending|
      invariant Filled(d, translated, next1, fallback1, pending[..i], nextFlat, fallbackKeys)
    {
      FillStep(d, translated, next1, fallback1, pending, i, nextFlat, fallbackKeys);
      nextFlat, fallbackKeys := FillSegment(d, pending[i], nextFlat, fallbackKeys);
    }
    assert pending[..|pending|] == pending;
  }

  lemma FilledNone(d: Inputs, translated: map<string, string>, next1: map<string, string>, fallback1: seq<string>)
    requires NoRepeats(fallback1)
    ensures Filled(d, translated, next1, fallback1, [], next1, fallback1)
  {
  }

  lemma FillStep(d: Inputs, translated: map<string, string>, next1: map<string, string>, fallback1: seq<string>,
                 pending: seq<BatchItem>, i: nat, nextFlat: map<string, string>, fallbackKeys: seq<string>)
    requires i < |pending| && Separate(pending) && pending[i].key !in fallback1
    requires Filled(d, translated, next1, fallback1, pending[..i], nextFlat, fallbackKeys)
    requires if pending[i].key in next1
             then pending[i].key in translated && next1[pending[i].key] == translated[pending[i].key]
             else pending[i].key !in translated
    ensures var next := FilledOne(d, pending[i], nextFlat, fallbackKeys);
            Filled(d, translated, next1, fallback1, pending[..i + 1], next.0, next.1)
  {
    assert pending[..i + 1] == pending[..i] + [pending[i]];
    SeparatePrefix(pending, pending[..i + 1]);
    FillOne(d, translated, next1, fallback1, pending[..i], nextFlat, fallbackKeys, pending[i]);
    FilledValue(d, translated, next1, nextFlat, fallbackKeys, pending[i]);
  }

  lemma {:induction false} PendingSeparate(k: Keys, d: Inputs, source: seq<Flat>)
    requires DistinctKeys(source) && Injective(k)
    ensures Separate(Pending(k, d, source))
  {
    if source != [] {
      var front, last := source[..|source| - 1], source[|source| - 1];
      PendingSeparate(k, d, front);
      PendingMembers(k, d, front);
      var items := Pending(k, d, front);
      forall i | 0 <= i < |items| ensures items[i].key != last.key && items[i].cacheKey != CacheKeyOf(k, last) {
        assert items[i] in items;
        var f :| f in front && Reused(k, d, f).Failure? && items[i] == ItemOf(k, f);
        assert f.key != last.key;
      }
    }
  }

  lemma QueuedNotReused(k: Keys, d: Inputs, source: seq<Flat>, next0: map<string, string>, fallback0: seq<string>, key: string)
    requires ReusedOnly(k, d, source, next0, fallback0) && key in KeysOf(Pending(k, d, source)) && DistinctKeys(source)
    ensures key in KeySet(source) && key !in next0
  {
    var pending := Pending(k, d, source);
    PendingMembers(k, d, source);
    var i :| 0 <= i < |pending| && pending[i].key == key;
    assert pending[i] in pending;
    var f :| f in source && Reused(k, d, f).Failure? && pending[i] == ItemOf(k, f);
    assert f.key == key;
  }

  /** The last loop leaves a value for exactly the source keys. */
  lemma AllKeysFilled(k: Keys, d: Inputs, source: seq<Flat>, next0: map<string, string>, fallback0: seq<string>,
                      translated: map<string, string>, nextFlat: map<string, string>, fallback: seq<string>)
    requires ReusedOnly(k, d, source, next0, fallback0) && DistinctKeys(source)
    requires translated.Keys <= KeysOf(Pending(k, d, source))
    requires Filled(d, translated, next0 + translated, fallback0, Pending(k, d, source), nextFlat, fallback)
    ensures nextFlat.Keys <= KeySet(source) && forall key :: key in fallback ==> key in nextFlat
  {
    forall key | key in KeysOf(Pending(k, d, source)) ensures key in KeySet(source) {
      QueuedNotReused(k, d, source, next0, fallback0, key);
    }
  }

  lemma SegmentDecided(k: Keys, d: Inputs, source: seq<Flat>, next0: map<string, string>, fallback0: seq<string>,
                       translated: map<string, string>, nextFlat: map<string, string>, fallback: seq<string>, f: Flat)
    requires ReusedOnly(k, d, source, next0, fallback0) && DistinctKeys(source) && f in source
    requires translated.Keys <= KeysOf(Pending(k, d, source)) && forall key :: key in translated ==> translated[key] != ""
    requires Filled(d, translated, next0 + translated, fallback0, Pending(k, d, source), nextFlat, fallback)
    ensures f.key in nextFlat && nextFlat[f.key] == ValueOf(k, d, translated, f)
    ensures f.key in fallback <==> FallsBack(k, d, translated, f)
  {
    if Reused(k, d, f).Success? {
      if f.key in KeysOf(Pending(k, d, source)) {
        QueuedNotReused(k, d, source, next0, fallback0, f.key);
      }
      ReusedDecided(k, d, source, next0, fallback0, translated, nextFlat, fallback, f);
    } else {
      PendingDecided(k, d, source, next0, fallback0, translated, nextFlat, fallback, f);
    }
  }

  /** The three loops together decide every key. */
  lemma LoopsDecide(k: Keys, d: Inputs, source: seq<Flat>, next0: map<string, string>, fallback0: seq<string>,
                    translated: map<string, string>, nextFlat: map<string, string>, fallback: seq<string>)
    requires ReusedOnly(k, d, source, next0, fallback0)
    requires translated.Keys <= KeysOf(Pending(k, d, source)) && forall key :: key in translated ==> translated[key] != ""
    requires Filled(d, translated, next0 + translated, fallback0, Pending(k, d, source), nextFlat, fallback)
    requires DistinctKeys(source)
    ensures Decided(k, d, translated, source, nextFlat, fallback)
  {
    AllKeysFilled(k, d, source, next0, fallback0, translated, nextFlat, fallback);
    forall f | f in source
      ensures f.key in nextFlat && nextFlat[f.key] == ValueOf(k, d, translated, f)
      ensures f.key in fallback <==> FallsBack(k, d, translated, f)
    {
      SegmentDecided(k, d, source, next0, fallback0, translated, nextFlat, fallback, f);
    }
    assert nextFlat.Keys == KeySet(source);
  }

  lemma ReusedDecided(k: Keys, d: Inputs, source: seq<Flat>, next0: map<string, string>, fallback0: seq<string>,
                      translated: map<string, string>, nextFlat: map<string, string>, fallback: seq<string>, f: Flat)
    requires ReusedOnly(k, d, source, next0, fallback0) && f in source && Reused(k, d, f).Success?
    requires translated.Keys <= KeysOf(Pending(k, d, source)) && f.key !in KeysOf(Pending(k, d, source))
    requires Filled(d, translated, next0 + translated, fallback0, Pending(k, d, source), nextFlat, fallback)
    ensures f.key in nextFlat && nextFlat[f.key] == ValueOf(k, d, translated, f)
    ensures f.key in fallback <==> FallsBack(k, d, translated, f)
  {
    assert f.key in next0 + translated;
  }

  lemma PendingDecided(k: Keys, d: Inputs, source: seq<Flat>, next0: map<string, string>, fallback0: seq<string>,
                       translated: map<string, string>, nextFlat: map<string, string>, fallback: seq<string>, f: Flat)
    requires f in source && Reused(k, d, f).Failure?
    requires forall key :: key in translated ==> translated[key] != ""
    requires Filled(d, translated, next0 + translated, fallback0, Pending(k, d, source), nextFlat, fallback)
    ensures f.key in nextFlat && nextFlat[f.key] == ValueOf(k, d, translated, f)
    ensures f.key in fallback <==> FallsBack(k, d, translated, f)
  {
    PendingMembers(k, d, source);
    assert ItemOf(k, f) in Pending(k, d, source);
  }

  lemma NonBlankNotEmpty(s: string)
    requires !IsBlank(s)
    ensures s != ""
  {
  }

  lemma SortedFallback(leq: (string, string) -> bool, keys: seq<string>)
    requires TotalPreorder(leq) && NoRepeats(keys)
    ensures SortedBy(leq, Sort(leq, keys)) && NoRepeats(Sort(leq, keys))
    ensures forall key :: key in Sort(leq, keys) <==> key in keys
  {
    SortCorrect(leq, keys);
    SortMembers(leq, keys);
    SortDistinct(leq, keys);
  }

  lemma PendingNotReused(k: Keys, d: Inputs, source: seq<Flat>, next0: map<string, string>, fallback0: seq<string>, i: nat)
    requires DistinctKeys(source) && ReusedOnly(k, d, source, next0, fallback0) && i < |Pending(k, d, source)|
    ensures Pending(k, d, source)[i].key !in next0 && Pending(k, d, source)[i].key !in fallback0
  {
    PendingMembers(k, d, source);
    var item := Pending(k, d, source)[i];
    assert item in Pending(k, d, source);
    var f :| f in source && Reused(k, d, f).Failure? && item == ItemOf(k, f);
  }

  lemma MemoryRemembered(k: Keys, d: Inputs, source: seq<Flat>, translated: map<string, string>, tm: map<string, string>)
    requires translated.Keys == KeysOf(Pending(k, d, source))
    requires StoredMemory(d.tm, Pending(k, d, source), translated, tm)
    ensures Remembered(k, d, source, translated, tm)
  {
    PendingMembers(k, d, source);
    forall c | c in tm && !(c in d.tm && tm[c] == d.tm[c])
      ensures exists f :: f in source && Reused(k, d, f).Failure? && f.key in translated && c == CacheKeyOf(k, f)
    {
      var item :| item in Pending(k, d, source) && item.cacheKey == c;
      var f :| f in source && Reused(k, d, f).Failure? && item == ItemOf(k, f);
    }
  }

  /** After the translation stage, run or skipped, the last loop can start. */
  lemma TranslationsStored(k: Keys, d: Inputs, source: seq<Flat>, next0: map<string, string>, fallback0: seq<string>,
                           translated: map<string, string>, nextFlat: map<string, string>, tm: map<string, string>)
    requires DistinctKeys(source) && ReusedOnly(k, d, source, next0, fallback0)
    requires if d.allowTranslate && Pending(k, d, source) != []
             then Stored(next0, d.tm, Pending(k, d, source), translated, nextFlat, tm)
             else translated == map[] && nextFlat == next0 && tm == d.tm
    ensures nextFlat == next0 + translated && translated.Keys <= KeysOf(Pending(k, d, source))
    ensures forall key :: key in translated ==> translated[key] != ""
    ensures Received(k, d, source, translated) && Remembered(k, d, source, translated, tm)
    ensures var pending := Pending(k, d, source);
            forall i :: 0 <= i < |pending| ==>
              && pending[i].key !in fallback0
              && if pending[i].key in nextFlat
                 then pending[i].key in translated && nextFlat[pending[i].key] == translated[pending[i].key]
                 else pending[i].key !in translated
  {
    var pending := Pending(k, d, source);
    if d.allowTranslate && pending != [] {
      MemoryRemembered(k, d, source, translated, tm);
    }
    forall key | key in translated ensures translated[key] != "" {
      NonBlankNotEmpty(translated[key]);
    }
    forall i | 0 <= i < |pending| ensures pending[i].key !in next0 && pending[i].key !in fallback0 {
      PendingNotReused(k, d, source, next0, fallback0, i);
    }
  }

  /** The decision core: reuse, translate, fill in, sort the fallback keys. */
  method SyncCore(k: Keys, d: Inputs, source: seq<Flat>, translator: Translator, budget: int,
                  leq: (string, string) -> bool)
    returns (r: Result<Outcome>, ghost translated: map<string, string>, ghost batches: seq<seq<BatchItem>>)
    requires DistinctKeys(source) && Injective(k) && TotalPreorder(leq)
    modifies translator
    ensures r.Success? ==> Completed(k, d, source, translated, leq, r.value)
    ensures IsLeastSplit(batches, if d.allowTranslate then Pending(k, d, source) else [], budget)
    ensures StageRan(RunsOf(translator.oracle), old(translator.attempts), translator.attempts, batches, r, translated)
    ensures translator.attempts <= old(translator.attempts) + 4 * |Pending(k, d, source)| - 2 * |batches|
  {
    var nextFlat, pending, fallbackKeys := ReuseExisting(k, d, source);
    PendingSeparate(k, d, source);
    ghost var next0, fallback0 := nextFlat, fallbackKeys;
    var tm := d.tm;
    translated, batches := map[], [];
    NothingToSplit(budget);
    if d.allowTranslate && |pending| > 0 {
      var stage;
      ghost var n := translator.attempts;
      stage, translated, batches := TranslatePending(translator, pending, budget, nextFlat, tm);
      StageWithin(translator.oracle, n, batches, pending, budget);
      if stage.Failure? {
        return Failure(stage.message), translated, batches;
      }
      nextFlat, tm := stage.value.0, stage.value.1;
    }
    TranslationsStored(k, d, source, next0, fallback0, translated, nextFlat, tm);
    nextFlat, fallbackKeys := FillIn(d, pending, translated, nextFlat, fallbackKeys);
    LoopsDecide(k, d, source, next0, fallback0, translated, nextFlat, fallbackKeys);
    var sortedFallbackKeys := Sort(leq, fallbackKeys);
    SortedFallback(leq, fallbackKeys);
    return Success(Outcome(nextFlat, sortedFallbackKeys, tm)), translated, batches;
  }
}
