/** `syncLocale` over repeated runs (scripts/control-ui-i18n.ts): what one writing run
    leaves on disk, and that a second run on the same source changes nothing. */
module LocaleRuns {
  import opened Wrappers
  import opened JsText
  import opened JsObjects
  import opened StableSort
  import opened TranslationTree
  import opened TranslationBatches
  import opened BatchTranslation
  import opened LocaleSync

  const CONTROL_UI_I18N_WORKFLOW: int := 1

  datatype Meta = Meta(fallbackKeys: seq<string>, generatedAt: int, locale: string, model: string, provider: string,
                       sourceHash: string, totalKeys: int, translatedKeys: int, workflow: int)

  /** A locale's files: the locale map, the metadata and the translation memory. */
  datatype Disk = Disk(locale: Entries, meta: Option<Meta>, tm: map<string, string>)

  /** `throws` tells for which keys a write that escapes the locale map throws. */
  datatype Env = Env(allowTranslate: bool, force: bool, provider: string, model: string, locale: string,
                     sourceHash: string, now: int, throws: string -> bool)

  function MapOf(fs: seq<Flat>): map<string, string> {
    if fs == [] then map[]
    else MapOf(fs[..|fs| - 1])[fs[|fs| - 1].key := fs[|fs| - 1].text]
  }

  function FallbackKeys(meta: Option<Meta>): seq<string> {
    match meta case None => [] case Some(m) => m.fallbackKeys
  }

  function InputsOf(env: Env, disk: Disk): Inputs {
    Inputs(MapOf(Flatten(disk.locale)), (set key | key in FallbackKeys(disk.meta)), disk.tm, env.allowTranslate, env.force)
  }

  /** The new metadata; the date only moves when something else changed. */
  function NextMeta(env: Env, previous: Option<Meta>, fallback: seq<string>, total: int): Meta {
    var provider := if env.allowTranslate then env.provider else match previous case None => "" case Some(m) => m.provider;
    var model := if env.allowTranslate then env.model else match previous case None => "" case Some(m) => m.model;
    var translatedKeys := total - |fallback|;
    var semanticMetaChanged :=
      || previous.None?
      || previous.value.locale != env.locale
      || previous.value.sourceHash != env.sourceHash
      || previous.value.provider != provider
      || previous.value.model != model
      || previous.value.totalKeys != total
      || previous.value.translatedKeys != translatedKeys
      || previous.value.workflow != CONTROL_UI_I18N_WORKFLOW
      || previous.value.fallbackKeys != fallback;
    Meta(fallback, if semanticMetaChanged then env.now else previous.value.generatedAt,
         env.locale, model, provider, env.sourceHash, total, translatedKeys, CONTROL_UI_I18N_WORKFLOW)
  }

  /** What is written, unless building the new locale map throws. */
  function NextDisk(env: Env, disk: Disk, source: seq<Flat>, o: Outcome): Option<Disk> {
    match Rebuild(env.throws, [], Valued(source, o.values))
    case None => None
    case Some(locale) => Some(Disk(locale, Some(NextMeta(env, disk.meta, o.fallback, |source|)), o.tm))
  }

  /** One run with `--write` that completes: it goes from `disk` to `disk'`. */
  ghost predicate Run(k: Keys, leq: (string, string) -> bool, env: Env, source: seq<Flat>, disk: Disk, disk': Disk,
                      translated: map<string, string>, o: Outcome)
  {
    && Completed(k, InputsOf(env, disk), source, translated, leq, o)
    && NextDisk(env, disk, source, o) == Some(disk')
  }

  method SyncLocale(k: Keys, leq: (string, string) -> bool, env: Env, sourceMap: Entries, disk: Disk,
                    translator: Translator, budget: int)
    returns (r: Result<Disk>, ghost translated: map<string, string>, ghost o: Outcome, ghost batches: seq<seq<BatchItem>>)
    requires PlainKeys(sourceMap) && Injective(k) && TotalPreorder(leq)
    modifies translator
    ensures r.Success? ==> Run(k, leq, env, Flatten(sourceMap), disk, r.value, translated, o)
    ensures var pending := Pending(k, InputsOf(env, disk), Flatten(sourceMap));
            && IsLeastSplit(batches, if env.allowTranslate then pending else [], budget)
            && translator.attempts <= old(translator.attempts) + 4 * |pending| - 2 * |batches|
            && (!env.allowTranslate || pending == [] ==> batches == [])
    ensures var stage := TranslateAll(RunsOf(translator.oracle), old(translator.attempts), batches);
            && translator.attempts == old(translator.attempts) + stage.attempts
            && match stage.result
               case Failure(m) => r == Failure(m)
               case Success(_) => r.Success? <==> !SomeWriteThrows(env.throws, Flatten(sourceMap))
    ensures StaysInside(sourceMap) && (!env.allowTranslate || Pending(k, InputsOf(env, disk), Flatten(sourceMap)) == []) ==>
              r.Success? && translator.attempts == old(translator.attempts)
  {
    FlattenListsLeaves(sourceMap);
    var source := Flatten(sourceMap);
    var core;
    core, translated, batches := SyncCore(k, InputsOf(env, disk), source, translator, budget, leq);
    NoBatches(batches, if env.allowTranslate then Pending(k, InputsOf(env, disk), source) else [], budget);
    if StaysInside(sourceMap) {
      StayingNeverThrows(env.throws, sourceMap);
    }
    if core.Failure? {
      return Failure(core.message), translated, Outcome(map[], [], map[]), batches;
    }
    FlattenValued(env.throws, sourceMap, core.value.values);
    var next := NextDisk(env, disk, source, core.value);
    if next.None? {
      return Failure("TypeError"), translated, core.value, batches;
    }
    return Success(next.value), translated, core.value, batches;
  }

  // ---------------------------------------------------------------- one run

  /** With a provider a completed run leaves no fallback key. */
  lemma ProviderLeavesNoFallback(k: Keys, d: Inputs, source: seq<Flat>, translated: map<string, string>,
                                 leq: (string, string) -> bool, o: Outcome)
    requires Completed(k, d, source, translated, leq, o) && d.allowTranslate
    ensures o.fallback == []
  {
    forall f | f in source ensures !FallsBack(k, d, translated, f) {
      if Reused(k, d, f).Failure? {
        PendingTranslated(k, d, source, translated, f);
      }
    }
    HasFirst(o.fallback);
  }

  lemma HasFirst(keys: seq<string>)
    ensures keys != [] ==> exists key :: key in keys
  {
    if keys != [] {
      assert keys[0] in keys;
    }
  }

  lemma PendingTranslated(k: Keys, d: Inputs, source: seq<Flat>, translated: map<string, string>, f: Flat)
    requires Received(k, d, source, translated) && d.allowTranslate
    requires f in source && Reused(k, d, f).Failure?
    ensures Translated(translated, f) && ValueOf(k, d, translated, f) == translated[f.key]
  {
    PendingMembers(k, d, source);
    var pending := Pending(k, d, source);
    var i :| 0 <= i < |pending| && pending[i] == ItemOf(k, f);
    assert pending[i].key in KeysOf(pending);
    NonBlankNotEmpty(translated[f.key]);
  }

  lemma NotFallbackKeys(k: Keys, d: Inputs, source: seq<Flat>, translated: map<string, string>,
                        values: map<string, string>, fallback: seq<string>)
    requires Decided(k, d, translated, source, values, fallback) && DistinctKeys(source)
    ensures (set f | f in source && !FallsBack(k, d, translated, f) :: f.key) == values.Keys - (set key | key in fallback)
  {
    var kept := set f | f in source && !FallsBack(k, d, translated, f) :: f.key;
    forall key | key in values.Keys ensures key in kept <==> key !in fallback {
      var f :| f in source && f.key == key;
      forall g | g in source && g.key == key ensures g == f {
      }
    }
  }

  /** The recorded counts: every source key is translated or a fallback, never both. */
  lemma CountsAddUp(k: Keys, d: Inputs, source: seq<Flat>, translated: map<string, string>,
                    leq: (string, string) -> bool, o: Outcome)
    requires Completed(k, d, source, translated, leq, o) && DistinctKeys(source)
    ensures |o.values| == |source|
    ensures |set f | f in source && !FallsBack(k, d, translated, f) :: f.key| + |o.fallback| == |source|
  {
    NotFallbackKeys(k, d, source, translated, o.values, o.fallback);
    KeySetSize(source);
    SetSize(o.fallback);
    var fallback := set key | key in o.fallback;
    assert fallback <= o.values.Keys;
    assert |o.values.Keys - fallback| == |o.values.Keys| - |fallback|;
  }

  lemma {:induction false} KeySetSize(source: seq<Flat>)
    requires DistinctKeys(source)
    ensures |KeySet(source)| == |source|
  {
    if source != [] {
      var front, last := source[..|source| - 1], source[|source| - 1];
      KeySetSize(front);
      assert source == front + [last];
      assert KeySet(source) == KeySet(front) + {last.key};
      assert last.key !in KeySet(front);
    }
  }

  lemma {:induction false} SetSize(keys: seq<string>)
    requires NoRepeats(keys)
    ensures |set key | key in keys| == |keys|
  {
    if keys != [] {
      var front, last := keys[..|keys| - 1], keys[|keys| - 1];
      SetSize(front);
      assert keys == front + [last];
      assert (set key | key in keys) == (set key | key in front) + {last};
    }
  }

  // ---------------------------------------------------------------- the next run

  lemma {:induction false} MapOfAt(fs: seq<Flat>)
    requires DistinctKeys(fs)
    ensures MapOf(fs).Keys == KeySet(fs)
    ensures forall f :: f in fs ==> MapOf(fs)[f.key] == f.text
  {
    if fs != [] {
      var front, last := fs[..|fs| - 1], fs[|fs| - 1];
      MapOfAt(front);
      assert fs == front + [last];
      LastKeyNew(front, last);
    }
  }

  lemma LastKeyNew(front: seq<Flat>, last: Flat)
    requires DistinctKeys(front + [last])
    ensures forall f :: f in front ==> f.key != last.key
  {
    var fs := front + [last];
    forall f | f in front ensures f.key != last.key {
      var i :| 0 <= i < |front| && front[i] == f;
      assert fs[i] == f && fs[|front|] == last;
    }
  }

  /** The walk of this dotted key stays in the tree. */
  predicate KeyStays(key: string) {
    Inside(Split(key, '.'))
  }

  function StayingValues(values: map<string, string>): map<string, string> {
    map key | key in values && KeyStays(key) :: values[key]
  }

  lemma StaysByKeys(sourceMap: Entries)
    requires PlainKeys(sourceMap)
    ensures StaysInside(sourceMap) <==> forall f :: f in Flatten(sourceMap) ==> KeyStays(f.key)
  {
    var ls, source := Leaves(sourceMap), Flatten(sourceMap);
    FlattenListsLeaves(sourceMap);
    LeavesDistinct(sourceMap);
    DottedAt(ls);
    forall i | 0 <= i < |ls| ensures KeyStays(source[i].key) <==> Inside(ls[i].path) {
      SplitJoin(ls[i].path, '.');
    }
    forall i | 0 <= i < |ls| ensures source[i] in source {
    }
  }

  lemma {:induction false} StayingMembers(fs: seq<Flat>)
    ensures forall f :: f in Staying(fs) <==> f in fs && KeyStays(f.key)
    ensures DistinctKeys(fs) ==> DistinctKeys(Staying(fs))
  {
    if fs != [] {
      StayingMembers(fs[1..]);
      assert fs == [fs[0]] + fs[1..];
      forall f | f in Staying(fs[1..]) && DistinctKeys(fs) ensures f.key != fs[0].key {
        var i :| 0 <= i < |fs[1..]| && fs[1..][i] == f;
        assert fs[i + 1] == f;
      }
    }
  }

  /** Unless building the locale map throws, the next run reads back the values of the keys
      whose walks stay in the tree: all that this run decided exactly when no walk of the source
      leaves it. */
  lemma ValuesReadBack(throws: string -> bool, sourceMap: Entries, values: map<string, string>)
    requires PlainKeys(sourceMap) && values.Keys == KeySet(Flatten(sourceMap))
    ensures match Rebuild(throws, [], Valued(Flatten(sourceMap), values))
            case None => SomeWriteThrows(throws, Flatten(sourceMap)) && !StaysInside(sourceMap)
            case Some(locale) => MapOf(Flatten(locale)) == StayingValues(values)
    ensures StayingValues(values) == values <==> StaysInside(sourceMap)
  {
    var source := Flatten(sourceMap);
    FlattenValued(throws, sourceMap, values);
    ValuedReadBack(source, values);
    StaysByKeys(sourceMap);
    forall f | f in source && StayingValues(values) == values ensures KeyStays(f.key) {
      assert f.key in values;
    }
    if StaysInside(sourceMap) {
      forall key | key in values ensures key in StayingValues(values) {
        var f :| f in source && f.key == key;
      }
    }
  }

  lemma ValuedMembers(source: seq<Flat>, values: map<string, string>)
    requires values.Keys == KeySet(source)
    ensures KeySet(Valued(source, values)) == values.Keys
    ensures forall f :: f in Valued(source, values) ==> f.text == values[f.key]
  {
    var valued := Valued(source, values);
    ValuedAt(source, values);
    forall key | key in values ensures key in KeySet(valued) {
      var f :| f in source && f.key == key;
      var i :| 0 <= i < |source| && source[i] == f;
      assert valued[i] in valued && valued[i].key == key;
    }
    forall f | f in valued ensures f.key in values && f.text == values[f.key] {
      var i :| 0 <= i < |valued| && valued[i] == f;
      assert source[i] in source && source[i].key in KeySet(source);
    }
  }

  lemma ValuedReadBack(source: seq<Flat>, values: map<string, string>)
    requires DistinctKeys(Valued(source, values)) && values.Keys == KeySet(source)
    ensures MapOf(Staying(Valued(source, values))) == StayingValues(values)
  {
    var valued := Valued(source, values);
    ValuedMembers(source, values);
    StayingMembers(valued);
    var read := MapOf(Staying(valued));
    MapOfAt(Staying(valued));
    forall key | key in StayingValues(values) ensures key in read && read[key] == values[key] {
      var f :| f in valued && f.key == key;
    }
  }

  /** What the second run reads, `d'`, when the first run read `d` and decided `o`. */
  ghost predicate Follows(d: Inputs, o: Outcome, d': Inputs) {
    && d'.existing == StayingValues(o.values)
    && d'.fallback == (set key | key in o.fallback)
    && d'.tm == o.tm
    && d'.allowTranslate == d.allowTranslate && d'.force == d.force
  }

  /** After a run: a key whose walk leaves the tree is in the memory or, without a provider,
      already recorded as a fallback. */
  predicate Settled(k: Keys, allowTranslate: bool, source: seq<Flat>, fallback: seq<string>, tm: map<string, string>) {
    forall f :: f in source ==> KeySettled(k, allowTranslate, f, fallback, tm)
  }

  predicate KeySettled(k: Keys, allowTranslate: bool, f: Flat, fallback: seq<string>, tm: map<string, string>) {
    KeyStays(f.key) || CacheKeyOf(k, f) in tm || (!allowTranslate && f.key in fallback)
  }

  /** A key not translated in the first run has the same memory entry afterwards. */
  lemma MemoryKept(k: Keys, d: Inputs, source: seq<Flat>, translated: map<string, string>, tm: map<string, string>, f: Flat)
    requires Remembered(k, d, source, translated, tm) && Injective(k) && DistinctKeys(source)
    requires f in source && (Reused(k, d, f).Success? || f.key !in translated)
    ensures CacheKeyOf(k, f) in tm <==> CacheKeyOf(k, f) in d.tm
    ensures CacheKeyOf(k, f) in tm ==> tm[CacheKeyOf(k, f)] == d.tm[CacheKeyOf(k, f)]
  {
    var c := CacheKeyOf(k, f);
    forall g | g in source && CacheKeyOf(k, g) == c ensures g == f {
      assert g.key == f.key;
    }
  }

  /** After a run with a provider every key that was queued is in the memory. */
  lemma QueuedIsRemembered(k: Keys, d: Inputs, source: seq<Flat>, translated: map<string, string>,
                           leq: (string, string) -> bool, o: Outcome, f: Flat)
    requires Completed(k, d, source, translated, leq, o) && f in source
    requires Reused(k, d, f).Failure? && d.allowTranslate
    ensures CacheKeyOf(k, f) in o.tm && o.tm[CacheKeyOf(k, f)] == o.values[f.key]
  {
    PendingTranslated(k, d, source, translated, f);
  }

  /** Where nothing was translated, what the memory has for a key is the key's value. */
  lemma MemoryAgrees(k: Keys, d: Inputs, source: seq<Flat>, translated: map<string, string>,
                     leq: (string, string) -> bool, o: Outcome, f: Flat)
    requires Injective(k) && DistinctKeys(source) && f in source
    requires Completed(k, d, source, translated, leq, o)
    requires Reused(k, d, f).Success? || !d.allowTranslate
    ensures CacheKeyOf(k, f) in o.tm ==> o.tm[CacheKeyOf(k, f)] == o.values[f.key]
  {
    MemoryKept(k, d, source, translated, o.tm, f);
  }

  lemma ReusedValue(k: Keys, d: Inputs, f: Flat, value: string)
    requires !(d.allowTranslate && f.key in d.fallback)
    requires CacheKeyOf(k, f) in d.tm ==> d.tm[CacheKeyOf(k, f)] == value
    requires f.key in d.existing ==> d.existing[f.key] == value
    ensures if CacheKeyOf(k, f) in d.tm || f.key in d.existing then Reused(k, d, f) == Success(value)
            else Reused(k, d, f).Failure?
  {
  }

  /** A key that stays or is remembered is reused in the second run, with its value. */
  lemma ReusedAgain(k: Keys, d: Inputs, d': Inputs, source: seq<Flat>, translated: map<string, string>,
                    leq: (string, string) -> bool, o: Outcome, f: Flat)
    requires Injective(k) && DistinctKeys(source) && f in source
    requires Completed(k, d, source, translated, leq, o) && Follows(d, o, d')
    ensures KeyStays(f.key) || CacheKeyOf(k, f) in o.tm ==> Reused(k, d', f) == Success(o.values[f.key])
    ensures !KeyStays(f.key) && CacheKeyOf(k, f) !in o.tm ==> Reused(k, d', f).Failure? && f.key !in d'.existing
  {
    if d.allowTranslate {
      ProviderLeavesNoFallback(k, d, source, translated, leq, o);
    }
    if Reused(k, d, f).Failure? && d.allowTranslate {
      QueuedIsRemembered(k, d, source, translated, leq, o, f);
    } else {
      MemoryAgrees(k, d, source, translated, leq, o, f);
    }
    ReusedValue(k, d', f, o.values[f.key]);
  }

  lemma {:induction false} NonePending(k: Keys, d: Inputs, source: seq<Flat>)
    requires forall f :: f in source ==> Reused(k, d, f).Success?
    ensures Pending(k, d, source) == []
  {
    if source != [] {
      var front, last := source[..|source| - 1], source[|source| - 1];
      assert source == front + [last];
      NonePending(k, d, front);
    }
  }

  lemma SettledKey(k: Keys, d: Inputs, d': Inputs, source: seq<Flat>, translated: map<string, string>,
                   translated': map<string, string>, leq: (string, string) -> bool, o: Outcome, o': Outcome, f: Flat)
    requires Injective(k) && DistinctKeys(source) && f in source
    requires Completed(k, d, source, translated, leq, o) && Follows(d, o, d')
    requires Completed(k, d', source, translated', leq, o')
    requires KeySettled(k, d.allowTranslate, f, o.fallback, o.tm)
    ensures d.allowTranslate ==> Reused(k, d', f).Success?
    ensures f.key in o.values && f.key in o'.values && (KeyStays(f.key) ==> o'.values[f.key] == o.values[f.key])
    ensures f.key in o'.fallback <==> f.key in o.fallback
  {
    ReusedAgain(k, d, d', source, translated, leq, o, f);
  }

  /** When every key is settled, the second run decides the same fallback keys and, for what
      stays in the tree, the same values; it leaves the memory alone. */
  lemma SettledDecisions(k: Keys, d: Inputs, d': Inputs, source: seq<Flat>, translated: map<string, string>,
                         translated': map<string, string>, leq: (string, string) -> bool, o: Outcome, o': Outcome)
    requires Injective(k) && DistinctKeys(source)
    requires Completed(k, d, source, translated, leq, o) && Follows(d, o, d')
    requires Completed(k, d', source, translated', leq, o')
    requires Settled(k, d.allowTranslate, source, o.fallback, o.tm)
    ensures o'.tm == o.tm && StayingValues(o'.values) == StayingValues(o.values)
    ensures forall key :: key in o'.fallback <==> key in o.fallback
  {
    forall f | f in source
      ensures d.allowTranslate ==> Reused(k, d', f).Success?
      ensures KeyStays(f.key) ==> o'.values[f.key] == o.values[f.key]
      ensures f.key in o'.fallback <==> f.key in o.fallback
    {
      assert KeySettled(k, d.allowTranslate, f, o.fallback, o.tm);
      SettledKey(k, d, d', source, translated, translated', leq, o, o', f);
    }
    SameFallback(source, o, o');
    if d.allowTranslate {
      NonePending(k, d', source);
    }
    assert translated' == map[];
    assert o'.tm == o.tm;
  }

  lemma SameFallback(source: seq<Flat>, o: Outcome, o': Outcome)
    requires o.values.Keys == KeySet(source) && o'.values.Keys == KeySet(source)
    requires forall key :: key in o.fallback ==> key in o.values
    requires forall key :: key in o'.fallback ==> key in o'.values
    requires forall f :: f in source ==> (f.key in o'.fallback <==> f.key in o.fallback)
    requires forall f :: f in source && KeyStays(f.key) ==> o'.values[f.key] == o.values[f.key]
    ensures StayingValues(o'.values) == StayingValues(o.values)
    ensures forall key :: key in o'.fallback <==> key in o.fallback
  {
    forall key | key in KeySet(source)
      ensures key in o'.fallback <==> key in o.fallback
      ensures KeyStays(key) ==> o'.values[key] == o.values[key]
    {
      var f :| f in source && f.key == key;
    }
  }

  /** A key that is not settled is translated anew, or becomes a fallback. */
  lemma UnsettledChanges(k: Keys, d: Inputs, d': Inputs, source: seq<Flat>, translated: map<string, string>,
                         translated': map<string, string>, leq: (string, string) -> bool, o: Outcome, o': Outcome, f: Flat)
    requires Injective(k) && DistinctKeys(source) && f in source
    requires Completed(k, d, source, translated, leq, o) && Follows(d, o, d')
    requires Completed(k, d', source, translated', leq, o')
    requires !KeySettled(k, d.allowTranslate, f, o.fallback, o.tm)
    ensures if d.allowTranslate then o'.tm != o.tm else f.key !in o.fallback && f.key in o'.fallback
  {
    ReusedAgain(k, d, d', source, translated, leq, o, f);
    if d.allowTranslate {
      PendingTranslated(k, d', source, translated', f);
      assert CacheKeyOf(k, f) in o'.tm;
    }
  }

  /** Without ties the sorted fallback keys can be listed in one way only. */
  lemma OneListing(leq: (string, string) -> bool, a: seq<string>, b: seq<string>)
    requires TotalPreorder(leq) && NoTies(leq, a) && SortedBy(leq, a) && SortedBy(leq, b) && NoRepeats(a) && NoRepeats(b)
    requires forall key :: key in a <==> key in b
    ensures a == b
  {
    DistinctIffOnce(a);
    DistinctIffOnce(b);
    forall key ensures multiset(a)[key] == multiset(b)[key] {
      assert key in multiset(a) <==> key in a;
      assert key in multiset(b) <==> key in b;
    }
    assert multiset(a) == multiset(b);
    SortCanonical(leq, a);
  }

  /** The same locale and memory, and the same fallback keys in some order. */
  ghost predicate SameContent(a: Disk, b: Disk) {
    && a.locale == b.locale && a.tm == b.tm
    && forall key :: key in FallbackKeys(a.meta) <==> key in FallbackKeys(b.meta)
  }

  /** Two runs on the same source one after the other, at whatever times. */
  ghost predicate TwoRuns(k: Keys, leq: (string, string) -> bool, env: Env, now: int, sourceMap: Entries,
                          disk: Disk, disk1: Disk, disk2: Disk, translated: map<string, string>,
                          translated': map<string, string>, o: Outcome, o': Outcome)
  {
    && PlainKeys(sourceMap) && Injective(k) && TotalPreorder(leq)
    && Run(k, leq, env, Flatten(sourceMap), disk, disk1, translated, o)
    && Run(k, leq, env.(now := now), Flatten(sourceMap), disk1, disk2, translated', o')
  }

  lemma RunWrote(k: Keys, leq: (string, string) -> bool, env: Env, source: seq<Flat>, disk: Disk, disk': Disk,
                 translated: map<string, string>, o: Outcome)
    requires Run(k, leq, env, source, disk, disk', translated, o)
    ensures Completed(k, InputsOf(env, disk), source, translated, leq, o)
    ensures Rebuild(env.throws, [], Valued(source, o.values)) == Some(disk'.locale)
    ensures disk' == Disk(disk'.locale, Some(NextMeta(env, disk.meta, o.fallback, |source|)), o.tm)
    ensures FallbackKeys(disk'.meta) == o.fallback
  {
  }

  lemma SecondReads(k: Keys, leq: (string, string) -> bool, env: Env, now: int, sourceMap: Entries,
                    disk: Disk, disk1: Disk, disk2: Disk, translated: map<string, string>,
                    translated': map<string, string>, o: Outcome, o': Outcome)
    requires TwoRuns(k, leq, env, now, sourceMap, disk, disk1, disk2, translated, translated', o, o')
    ensures Follows(InputsOf(env, disk), o, InputsOf(env, disk1)) && DistinctKeys(Flatten(sourceMap))
  {
    FlattenListsLeaves(sourceMap);
    RunWrote(k, leq, env, Flatten(sourceMap), disk, disk1, translated, o);
    ValuesReadBack(env.throws, sourceMap, o.values);
  }

  /** With the same fallback list, the metadata stays as it is, date included. */
  lemma SameMeta(env: Env, now: int, previous: Option<Meta>, fallback: seq<string>, total: int)
    ensures var meta := Some(NextMeta(env, previous, fallback, total));
            Some(NextMeta(env.(now := now), meta, fallback, total)) == meta
  {
  }

  lemma {:induction false} SecondQueuesNothing(k: Keys, d: Inputs, d': Inputs, source: seq<Flat>, translated: map<string, string>,
                                               leq: (string, string) -> bool, o: Outcome)
    requires Injective(k) && DistinctKeys(source) && forall f :: f in source ==> KeyStays(f.key)
    requires Completed(k, d, source, translated, leq, o) && Follows(d, o, d')
    ensures Pending(k, d', source) == []
  {
    forall f | f in source ensures Reused(k, d', f).Success? {
      ReusedAgain(k, d, d', source, translated, leq, o, f);
    }
    NonePending(k, d', source);
  }

  /** A second run on an unchanged source, with or without a provider, leaves the content of
      every file as it is exactly when every key whose walk leaves the tree is in the memory
      or already a recorded fallback. */
  lemma SecondRunExactly(k: Keys, leq: (string, string) -> bool, env: Env, now: int, sourceMap: Entries,
                         disk: Disk, disk1: Disk, disk2: Disk, translated: map<string, string>,
                         translated': map<string, string>, o: Outcome, o': Outcome)
    requires TwoRuns(k, leq, env, now, sourceMap, disk, disk1, disk2, translated, translated', o, o')
    ensures SameContent(disk1, disk2) <==>
            Settled(k, env.allowTranslate, Flatten(sourceMap), FallbackKeys(disk1.meta), disk1.tm)
  {
    var source := Flatten(sourceMap);
    SecondReads(k, leq, env, now, sourceMap, disk, disk1, disk2, translated, translated', o, o');
    RunWrote(k, leq, env, source, disk, disk1, translated, o);
    RunWrote(k, leq, env.(now := now), source, disk1, disk2, translated', o');
    if Settled(k, env.allowTranslate, source, o.fallback, o.tm) {
      SettledDecisions(k, InputsOf(env, disk), InputsOf(env, disk1), source, translated, translated', leq, o, o');
      SameStayingTree(env.throws, sourceMap, o.values, o'.values);
    } else {
      var f :| f in source && !KeySettled(k, env.allowTranslate, f, o.fallback, o.tm);
      UnsettledChanges(k, InputsOf(env, disk), InputsOf(env, disk1), source, translated, translated', leq, o, o', f);
    }
  }

  lemma LeavesAgree(ls: seq<LeafAt>, a: map<string, string>, b: map<string, string>)
    requires DistinctPaths(ls) && StayingValues(a) == StayingValues(b) && a.Keys == b.Keys
    ensures AgreeInside(ls, [], a, b)
  {
    forall i | 0 <= i < |ls| && Inside(ls[i].path) ensures NewText(ls[i], [], a) == NewText(ls[i], [], b) {
      SplitJoin(ls[i].path, '.');
      assert [] + ls[i].path == ls[i].path;
      var key := Join(ls[i].path, ".");
      assert key in a ==> key in StayingValues(a);
      assert key in b ==> key in StayingValues(b);
    }
  }

  lemma SameStayingTree(throws: string -> bool, sourceMap: Entries, a: map<string, string>, b: map<string, string>)
    requires PlainKeys(sourceMap) && StayingValues(a) == StayingValues(b) && a.Keys == b.Keys
    ensures Rebuild(throws, [], Valued(Flatten(sourceMap), a)) == Rebuild(throws, [], Valued(Flatten(sourceMap), b))
  {
    ValuedTree(sourceMap, a);
    ValuedTree(sourceMap, b);
    RebuildIsKept(throws, Retext(sourceMap, [], a));
    RebuildIsKept(throws, Retext(sourceMap, [], b));
    ThrowsByKey(throws, Flatten(sourceMap), a);
    ThrowsByKey(throws, Flatten(sourceMap), b);
    LeavesDistinct(sourceMap);
    LeavesAgree(Leaves(sourceMap), a, b);
    KeptRetext(sourceMap, [], a, b);
  }

  /** When no walk of the source leaves the tree, a second run finds nothing to translate and
      leaves the locale, the memory and the set of fallback keys as they are.  The metadata is
      the same too exactly when the keys are listed in the same order. */
  lemma SecondRunChangesNothing(k: Keys, leq: (string, string) -> bool, env: Env, now: int, sourceMap: Entries,
                                disk: Disk, disk1: Disk, disk2: Disk, translated: map<string, string>,
                                translated': map<string, string>, o: Outcome, o': Outcome)
    requires TwoRuns(k, leq, env, now, sourceMap, disk, disk1, disk2, translated, translated', o, o')
    requires StaysInside(sourceMap)
    ensures Pending(k, InputsOf(env, disk1), Flatten(sourceMap)) == []
    ensures SameContent(disk1, disk2)
    ensures disk2 == disk1 <==> FallbackKeys(disk2.meta) == FallbackKeys(disk1.meta)
    ensures NoTies(leq, FallbackKeys(disk1.meta)) ==> disk2 == disk1
  {
    var source := Flatten(sourceMap);
    StaysByKeys(sourceMap);
    SecondReads(k, leq, env, now, sourceMap, disk, disk1, disk2, translated, translated', o, o');
    SecondQueuesNothing(k, InputsOf(env, disk), InputsOf(env, disk1), source, translated, leq, o);
    SecondRunExactly(k, leq, env, now, sourceMap, disk, disk1, disk2, translated, translated', o, o');
    RunWrote(k, leq, env, source, disk, disk1, translated, o);
    RunWrote(k, leq, env.(now := now), source, disk1, disk2, translated', o');
    SameMeta(env, now, disk.meta, o.fallback, |source|);
    if NoTies(leq, o.fallback) {
      OneListing(leq, o.fallback, o'.fallback);
    }
  }

  /** A run without a provider on one key that has an existing text and no memory entry. */
  lemma ExistingTextReused(k: Keys, d: Inputs, f: Flat, translated: map<string, string>, leq: (string, string) -> bool, o: Outcome)
    requires Completed(k, d, [f], translated, leq, o)
    requires !d.allowTranslate && d.tm == map[] && d.fallback == {} && f.key in d.existing
    ensures o.values == map[f.key := d.existing[f.key]] && o.fallback == [] && o.tm == map[]
  {
    assert f in [f] && KeySet([f]) == {f.key};
    assert !FallsBack(k, d, translated, f);
    HasFirst(o.fallback);
    assert o.values.Keys == {f.key};
  }

  lemma TextNotWritten(k: Keys, leq: (string, string) -> bool, env: Env, disk: Disk, disk1: Disk,
                       translated: map<string, string>, o: Outcome)
    requires Run(k, leq, env, Flatten(UnderConstructor("x")), disk, disk1, translated, o)
    requires !env.allowTranslate && disk == Disk(UnderConstructor("y"), None, map[])
    ensures o.values == map["constructor.a" := "y"] && o.fallback == [] && o.tm == map[] && disk1.locale == []
  {
    InheritedParentIsLost(env.throws, "x");
    InheritedParentIsLost(env.throws, "y");
    var f, existing := Flat("constructor.a", "x"), [Flat("constructor.a", "y")];
    assert existing[..0] == [] && MapOf(existing) == map["constructor.a" := "y"];
    ExistingTextReused(k, InputsOf(env, disk), f, translated, leq, o);
    assert Valued([f], o.values) == existing by {
      assert [f][1..] == [];
    }
  }

  /** Without a provider, the existing text of a key below `constructor` is not written back,
      and the next run records the key as an English fallback. */
  lemma SecondRunLosesText(k: Keys, leq: (string, string) -> bool, env: Env, now: int, disk: Disk, disk1: Disk,
                           disk2: Disk, translated: map<string, string>, translated': map<string, string>,
                           o: Outcome, o': Outcome)
    requires TwoRuns(k, leq, env, now, UnderConstructor("x"), disk, disk1, disk2, translated, translated', o, o')
    requires !env.allowTranslate && disk == Disk(UnderConstructor("y"), None, map[])
    ensures o.values == map["constructor.a" := "y"] && disk1.locale == []
    ensures FallbackKeys(disk1.meta) == [] && FallbackKeys(disk2.meta) == ["constructor.a"]
  {
    TextNotWritten(k, leq, env, disk, disk1, translated, o);
    InheritedParentIsLost(env.throws, "x");
    var f, source := Flat("constructor.a", "x"), Flatten(UnderConstructor("x"));
    assert source == [f] && f in source && !KeyStays(f.key);
    SecondReads(k, leq, env, now, UnderConstructor("x"), disk, disk1, disk2, translated, translated', o, o');
    RunWrote(k, leq, env, source, disk, disk1, translated, o);
    RunWrote(k, leq, env.(now := now), source, disk1, disk2, translated', o');
    UnsettledChanges(k, InputsOf(env, disk), InputsOf(env, disk1), source, translated, translated', leq, o, o', f);
    OnlyKey(k, InputsOf(env, disk1), f, translated', leq, o');
  }

  lemma OnlyKey(k: Keys, d: Inputs, f: Flat, translated: map<string, string>, leq: (string, string) -> bool, o: Outcome)
    requires Completed(k, d, [f], translated, leq, o) && f.key in o.fallback
    ensures o.fallback == [f.key]
  {
    assert KeySet([f]) == {f.key};
    OnlyOne(o.fallback, f.key);
  }

  lemma OnlyOne(keys: seq<string>, key: string)
    requires NoRepeats(keys) && key in keys && forall other :: other in keys ==> other == key
    ensures keys == [key]
  {
    SetSize(keys);
    assert (set other | other in keys) == {key};
    assert keys[0] in keys;
  }
}
