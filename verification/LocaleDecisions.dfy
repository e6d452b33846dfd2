/** What one run of the translation sync (scripts/control-ui-i18n.ts) does with every key, said
    of the files it reads and writes. */
module LocaleDecisions {
  import opened Wrappers
  import opened JsText
  import opened JsTextLaws
  import opened JsObjects
  import opened StableSort
  import opened TranslationTree
  import opened TranslationBatches
  import opened BatchTranslation
  import opened LocaleSync
  import opened LocaleRuns

  // ---------------------------------------------------------------- one key

  /** What becomes of a source text: a remembered translation comes first, then the text in
      the locale file; but a key that was a fallback is translated anew when there is a
      provider.  What is left is translated, or without a provider falls back to English. */
  ghost predicate Decision(f: Flat, remembered: Option<string>, existing: Option<string>, wasFallback: bool, provider: bool,
                           translation: Option<string>, value: string, falls: bool)
  {
    if remembered.Some? && !(provider && wasFallback) then value == remembered.value && falls == wasFallback
    else if existing.Some? && !(provider && wasFallback) then value == existing.value && falls == wasFallback
    else if provider then translation == Some(value) && (exists c :: c in value && !IsWhitespace(c)) && !falls
    else value == f.text && falls
  }

  function TextAt(m: map<string, string>, key: string): Option<string> {
    if key in m then Some(m[key]) else None
  }

  lemma PendingDecided(k: Keys, d: Inputs, source: seq<Flat>, translated: map<string, string>, f: Flat)
    requires Received(k, d, source, translated) && f in source && Reused(k, d, f).Failure?
    ensures d.allowTranslate ==>
              f.key in translated && translated[f.key] != "" && exists c :: c in translated[f.key] && !IsWhitespace(c)
    ensures !d.allowTranslate ==> f.key !in translated && f.key !in d.existing
  {
    if d.allowTranslate {
      PendingTranslated(k, d, source, translated, f);
      BlankExactly(translated[f.key]);
    }
  }

  /** In a completed run every key is decided so. */
  lemma KeyDecided(k: Keys, d: Inputs, source: seq<Flat>, translated: map<string, string>,
                   leq: (string, string) -> bool, o: Outcome, f: Flat)
    requires Completed(k, d, source, translated, leq, o) && f in source
    ensures f.key in o.values
    ensures Decision(f, TextAt(d.tm, k.cacheKey(f.key, k.hash(f.text))), TextAt(d.existing, f.key), f.key in d.fallback,
                     d.allowTranslate, TextAt(translated, f.key), o.values[f.key], f.key in o.fallback)
  {
    assert f.key in KeySet(source);
    if Reused(k, d, f).Failure? {
      PendingDecided(k, d, source, translated, f);
    }
  }

  lemma SameWithForce(k: Keys, d: Inputs, source: seq<Flat>, translated: map<string, string>, f: Flat, force: bool)
    requires Received(k, d, source, translated) && f in source
    ensures Reused(k, d.(force := force), f) == Reused(k, d, f)
    ensures ValueOf(k, d.(force := force), translated, f) == ValueOf(k, d, translated, f)
    ensures FallsBack(k, d.(force := force), translated, f) <==> FallsBack(k, d, translated, f)
  {
    if Reused(k, d, f).Failure? {
      PendingDecided(k, d, source, translated, f);
    }
  }

  lemma {:induction false} SamePending(k: Keys, d: Inputs, source: seq<Flat>, force: bool)
    ensures Pending(k, d.(force := force), source) == Pending(k, d, source)
  {
    if source != [] {
      SamePending(k, d, source[..|source| - 1], force);
    }
  }

  /** The `--force` switch decides nothing: a run that completes with it could have completed
      in the same way without it. */
  lemma ForceIsIgnored(k: Keys, d: Inputs, source: seq<Flat>, translated: map<string, string>,
                       leq: (string, string) -> bool, o: Outcome, force: bool)
    requires Completed(k, d, source, translated, leq, o)
    ensures Completed(k, d.(force := force), source, translated, leq, o)
  {
    var d' := d.(force := force);
    SamePending(k, d, source, force);
    forall f | f in source
      ensures Reused(k, d', f) == Reused(k, d, f) && ValueOf(k, d', translated, f) == ValueOf(k, d, translated, f)
      ensures FallsBack(k, d', translated, f) <==> FallsBack(k, d, translated, f)
    {
      SameWithForce(k, d, source, translated, f, force);
    }
  }

  // ---------------------------------------------------------------- what is queued

  /** A key is queued when neither a remembered nor an existing text may be taken over. */
  ghost predicate Queued(k: Keys, d: Inputs, f: Flat) {
    || (k.cacheKey(f.key, k.hash(f.text)) !in d.tm && f.key !in d.existing)
    || (d.allowTranslate && f.key in d.fallback)
  }

  /** `items` asks for the text of each queued key and of no other, in source order. */
  ghost predicate Asks(k: Keys, d: Inputs, source: seq<Flat>, items: seq<BatchItem>, at: seq<nat>) {
    && |at| == |items|
    && (forall i, j :: 0 <= i < j < |at| ==> at[i] < at[j])
    && (forall i :: 0 <= i < |at| ==> at[i] < |source| && Queued(k, d, source[at[i]]) && AsksFor(k, items[i], source[at[i]]))
    && (forall n :: 0 <= n < |source| && Queued(k, d, source[n]) ==> n in at)
  }

  ghost predicate AsksFor(k: Keys, item: BatchItem, f: Flat) {
    item == BatchItem(k.cacheKey(f.key, k.hash(f.text)), f.key, f.text, k.hash(f.text))
  }

  lemma AsksGrows(k: Keys, d: Inputs, source: seq<Flat>, f: Flat, items: seq<BatchItem>, at: seq<nat>)
    requires Asks(k, d, source, items, at) && Queued(k, d, f)
    ensures Asks(k, d, source + [f], items + [ItemOf(k, f)], at + [|source|])
  {
    var all := source + [f];
    forall n | 0 <= n < |all| && Queued(k, d, all[n]) ensures n in at + [|source|] {
      assert n < |source| ==> n in at;
    }
  }

  lemma {:induction false} QueueExactly(k: Keys, d: Inputs, source: seq<Flat>) returns (at: seq<nat>)
    ensures Asks(k, d, source, Pending(k, d, source), at)
  {
    if source == [] {
      at := [];
    } else {
      var front, last := source[..|source| - 1], source[|source| - 1];
      at := QueueExactly(k, d, front);
      assert source == front + [last];
      if Queued(k, d, last) {
        AsksGrows(k, d, front, last, Pending(k, d, front), at);
        at := at + [|front|];
      } else {
        assert Pending(k, d, source) == Pending(k, d, front);
      }
    }
  }

  // ---------------------------------------------------------------- one run on the files

  lemma {:induction false} SetAdds(m: seq<Flat>, key: string, text: string, f: Flat)
    requires f in MapSet(m, key, text)
    ensures f.key == key || f in m
  {
    if m != [] && m[0].key != key && f != m[0] {
      SetAdds(m[1..], key, text, f);
    }
  }

  lemma SetHead(m: seq<Flat>, key: string, text: string)
    requires m != [] && m[0].key == key && DistinctKeys(m)
    ensures DistinctKeys(MapSet(m, key, text))
  {
    HeadIsNew(m);
    ConsDistinct(Flat(key, text), m[1..]);
  }

  lemma {:induction false} SetKeepsKeys(m: seq<Flat>, key: string, text: string)
    requires DistinctKeys(m)
    ensures DistinctKeys(MapSet(m, key, text))
  {
    if m != [] && m[0].key == key {
      SetHead(m, key, text);
    } else if m != [] {
      var next := MapSet(m[1..], key, text);
      HeadIsNew(m);
      SetKeepsKeys(m[1..], key, text);
      forall f | f in next ensures f.key != m[0].key {
        SetAdds(m[1..], key, text, f);
      }
      ConsDistinct(m[0], next);
    }
  }

  lemma HeadIsNew(m: seq<Flat>)
    requires m != [] && DistinctKeys(m)
    ensures DistinctKeys(m[1..]) && forall f :: f in m[1..] ==> f.key != m[0].key
  {
    var rest := m[1..];
    assert forall i :: 0 <= i < |rest| ==> rest[i] == m[i + 1];
  }

  lemma ConsDistinct(f: Flat, rest: seq<Flat>)
    requires DistinctKeys(rest) && forall g :: g in rest ==> g.key != f.key
    ensures DistinctKeys([f] + rest)
  {
    var all := [f] + rest;
    forall i, j | 0 <= i < j < |all| ensures all[i].key != all[j].key {
      assert all[j] in rest;
    }
  }

  lemma {:induction false} FlattenedDistinct(es: Entries, prefix: string, out: seq<Flat>)
    requires DistinctKeys(out)
    ensures DistinctKeys(FlattenInto(es, prefix, out))
    decreases es
  {
    if es != [] {
      var fullKey := FullKey(prefix, es[0].key);
      match es[0].value {
        case Leaf(text) =>
          SetKeepsKeys(out, fullKey, text);
          FlattenedDistinct(es[1..], prefix, MapSet(out, fullKey, text));
        case Node(entries) =>
          FlattenedDistinct(entries, fullKey, out);
          FlattenedDistinct(es[1..], prefix, FlattenInto(entries, fullKey, out));
      }
    }
  }

  /** The text of a key in a locale file. */
  ghost predicate TextIn(locale: Entries, key: string, text: Option<string>) {
    match text
    case Some(t) => Flat(key, t) in Flatten(locale)
    case None => forall f :: f in Flatten(locale) ==> f.key != key
  }

  lemma TextIs(locale: Entries, key: string)
    ensures TextIn(locale, key, TextAt(MapOf(Flatten(locale)), key))
  {
    var fs := Flatten(locale);
    FlattenedDistinct(locale, "", []);
    MapOfAt(fs);
    if key in MapOf(fs) {
      var f :| f in fs && f.key == key;
      assert f == Flat(key, f.text);
    } else {
      forall f | f in fs ensures f.key != key {
        assert f.key in KeySet(fs);
      }
    }
  }

  /** A completed run decides every source key from the files it read, and records in the new
      metadata just the keys that fell back. */
  lemma RunDecides(k: Keys, leq: (string, string) -> bool, env: Env, source: seq<Flat>, disk: Disk, disk': Disk,
                   translated: map<string, string>, o: Outcome, f: Flat) returns (existing: Option<string>)
    requires LocaleRuns.Run(k, leq, env, source, disk, disk', translated, o) && f in source
    ensures TextIn(disk.locale, f.key, existing)
    ensures f.key in o.values && disk'.meta.Some?
    ensures Decision(f, TextAt(disk.tm, k.cacheKey(f.key, k.hash(f.text))), existing,
                     disk.meta.Some? && f.key in disk.meta.value.fallbackKeys, env.allowTranslate,
                     TextAt(translated, f.key), o.values[f.key], f.key in disk'.meta.value.fallbackKeys)
  {
    RunWrote(k, leq, env, source, disk, disk', translated, o);
    KeyDecided(k, InputsOf(env, disk), source, translated, leq, o, f);
    existing := TextAt(MapOf(Flatten(disk.locale)), f.key);
    TextIs(disk.locale, f.key);
  }

  lemma QueuedRemembered(k: Keys, d: Inputs, source: seq<Flat>, translated: map<string, string>,
                         leq: (string, string) -> bool, o: Outcome, f: Flat)
    requires Completed(k, d, source, translated, leq, o) && f in source && d.allowTranslate && Queued(k, d, f)
    ensures f.key in o.values && TextAt(o.tm, k.cacheKey(f.key, k.hash(f.text))) == Some(o.values[f.key])
  {
    KeyDecided(k, d, source, translated, leq, o, f);
    PendingDecided(k, d, source, translated, f);
    assert CacheKeyOf(k, f) in o.tm && o.tm[CacheKeyOf(k, f)] == translated[f.key];
  }

  lemma RememberedFrom(k: Keys, d: Inputs, source: seq<Flat>, translated: map<string, string>,
                       leq: (string, string) -> bool, o: Outcome, c: string)
    requires Completed(k, d, source, translated, leq, o) && TextAt(o.tm, c) != TextAt(d.tm, c)
    ensures d.allowTranslate && exists f :: f in source && Queued(k, d, f) && c == k.cacheKey(f.key, k.hash(f.text))
  {
    var f :| f in source && Reused(k, d, f).Failure? && f.key in translated && c == CacheKeyOf(k, f);
    assert Queued(k, d, f);
  }

  /** With a provider the memory gains the value of every queued key under the key's memory
      key; it changes nowhere else. */
  lemma RunRemembers(k: Keys, leq: (string, string) -> bool, env: Env, source: seq<Flat>, disk: Disk, disk': Disk,
                     translated: map<string, string>, o: Outcome)
    requires LocaleRuns.Run(k, leq, env, source, disk, disk', translated, o)
    ensures forall f :: f in source && env.allowTranslate && Queued(k, InputsOf(env, disk), f) ==>
              f.key in o.values && TextAt(disk'.tm, k.cacheKey(f.key, k.hash(f.text))) == Some(o.values[f.key])
    ensures forall c :: TextAt(disk'.tm, c) != TextAt(disk.tm, c) ==>
              env.allowTranslate && exists f :: f in source && Queued(k, InputsOf(env, disk), f) && c == k.cacheKey(f.key, k.hash(f.text))
  {
    var d := InputsOf(env, disk);
    RunWrote(k, leq, env, source, disk, disk', translated, o);
    forall f | f in source && env.allowTranslate && Queued(k, d, f)
      ensures f.key in o.values && TextAt(disk'.tm, k.cacheKey(f.key, k.hash(f.text))) == Some(o.values[f.key])
    {
      QueuedRemembered(k, d, source, translated, leq, o, f);
    }
    forall c | TextAt(disk'.tm, c) != TextAt(disk.tm, c)
      ensures env.allowTranslate && exists f :: f in source && Queued(k, d, f) && c == k.cacheKey(f.key, k.hash(f.text))
    {
      RememberedFrom(k, d, source, translated, leq, o, c);
    }
  }

  /** Such a value is what the next run reads under the key, if the key's walk stays in the tree. */
  lemma RunWrites(k: Keys, leq: (string, string) -> bool, env: Env, sourceMap: Entries, disk: Disk, disk': Disk,
                  translated: map<string, string>, o: Outcome, f: Flat)
    requires PlainKeys(sourceMap) && LocaleRuns.Run(k, leq, env, Flatten(sourceMap), disk, disk', translated, o) && f in Flatten(sourceMap)
    ensures f.key in o.values
    ensures TextIn(disk'.locale, f.key, if KeyStays(f.key) then Some(o.values[f.key]) else None)
  {
    RunWrote(k, leq, env, Flatten(sourceMap), disk, disk', translated, o);
    ValuesReadBack(env.throws, sourceMap, o.values);
    assert f.key in KeySet(Flatten(sourceMap));
    TextIs(disk'.locale, f.key);
  }

  // ---------------------------------------------------------------- the metadata

  /** The counts add up, and the date moves exactly when something else has changed. */
  lemma MetaExactly(env: Env, previous: Option<Meta>, fallback: seq<string>, total: int)
    ensures var meta := NextMeta(env, previous, fallback, total);
            && meta.fallbackKeys == fallback && meta.totalKeys == total == meta.translatedKeys + |fallback|
            && meta.locale == env.locale && meta.sourceHash == env.sourceHash && meta.workflow == 1
            && (env.allowTranslate ==> meta.provider == env.provider && meta.model == env.model)
            && (!env.allowTranslate && previous.Some? ==> meta.provider == previous.value.provider && meta.model == previous.value.model)
            && (!env.allowTranslate && previous.None? ==> meta.provider == meta.model == "")
            && meta.generatedAt == (if previous.Some? && previous.value.(generatedAt := meta.generatedAt) == meta
                                    then previous.value.generatedAt else env.now)
  {
  }

  lemma FellKeys(source: seq<Flat>, fallback: seq<string>)
    requires LocaleSync.NoRepeats(fallback) && forall key :: key in fallback ==> key in KeySet(source)
    ensures |set f | f in source && f.key in fallback :: f.key| == |fallback|
  {
    SetSize(fallback);
    assert (set f | f in source && f.key in fallback :: f.key) == set key | key in fallback;
  }

  lemma KeptKeys(source: seq<Flat>, fallback: seq<string>)
    requires DistinctKeys(source) && LocaleSync.NoRepeats(fallback)
    requires forall key :: key in fallback ==> key in KeySet(source)
    ensures |set f | f in source && f.key !in fallback :: f.key| + |fallback| == |source|
  {
    KeySetSize(source);
    SetSize(fallback);
    var fell := set key | key in fallback;
    assert fell <= KeySet(source) && |KeySet(source) - fell| == |KeySet(source)| - |fell|;
    assert (set f | f in source && f.key !in fallback :: f.key) == KeySet(source) - fell;
  }

  /** The recorded counts are those of the keys that did and did not fall back. */
  lemma RecordedCounts(k: Keys, leq: (string, string) -> bool, env: Env, source: seq<Flat>, disk: Disk, disk': Disk,
                       translated: map<string, string>, o: Outcome)
    requires LocaleRuns.Run(k, leq, env, source, disk, disk', translated, o) && DistinctKeys(source)
    ensures disk'.meta.Some?
    ensures var meta := disk'.meta.value;
            && meta.totalKeys == |source|
            && |meta.fallbackKeys| == |set f | f in source && f.key in meta.fallbackKeys :: f.key|
            && meta.translatedKeys == |set f | f in source && f.key !in meta.fallbackKeys :: f.key|
  {
    RunWrote(k, leq, env, source, disk, disk', translated, o);
    KeptKeys(source, o.fallback);
    FellKeys(source, o.fallback);
    MetaExactly(env, disk.meta, o.fallback, |source|);
  }

  // ---------------------------------------------------------------- keys that a locale cannot have

  function OneBelow(key: string, text: string): Entries {
    [JsObjects.Entry(key, Node([JsObjects.Entry("a", Leaf(text))]))]
  }

  lemma OneBelowLeaves(key: string, text: string)
    ensures Leaves(OneBelow(key, text)) == [LeafAt([key, "a"], text)]
    ensures Prune(OneBelow(key, text)) == OneBelow(key, text)
  {
    var sub := [JsObjects.Entry("a", Leaf(text))];
    assert sub[1..] == [] && OneBelow(key, text)[1..] == [];
    assert Leaves(sub) == [LeafAt(["a"], text)];
    assert Under(key, Leaves(sub)) == [LeafAt([key] + ["a"], text)];
    assert [key] + ["a"] == [key, "a"];
    assert Prune(sub) == sub;
  }

  /** A text one level below a key is rebuilt exactly when the key is none of the twelve that
      every object inherits. */
  lemma InheritedKeys(throws: string -> bool, key: string, text: string)
    requires PlainKeys(OneBelow(key, text))
    ensures Rebuild(throws, [], Flatten(OneBelow(key, text))) == Some(OneBelow(key, text)) <==>
            !(key in {"__proto__", "constructor", "toString", "toLocaleString", "valueOf", "hasOwnProperty", "isPrototypeOf"}
              || key in {"propertyIsEnumerable", "__defineGetter__", "__defineSetter__", "__lookupGetter__", "__lookupSetter__"})
  {
    var es := OneBelow(key, text);
    OneBelowLeaves(key, text);
    RebuildFlattened(throws, es);
    OnePathInside(key);
    assert AllInside(Leaves(es)) <==> Inside([key, "a"]);
  }

  lemma OnePathInside(key: string)
    ensures Inside([key, "a"]) <==> key !in INHERITED
  {
    var path := [key, "a"];
    assert path[0] == key && path[1] == "a";
  }
}
