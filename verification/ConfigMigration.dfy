/** `migrateAmazonBedrockLegacyConfig` (extensions/amazon-bedrock/config-compat.ts) on
    configuration values: what the result holds, and what the reported change says. */
module ConfigMigration {
  import opened Wrappers
  import opened JsObjects
  import opened ObjectCursor
  import opened ConfigMerge

  datatype Change = RemovedEmpty | Moved | Merged | AlreadySet

  const LEGACY_PATH: seq<string> := ["models", "bedrockDiscovery"]
  const CONFIG_PATH: seq<string> := ["plugins", "entries", "amazon-bedrock", "config"]
  const DISCOVERY_PATH: seq<string> := CONFIG_PATH + ["discovery"]

  /** `delete object[key]` */
  function DropKey(es: Record, key: string): Record {
    if es == [] then [] else (if es[0].key == key then [] else [es[0]]) + DropKey(es[1..], key)
  }

  /** `getRecord(object[key])` */
  function RecordAt(es: Record, key: string): Option<Record> {
    match Get(es, key)
    case Some(Node(entries)) => Some(entries)
    case _ => None
  }

  function LegacyOf(es: Record): Option<Record> {
    match RecordAt(es, "models")
    case None => None
    case Some(models) => RecordAt(models, "bedrockDiscovery")
  }

  function RemoveLegacy(es: Record): Record {
    var rest := DropKey(Child(es, "models"), "bedrockDiscovery");
    if rest == [] then DropKey(es, "models") else SetKey(es, "models", Node(rest))
  }

  /** A top-level field that the legacy record has and the existing one lacks. */
  predicate Fills(existing: Record, e: Entry<Json>) {
    e.value != Leaf(Undefined) && e.key !in BLOCKED_OBJECT_KEYS && Read(existing, e.key) == Leaf(Undefined)
  }

  predicate FillsSome(existing: Record, legacy: Record) {
    exists e :: e in legacy && Fills(existing, e)
  }

  function ExistingOf(es: Record): Option<Record> {
    RecordAt(ChildAt(es, CONFIG_PATH), "discovery")
  }

  function Migrate(raw: Tree<Json>): (Tree<Json>, seq<Change>) {
    if raw.Leaf? || LegacyOf(raw.entries).None? then (raw, [])
    else
      var legacy, root := LegacyOf(raw.entries).value, RemoveLegacy(raw.entries);
      if legacy == [] then (Node(root), [RemovedEmpty])
      else
        match ExistingOf(root)
        case None => (Node(PutAt(root, DISCOVERY_PATH, Node(legacy))), [Moved])
        case Some(existing) =>
          (Node(PutAt(root, DISCOVERY_PATH, Node(MergeMissing(existing, legacy)))),
           [if FillsSome(existing, legacy) then Merged else AlreadySet])
  }

  // ---------------------------------------------------------------- reading the result

  lemma {:induction false} GetDrop(es: Record, key: string, other: string)
    ensures Get(DropKey(es, key), other) == if other == key then None else Get(es, other)
  {
    if es != [] {
      GetDrop(es[1..], key, other);
      if es[0].key != key {
        assert ([es[0]] + DropKey(es[1..], key))[1..] == DropKey(es[1..], key);
      } else {
        assert [] + DropKey(es[1..], key) == DropKey(es[1..], key);
      }
    }
  }

  lemma {:induction false} ChildGet(es: Record, key: string)
    ensures Child(es, key) == match Get(es, key) case Some(Node(entries)) => entries case _ => []
  {
    if es != [] && es[0].key != key {
      ChildGet(es[1..], key);
    }
  }

  /** The own property at a path. */
  function Property(es: Record, path: seq<string>): Option<Tree<Json>>
    requires path != []
    decreases |path|
  {
    match Get(es, path[0])
    case None => None
    case Some(v) => if |path| == 1 then Some(v) else if v.Leaf? then None else Property(v.entries, path[1..])
  }

  /** Neither path leads to or through the other. */
  predicate Apart(p: seq<string>, q: seq<string>) {
    !(p <= q) && !(q <= p)
  }

  lemma {:induction false} NoProperty(path: seq<string>)
    requires path != []
    ensures Property([], path) == None
  {
  }

  lemma PropertyUnderChild(es: Record, p: seq<string>)
    requires |p| > 1
    ensures Property(es, p) == Property(Child(es, p[0]), p[1..])
  {
    ChildGet(es, p[0]);
    NoProperty(p[1..]);
  }

  /** Writing at a path leaves every property elsewhere alone, whatever was in the way. */
  lemma {:induction false} PutAtElsewhere(es: Record, path: seq<string>, value: Tree<Json>, p: seq<string>)
    requires path != [] && p != [] && Apart(p, path)
    ensures Property(PutAt(es, path, value), p) == Property(es, p)
    decreases |path|
  {
    var written := if |path| == 1 then value else Node(PutAt(Child(es, path[0]), path[1..], value));
    GetSet(es, path[0], written, p[0]);
    if p[0] == path[0] {
      TailsApart(p, path);
      PutAtElsewhere(Child(es, path[0]), path[1..], value, p[1..]);
      PropertyUnderChild(es, p);
    }
  }

  lemma TailsApart(p: seq<string>, q: seq<string>)
    requires p != [] && q != [] && p[0] == q[0] && Apart(p, q)
    ensures |p| > 1 && |q| > 1 && Apart(p[1..], q[1..])
  {
    PrefixFromTail(p, q);
    PrefixFromTail(q, p);
  }

  lemma PrefixFromTail(p: seq<string>, q: seq<string>)
    requires p != [] && q != [] && p[0] == q[0]
    ensures p[1..] <= q[1..] ==> p <= q
  {
    assert p == [p[0]] + p[1..] && q == [q[0]] + q[1..];
  }

  lemma {:induction false} PutAtThere(es: Record, path: seq<string>, value: Tree<Json>)
    requires path != [] && forall key :: key in path ==> key !in INHERITED
    ensures Property(PutAt(es, path, value), path) == Some(value)
    decreases |path|
  {
    var written := if |path| == 1 then value else Node(PutAt(Child(es, path[0]), path[1..], value));
    GetSet(es, path[0], written, path[0]);
    if |path| > 1 {
      PutAtThere(Child(es, path[0]), path[1..], value);
    }
  }

  lemma RemoveElsewhere(es: Record, p: seq<string>)
    requires p != [] && Apart(p, LEGACY_PATH) && LegacyOf(es).Some?
    ensures Property(RemoveLegacy(es), p) == Property(es, p)
  {
    var models := Child(es, "models");
    var rest := DropKey(models, "bedrockDiscovery");
    ChildGet(es, "models");
    GetDrop(es, "models", p[0]);
    GetSet(es, "models", Node(rest), p[0]);
    if p[0] == "models" {
      TailsApart(p, LEGACY_PATH);
      assert LEGACY_PATH[1..] == ["bedrockDiscovery"];
      GetDrop(models, "bedrockDiscovery", p[1]);
      PropertyUnderChild(es, p);
    }
  }

  lemma LegacyIsGone(es: Record)
    ensures LegacyOf(RemoveLegacy(es)) == None
  {
    var models := Child(es, "models");
    var rest := DropKey(models, "bedrockDiscovery");
    GetDrop(es, "models", "models");
    GetSet(es, "models", Node(rest), "models");
    GetDrop(models, "bedrockDiscovery", "bedrockDiscovery");
  }

  lemma OtherRootKey(es: Record, path: seq<string>, value: Tree<Json>)
    requires path != [] && path[0] != "models"
    ensures LegacyOf(PutAt(es, path, value)) == LegacyOf(es)
  {
    GetSet(es, path[0], if |path| == 1 then value else Node(PutAt(Child(es, path[0]), path[1..], value)), "models");
  }

  /** The discovery record is where it was. */
  lemma ExistingStays(es: Record)
    requires LegacyOf(es).Some?
    ensures ExistingOf(RemoveLegacy(es)) == ExistingOf(es)
  {
    var rest := DropKey(Child(es, "models"), "bedrockDiscovery");
    GetDrop(es, "models", "plugins");
    GetSet(es, "models", Node(rest), "plugins");
    ChildGet(es, "plugins");
    ChildGet(RemoveLegacy(es), "plugins");
  }

  // ---------------------------------------------------------------- the migration

  /** A second migration changes nothing and reports nothing. */
  lemma MigrateTwice(raw: Tree<Json>)
    ensures Migrate(Migrate(raw).0) == (Migrate(raw).0, [])
  {
    if raw.Node? && LegacyOf(raw.entries).Some? {
      var legacy, root := LegacyOf(raw.entries).value, RemoveLegacy(raw.entries);
      LegacyIsGone(raw.entries);
      OtherRootKey(root, DISCOVERY_PATH, Node(legacy));
      if ExistingOf(root).Some? {
        OtherRootKey(root, DISCOVERY_PATH, Node(MergeMissing(ExistingOf(root).value, legacy)));
      }
    }
  }

  /** Outside the two configuration paths every property is as before. */
  lemma MigrateElsewhere(raw: Record, p: seq<string>)
    requires p != [] && Apart(p, LEGACY_PATH) && Apart(p, DISCOVERY_PATH)
    ensures Migrate(Node(raw)).0.Node? && Property(Migrate(Node(raw)).0.entries, p) == Property(raw, p)
  {
    if LegacyOf(raw).Some? {
      var legacy, root := LegacyOf(raw).value, RemoveLegacy(raw);
      RemoveElsewhere(raw, p);
      PutAtElsewhere(root, DISCOVERY_PATH, Node(legacy), p);
      if ExistingOf(root).Some? {
        PutAtElsewhere(root, DISCOVERY_PATH, Node(MergeMissing(ExistingOf(root).value, legacy)), p);
      }
    }
  }

  /** A record with legacy fields: they end up under the plugin's configuration, merged into
      what is explicit there, and are gone from the legacy path. */
  lemma MigrateMoves(raw: Record)
    requires LegacyOf(raw).Some? && LegacyOf(raw).value != []
    ensures var (config, changes) := Migrate(Node(raw));
            && config.Node? && LegacyOf(config.entries) == None
            && Property(config.entries, DISCOVERY_PATH) ==
               Some(Node(match ExistingOf(raw)
                         case None => LegacyOf(raw).value
                         case Some(existing) => MergeMissing(existing, LegacyOf(raw).value)))
  {
    var legacy, root := LegacyOf(raw).value, RemoveLegacy(raw);
    ExistingStays(raw);
    LegacyIsGone(raw);
    var value := match ExistingOf(raw) case None => legacy case Some(existing) => MergeMissing(existing, legacy);
    OtherRootKey(root, DISCOVERY_PATH, Node(value));
    NothingInherited();
    PutAtThere(root, DISCOVERY_PATH, Node(value));
  }

  /** The records that are read on the way are own ones. */
  lemma NothingInherited()
    ensures forall key :: key in DISCOVERY_PATH ==> key !in INHERITED
  {
    forall key | key in DISCOVERY_PATH ensures key !in INHERITED {
      if key in CONFIG_PATH {
        assert key == "plugins" || key == "entries" || key == "amazon-bedrock" || key == "config";
      }
    }
  }

  // ---------------------------------------------------------------- the reported change

  /** Every record that both sides have is already complete. */
  predicate NestedComplete(existing: Record, legacy: Record) {
    forall e :: e in legacy && e.key !in BLOCKED_OBJECT_KEYS && e.value.Node? && Read(existing, e.key).Node? ==>
      MergeMissing(Read(existing, e.key).entries, e.value.entries) == Read(existing, e.key).entries
  }

  lemma FilledIsChanged(existing: Record, legacy: Record)
    requires Unique(legacy) && FillsSome(existing, legacy)
    ensures MergeMissing(existing, legacy) != existing
  {
    var e :| e in legacy && Fills(existing, e);
    UniqueGet(legacy, e);
    MergeReads(existing, legacy, e.key);
  }

  lemma UnfilledChange(existing: Record, legacy: Record)
    requires Unique(legacy) && !FillsSome(existing, legacy)
    ensures MergeMissing(existing, legacy) == existing <==> NestedComplete(existing, legacy)
  {
    if NestedComplete(existing, legacy) {
      forall e | e in legacy ensures MergeOne(existing, e) == existing {
        assert !Fills(existing, e);
        if e.key !in BLOCKED_OBJECT_KEYS && e.value.Node? && Read(existing, e.key).Node? {
          SetSame(existing, e.key, Read(existing, e.key));
        }
      }
      MergeStable(existing, legacy);
    }
    if MergeMissing(existing, legacy) == existing {
      forall e | e in legacy && e.key !in BLOCKED_OBJECT_KEYS && e.value.Node? && Read(existing, e.key).Node?
        ensures MergeMissing(Read(existing, e.key).entries, e.value.entries) == Read(existing, e.key).entries
      {
        UniqueGet(legacy, e);
        MergeReads(existing, legacy, e.key);
      }
    }
  }

  /** Some field is missing, at this level or in a record that both sides have. */
  predicate FillsDeep(existing: Record, legacy: Record)
    decreases legacy
  {
    exists i :: 0 <= i < |legacy| && (Fills(existing, legacy[i]) || FillsBelow(existing, legacy[i]))
  }

  predicate FillsBelow(existing: Record, e: Entry<Json>)
    decreases e
  {
    && e.key !in BLOCKED_OBJECT_KEYS && e.value.Node? && Read(existing, e.key).Node?
    && FillsDeep(Read(existing, e.key).entries, e.value.entries)
  }

  /** Merging changes a record exactly when it lacks something, at whatever depth. */
  lemma {:induction false} ChangedIffFills(existing: Record, legacy: Record)
    requires Unique(legacy)
    ensures MergeMissing(existing, legacy) != existing <==> FillsDeep(existing, legacy)
    decreases legacy
  {
    forall i | 0 <= i < |legacy| && legacy[i].value.Node? && Read(existing, legacy[i].key).Node?
      ensures var theirs, ours := Read(existing, legacy[i].key).entries, legacy[i].value.entries;
              MergeMissing(theirs, ours) != theirs <==> FillsDeep(theirs, ours)
    {
      UniqueGet(legacy, legacy[i]);
      ChangedIffFills(Read(existing, legacy[i].key).entries, legacy[i].value.entries);
    }
    if FillsSome(existing, legacy) {
      FilledIsChanged(existing, legacy);
    } else {
      UnfilledChange(existing, legacy);
    }
  }

  /** The message tells whether the discovery record has changed exactly when a top-level
      field was missing or no field was, at any depth; since the copy is shallow, a change
      that is only nested goes unreported. */
  lemma MessageExactly(existing: Record, legacy: Record)
    requires Unique(legacy)
    ensures (FillsSome(existing, legacy) <==> MergeMissing(existing, legacy) != existing) <==>
            FillsSome(existing, legacy) || !FillsDeep(existing, legacy)
  {
    ChangedIffFills(existing, legacy);
    if FillsSome(existing, legacy) {
      FilledIsChanged(existing, legacy);
    }
  }

  /** For records without nested records in common the message is right. */
  lemma MessageRightWhenFlat(existing: Record, legacy: Record)
    requires Unique(legacy)
    requires forall e :: e in legacy && e.value.Node? ==> !Read(existing, e.key).Node?
    ensures FillsSome(existing, legacy) <==> MergeMissing(existing, legacy) != existing
  {
    forall i | 0 <= i < |legacy| ensures !FillsBelow(existing, legacy[i]) {
      assert legacy[i] in legacy;
    }
    MessageExactly(existing, legacy);
  }

  /** A nested field that is filled without being reported. */
  lemma MessageMissesNested() returns (existing: Record, legacy: Record)
    ensures Unique(legacy) && MergeMissing(existing, legacy) != existing && !FillsSome(existing, legacy)
  {
    var field := Entry("region", Leaf(Other("eu")));
    existing, legacy := [Entry("client", Node([]))], [Entry("client", Node([field]))];
    assert legacy[1..] == [] && [field][1..] == [];
    assert Read(existing, "client") == Node([]);
    assert MergeMissing([], [field]) == [field];
    MergeReads(existing, legacy, "client");
    assert "client" !in BLOCKED_OBJECT_KEYS;
  }

  // ---------------------------------------------------------------- what is filled in

  lemma {:induction false} MergeGets(target: Record, source: Record, key: string)
    requires Unique(source)
    ensures Get(MergeMissing(target, source), key) ==
            match Get(source, key) case None => Get(target, key) case Some(v) => Get(MergeOne(target, Entry(key, v)), key)
    decreases source
  {
    if source != [] {
      var e, rest := source[0], source[1..];
      MergeUnfold(target, source);
      MergeGets(MergeOne(target, e), rest, key);
      GetHas(rest, e.key);
      if e.key != key {
        MergeOneElsewhere(target, e, key);
        if Get(rest, key).Some? {
          MergeOneSame(target, MergeOne(target, e), Entry(key, Get(rest, key).value));
        }
      }
    }
  }

  lemma MergeOneElsewhere(target: Record, e: Entry<Json>, key: string)
    requires e.key != key
    ensures Get(MergeOne(target, e), key) == Get(target, key)
  {
    var existing := Read(target, e.key);
    GetSet(target, e.key, e.value, key);
    if existing.Node? && e.value.Node? {
      GetSet(target, e.key, Node(MergeMissing(existing.entries, e.value.entries)), key);
    }
  }

  lemma MergeOneSame(a: Record, b: Record, e: Entry<Json>)
    requires Get(a, e.key) == Get(b, e.key)
    ensures Get(MergeOne(a, e), e.key) == Get(MergeOne(b, e), e.key)
  {
    GetSet(a, e.key, e.value, e.key);
    GetSet(b, e.key, e.value, e.key);
    var existing := Read(a, e.key);
    if existing.Node? && e.value.Node? {
      GetSet(a, e.key, Node(MergeMissing(existing.entries, e.value.entries)), e.key);
      GetSet(b, e.key, Node(MergeMissing(existing.entries, e.value.entries)), e.key);
    }
  }

  /** Every record on the way to the path is there. */
  ghost predicate RecordsOnTheWay(es: Record, path: seq<string>)
    decreases |path|
  {
    |path| <= 1 || (exists entries :: Get(es, path[0]) == Some(Node(entries)) && RecordsOnTheWay(entries, path[1..]))
  }

  /** The property at the path is undefined, and none is inherited in its place. */
  ghost predicate ReadsUndefined(es: Record, path: seq<string>)
    requires path != []
  {
    match Property(es, path) case None => path[|path| - 1] !in INHERITED case Some(v) => v == Leaf(Undefined)
  }

  /** A missing field is filled with the legacy value, at any depth where both have records. */
  lemma {:induction false} MissingFilled(target: Record, source: Record, path: seq<string>, value: Tree<Json>)
    requires Unique(source) && path != [] && forall key :: key in path ==> key !in BLOCKED_OBJECT_KEYS
    requires RecordsOnTheWay(target, path) && RecordsOnTheWay(source, path)
    requires ReadsUndefined(target, path) && Property(source, path) == Some(value) && value != Leaf(Undefined)
    ensures Property(MergeMissing(target, source), path) == Some(value)
    decreases |path|
  {
    var key := path[0];
    assert key in path;
    MergeGets(target, source, key);
    var theirs := Get(source, key).value;
    if |path| == 1 {
      GetSet(target, key, theirs, key);
    } else {
      var mine := Get(target, key).value;
      UniqueValue(source, key);
      GetSet(target, key, Node(MergeMissing(mine.entries, theirs.entries)), key);
      assert forall k :: k in path[1..] ==> k in path;
      assert path[1..][|path| - 2] == path[|path| - 1];
      MissingFilled(mine.entries, theirs.entries, path[1..], value);
    }
  }

  /** Blocked keys, and keys that the legacy record lacks, are left alone. */
  lemma LeftAlone(target: Record, source: Record, key: string)
    requires Unique(source) && (key in {"__proto__", "prototype", "constructor"} || Get(source, key) == None)
    ensures Get(MergeMissing(target, source), key) == Get(target, key)
  {
    MergeGets(target, source, key);
  }

  // ---------------------------------------------------------------- the report and the rest

  /** The record at a path, if there is one. */
  ghost function RecordIn(es: Record, path: seq<string>): Option<Record>
    requires path != []
  {
    match Property(es, path) case Some(Node(entries)) => Some(entries) case _ => None
  }

  lemma {:induction false} RecordUnder(es: Record, path: seq<string>, key: string)
    ensures RecordIn(es, path + [key]) == RecordAt(ChildAt(es, path), key)
    decreases |path|
  {
    var whole := path + [key];
    if path != [] {
      PropertyUnderChild(es, whole);
      assert whole[1..] == path[1..] + [key];
      RecordUnder(Child(es, path[0]), path[1..], key);
    }
  }

  lemma LegacyIsRecord(es: Record)
    ensures RecordIn(es, LEGACY_PATH) == LegacyOf(es)
    ensures RecordIn(es, ["models"]) == RecordAt(es, "models")
  {
    assert LEGACY_PATH == ["models"] + ["bedrockDiscovery"] && ["models"][1..] == [];
    RecordUnder(es, ["models"], "bedrockDiscovery");
    ChildGet(es, "models");
    assert ChildAt(es, ["models"]) == Child(es, "models");
  }

  lemma ExistingIsRecord(es: Record)
    ensures RecordIn(es, DISCOVERY_PATH) == ExistingOf(es)
  {
    RecordUnder(es, CONFIG_PATH, "discovery");
  }

  /** The legacy field has a value and the key is not blocked; the record has no such
      property, own or inherited, or an undefined one. */
  ghost predicate Missing(existing: Record, e: Entry<Json>) {
    && e.value != Leaf(Undefined) && e.key !in BLOCKED_OBJECT_KEYS
    && match Property(existing, [e.key])
       case None => e.key !in INHERITED
       case Some(v) => v == Leaf(Undefined)
  }

  /** What a migration reports: nothing without a legacy record; else one change, that it was
      empty, was moved to where no record stood, filled a missing field, or filled none. */
  lemma MigrateReports(raw: Record)
    ensures var (config, changes) := Migrate(Node(raw));
            match RecordIn(raw, LEGACY_PATH)
            case None => config == Node(raw) && changes == []
            case Some(legacy) =>
              if legacy == [] then changes == [RemovedEmpty]
              else match RecordIn(raw, DISCOVERY_PATH)
                   case None => changes == [Moved]
                   case Some(existing) => changes == [if exists e :: e in legacy && Missing(existing, e) then Merged else AlreadySet]
    ensures forall value :: Migrate(Leaf(value)) == (Leaf(value), [])
  {
    LegacyIsRecord(raw);
    ExistingIsRecord(raw);
    if LegacyOf(raw).Some? {
      ExistingStays(raw);
      var existing := ExistingOf(raw);
      if existing.Some? {
        assert forall e :: Missing(existing.value, e) <==> Fills(existing.value, e);
      }
    }
  }

  lemma {:induction false} DropEmpty(es: Record, key: string)
    ensures DropKey(es, key) == [] <==> forall i :: 0 <= i < |es| ==> es[i].key == key
  {
    if es != [] {
      DropEmpty(es[1..], key);
      assert forall i :: 1 <= i < |es| ==> es[i] == es[1..][i - 1];
    }
  }

  /** The record around the legacy one goes with it when it held nothing else; otherwise it
      stays, without it. */
  lemma ModelsPruned(raw: Record, models: Record)
    requires RecordIn(raw, LEGACY_PATH).Some? && RecordIn(raw, ["models"]) == Some(models)
    ensures var config := Migrate(Node(raw)).0;
            && config.Node?
            && Property(config.entries, ["models"]) ==
               if forall e :: e in models ==> e.key == "bedrockDiscovery" then None
               else Some(Node(DropKey(models, "bedrockDiscovery")))
  {
    LegacyIsRecord(raw);
    RemovedModels(raw, models);
    ModelsStay(raw);
  }

  lemma RemovedModels(raw: Record, models: Record)
    requires RecordAt(raw, "models") == Some(models)
    ensures Get(RemoveLegacy(raw), "models") ==
            if forall e :: e in models ==> e.key == "bedrockDiscovery" then None
            else Some(Node(DropKey(models, "bedrockDiscovery")))
  {
    ChildGet(raw, "models");
    var rest := DropKey(models, "bedrockDiscovery");
    DropEmpty(models, "bedrockDiscovery");
    assert rest == [] <==> forall e :: e in models ==> e.key == "bedrockDiscovery";
    GetDrop(raw, "models", "models");
    GetSet(raw, "models", Node(rest), "models");
  }

  lemma ModelsStay(raw: Record)
    requires LegacyOf(raw).Some?
    ensures Migrate(Node(raw)).0.Node? && Get(Migrate(Node(raw)).0.entries, "models") == Get(RemoveLegacy(raw), "models")
  {
    var root, legacy := RemoveLegacy(raw), LegacyOf(raw).value;
    RootKeyStays(root, Node(legacy));
    if ExistingOf(root).Some? {
      RootKeyStays(root, Node(MergeMissing(ExistingOf(root).value, legacy)));
    }
  }

  lemma RootKeyStays(root: Record, value: Tree<Json>)
    ensures Get(PutAt(root, DISCOVERY_PATH, value), "models") == Get(root, "models")
  {
    GetSet(root, "plugins", Node(PutAt(Child(root, "plugins"), DISCOVERY_PATH[1..], value)), "models");
  }
}