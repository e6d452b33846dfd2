/** `migrateAmazonBedrockLegacyConfig` (extensions/amazon-bedrock/config-compat.ts) as it
    runs: on a deep copy of the input whose records it deletes from and writes into. */
module ConfigRecords {
  import opened Wrappers
  import opened JsObjects
  import opened ObjectCursor
  import opened ConfigMerge
  import opened ConfigMigration

  // ---------------------------------------------------------------- structuredClone

  /** A copy in new cells. */
  ghost predicate Copied(before: Cells<Json>, after: Cells<Json>, s: Shape<Json>, s': Shape<Json>) {
    && Live(after, s') && Separate(s') && Erase(s') == Erase(s)
    && Frame(before, after, {}) && Refs(s') !! before.Keys
  }

  ghost predicate CopiedFields(before: Cells<Json>, after: Cells<Json>, fs: seq<ShapeField<Json>>, fs': seq<ShapeField<Json>>) {
    && LiveFields(after, fs') && SeparateFields(fs') && EraseFields(fs') == EraseFields(fs)
    && Frame(before, after, {}) && RefsOf(fs') !! before.Keys
  }

  lemma CopiedCons(before: Cells<Json>, mid: Cells<Json>, after: Cells<Json>, f: ShapeField<Json>, s': Shape<Json>,
                   fs: seq<ShapeField<Json>>, fs': seq<ShapeField<Json>>)
    requires Copied(before, mid, f.shape, s') && CopiedFields(mid, after, fs, fs')
    ensures CopiedFields(before, after, [f] + fs, [ShapeField(f.key, s')] + fs')
    ensures Slots([ShapeField(f.key, s')] + fs') == [Field(f.key, SlotOf(s'))] + Slots(fs')
  {
    var all := [ShapeField(f.key, s')] + fs';
    assert all[1..] == fs' && ([f] + fs)[1..] == fs;
    LiveRefs(mid, s');
    LiveFrame(mid, after, {}, s');
  }

  method StructuredClone(heap: JsHeap<Json>, slot: Slot<Json>, ghost s: Shape<Json>)
    returns (slot': Slot<Json>, ghost s': Shape<Json>)
    requires heap.Valid() && Live(heap.cells, s) && SlotOf(s) == slot
    modifies heap
    ensures heap.Valid() && SlotOf(s') == slot' && Copied(old(heap.cells), heap.cells, s, s')
    decreases s, 1
  {
    match slot {
      case Prim(p) =>
        return slot, s;
      case Object(ref) =>
        var fields, fs := CloneFields(heap, heap.cells[ref], s.fields);
        ghost var mid := heap.cells;
        var copy := heap.Alloc();
        assert copy in heap.cells;
        heap.cells := heap.cells[copy := fields];
        LiveFieldsRefs(mid, fs);
        LiveFieldsFrame(mid, heap.cells, {}, fs);
        return Object(copy), ShapeNode(copy, fs);
    }
  }

  method CloneFields(heap: JsHeap<Json>, fields: seq<Field<Json>>, ghost fs: seq<ShapeField<Json>>)
    returns (out: seq<Field<Json>>, ghost fs': seq<ShapeField<Json>>)
    requires heap.Valid() && LiveFields(heap.cells, fs) && Slots(fs) == fields
    modifies heap
    ensures heap.Valid() && Slots(fs') == out && CopiedFields(old(heap.cells), heap.cells, fs, fs')
    decreases fs
  {
    if fields == [] {
      return [], [];
    }
    ghost var before := heap.cells;
    assert Slots(fs)[1..] == Slots(fs[1..]);
    var slot, s := StructuredClone(heap, fields[0].slot, fs[0].shape);
    ghost var mid := heap.cells;
    LiveFieldsFrame(before, mid, {}, fs[1..]);
    var rest, fs1 := CloneFields(heap, fields[1..], fs[1..]);
    CopiedCons(before, mid, heap.cells, fs[0], s, fs[1..], fs1);
    assert [fs[0]] + fs[1..] == fs;
    return [Field(fields[0].key, slot)] + rest, [ShapeField(fs[0].key, s)] + fs1;
  }

  // ---------------------------------------------------------------- delete

  function DropField(fs: seq<Field<Json>>, key: string): seq<Field<Json>> {
    if fs == [] then [] else (if fs[0].key == key then [] else [fs[0]]) + DropField(fs[1..], key)
  }

  ghost function DropShape(fs: seq<ShapeField<Json>>, key: string): seq<ShapeField<Json>> {
    if fs == [] then [] else (if fs[0].key == key then [] else [fs[0]]) + DropShape(fs[1..], key)
  }

  lemma {:induction false} DropErased(fs: seq<ShapeField<Json>>, key: string)
    ensures Slots(DropShape(fs, key)) == DropField(Slots(fs), key)
    ensures EraseFields(DropShape(fs, key)) == DropKey(EraseFields(fs), key)
  {
    if fs != [] {
      var rest := DropShape(fs[1..], key);
      DropErased(fs[1..], key);
      assert Slots(fs)[1..] == Slots(fs[1..]) && EraseFields(fs)[1..] == EraseFields(fs[1..]);
      assert ([fs[0]] + rest)[1..] == rest && [] + rest == rest;
      assert [] + DropField(Slots(fs[1..]), key) == DropField(Slots(fs[1..]), key);
      assert [] + DropKey(EraseFields(fs[1..]), key) == DropKey(EraseFields(fs[1..]), key);
    }
  }

  lemma {:induction false} DropLive(cells: Cells<Json>, fs: seq<ShapeField<Json>>, key: string)
    requires LiveFields(cells, fs) && SeparateFields(fs)
    ensures LiveFields(cells, DropShape(fs, key)) && SeparateFields(DropShape(fs, key))
    ensures RefsOf(DropShape(fs, key)) <= RefsOf(fs)
  {
    if fs != [] {
      var rest := DropShape(fs[1..], key);
      DropLive(cells, fs[1..], key);
      assert ([fs[0]] + rest)[1..] == rest && [] + rest == rest;
    }
  }

  lemma DropOk(cells: Cells<Json>, fs: seq<ShapeField<Json>>, key: string)
    requires LiveFields(cells, fs) && SeparateFields(fs)
    ensures LiveFields(cells, DropShape(fs, key)) && SeparateFields(DropShape(fs, key))
    ensures RefsOf(DropShape(fs, key)) <= RefsOf(fs)
    ensures Slots(DropShape(fs, key)) == DropField(Slots(fs), key)
    ensures EraseFields(DropShape(fs, key)) == DropKey(EraseFields(fs), key)
  {
    DropErased(fs, key);
    DropLive(cells, fs, key);
  }

  /** Deleting a key from the object at a path. */
  lemma CursorDeletes(before: Cells<Json>, after: Cells<Json>, s: Shape<Json>, path: seq<string>, cursor: Ref, key: string)
    requires CursorAt(before, s, path, cursor) && cursor in before
    requires after == before[cursor := DropField(before[cursor], key)]
    ensures var c := ShapeNode(cursor, DropShape(At(s, path).value.fields, key));
            && CursorAt(after, ReplaceAt(s, path, c), path, cursor)
            && At(ReplaceAt(s, path, c), path) == Some(c)
            && EraseFields(c.fields) == DropKey(EraseFields(At(s, path).value.fields), key)
            && Refs(ReplaceAt(s, path, c)) <= Refs(s) && SlotOf(ReplaceAt(s, path, c)) == SlotOf(s)
  {
    var o := At(s, path).value;
    var c := ShapeNode(cursor, DropShape(o.fields, key));
    AtOk(before, s, path);
    DropOk(before, o.fields, key);
    LiveFieldsFrame(before, after, {cursor}, c.fields);
    ReplaceAtOk(before, after, {cursor}, s, path, c);
    AtReplaced(s, path, c);
  }

  /** The record at `models`. */
  lemma ModelsRecord(cells: Cells<Json>, s: Shape<Json>, root: Ref)
    requires CursorAt(cells, s, [], root) && RecordAt(EraseFields(s.fields), "models").Some?
    ensures root in cells && GetField(cells[root], "models").Some? && GetField(cells[root], "models").value.Object?
    ensures CursorAt(cells, s, ["models"], GetField(cells[root], "models").value.ref)
    ensures At(s, ["models"]) == FindShape(s.fields, "models")
    ensures EraseFields(At(s, ["models"]).value.fields) == Child(EraseFields(s.fields), "models")
    ensures GetField(cells[root], "models").value.ref in Refs(s)
  {
    FindSlot(s.fields, "models");
    GetErased(s.fields, "models");
    ChildErased(s.fields, "models");
    assert ["models"][1..] == [];
    AtOk(cells, s, ["models"]);
  }

  /** `delete models.bedrockDiscovery`, then `pruneEmptyModelsRoot`. */
  method RemoveLegacyRecord(heap: JsHeap<Json>, root: Ref, ghost s: Shape<Json>) returns (ghost s': Shape<Json>)
    requires heap.Valid() && CursorAt(heap.cells, s, [], root) && RecordAt(EraseFields(s.fields), "models").Some?
    modifies heap
    ensures heap.Valid() && CursorAt(heap.cells, s', [], root)
    ensures EraseFields(s'.fields) == RemoveLegacy(EraseFields(s.fields))
    ensures Frame(old(heap.cells), heap.cells, Refs(s)) && heap.cells.Keys == old(heap.cells).Keys && Refs(s') <= Refs(s)
  {
    ghost var before := heap.cells;
    ModelsRecord(before, s, root);
    var models := GetField(heap.cells[root], "models").value.ref;
    AtOk(before, s, ["models"]);
    heap.cells := heap.cells[models := DropField(heap.cells[models], "bedrockDiscovery")];
    CursorDeletes(before, heap.cells, s, ["models"], models, "bedrockDiscovery");
    ghost var c := ShapeNode(models, DropShape(At(s, ["models"]).value.fields, "bedrockDiscovery"));
    s' := ReplaceAt(s, ["models"], c);
    assert ["models"][1..] == [];
    PutSlot(s.fields, "models", c);
    ghost var mid := heap.cells;
    SlotsLength(c.fields);
    ErasedKeys(c.fields);
    AtOk(mid, s', ["models"]);
    if |heap.cells[models]| == 0 {
      heap.cells := heap.cells[root := DropField(heap.cells[root], "models")];
      CursorDeletes(mid, heap.cells, s', [], root, "models");
      DropAfterSet(EraseFields(s.fields), "models", Erase(c));
      s' := ShapeNode(root, DropShape(s'.fields, "models"));
    }
  }

  lemma {:induction false} DropAfterSet(es: Record, key: string, value: Tree<Json>)
    ensures DropKey(SetKey(es, key, value), key) == DropKey(es, key)
  {
    if es != [] && es[0].key != key {
      DropAfterSet(es[1..], key, value);
      assert ([es[0]] + SetKey(es[1..], key, value))[1..] == SetKey(es[1..], key, value);
    } else if es != [] {
      assert ([Entry(key, value)] + es[1..])[1..] == es[1..];
    } else {
      assert [Entry(key, value)][1..] == [];
    }
  }

  // ---------------------------------------------------------------- ensureRecord

  /** `ensureRecord` four times, down to the plugin's `config`. */
  method EnsureConfig(heap: JsHeap<Json>, root: Ref, ghost s0: Shape<Json>) returns (config: Ref, ghost s: Shape<Json>)
    requires heap.Valid() && CursorAt(heap.cells, s0, [], root)
    modifies heap
    ensures heap.Valid() && old(heap.cells).Keys <= heap.cells.Keys
    ensures Walking(old(heap.cells), heap.cells, s0, s, DISCOVERY_PATH, 4, config)
  {
    config, s := root, s0;
    LiveRefs(heap.cells, s0);
    WalkingStart(heap.cells, s0, DISCOVERY_PATH);
    for index := 0 to 4
      invariant heap.Valid() && old(heap.cells).Keys <= heap.cells.Keys
      invariant Walking(old(heap.cells), heap.cells, s0, s, DISCOVERY_PATH, index, config)
    {
      config, s := Descend(heap, config, DISCOVERY_PATH, index, old(heap.cells), s0, s);
    }
  }

  // ---------------------------------------------------------------- JSON.stringify

  /** What `JSON.stringify` shows: fields that are undefined are left out. */
  function Visible(t: Tree<Json>): Tree<Json>
    decreases t, 1
  {
    match t
    case Leaf(_) => t
    case Node(entries) => Node(VisibleEntries(entries))
  }

  function VisibleEntries(es: Record): Record
    decreases es
  {
    if es == [] then []
    else (if es[0].value == Leaf(Undefined) then [] else [Entry(es[0].key, Visible(es[0].value))]) + VisibleEntries(es[1..])
  }

  method Stringify(heap: JsHeap<Json>, slot: Slot<Json>, ghost s: Shape<Json>) returns (t: Tree<Json>)
    requires Live(heap.cells, s) && SlotOf(s) == slot
    ensures t == Visible(Erase(s))
    decreases s, 1
  {
    match slot {
      case Prim(p) => return Leaf(p);
      case Object(ref) =>
        var es := StringifyFields(heap, heap.cells[ref], s.fields);
        return Node(es);
    }
  }

  method StringifyFields(heap: JsHeap<Json>, fields: seq<Field<Json>>, ghost fs: seq<ShapeField<Json>>) returns (es: Record)
    requires LiveFields(heap.cells, fs) && Slots(fs) == fields
    ensures es == VisibleEntries(EraseFields(fs))
    decreases fs
  {
    if fields == [] {
      return [];
    }
    assert Slots(fs)[1..] == Slots(fs[1..]) && EraseFields(fs)[1..] == EraseFields(fs[1..]);
    var rest := StringifyFields(heap, fields[1..], fs[1..]);
    if fields[0].slot == Prim(Undefined) {
      return rest;
    }
    var value := Stringify(heap, fields[0].slot, fs[0].shape);
    return [Entry(fields[0].key, value)] + rest;
  }

  // ---------------------------------------------------------------- the comparison

  /** The existing record after merging into its shallow copy: its own fields, with the
      nested records as they now are. */
  function Aliased(existing: Record, merged: Record): Record {
    if existing == [] then []
    else [if existing[0].value.Node? then Entry(existing[0].key, Read(merged, existing[0].key)) else existing[0]]
         + Aliased(existing[1..], merged)
  }

  lemma {:induction false} VisibleHas(es: Record, key: string)
    requires Get(es, key).Some? && Get(es, key).value != Leaf(Undefined)
    ensures Get(VisibleEntries(es), key).Some?
  {
    var rest := VisibleEntries(es[1..]);
    if es[0].key != key {
      VisibleHas(es[1..], key);
      if es[0].value == Leaf(Undefined) {
        assert [] + rest == rest;
      } else {
        assert ([Entry(es[0].key, Visible(es[0].value))] + rest)[1..] == rest;
      }
    }
  }

  lemma {:induction false} VisibleLacks(es: Record, key: string)
    requires forall e :: e in es && e.key == key ==> e.value == Leaf(Undefined)
    ensures Get(VisibleEntries(es), key).None?
  {
    if es != [] {
      var rest := VisibleEntries(es[1..]);
      assert es[0] in es;
      VisibleLacks(es[1..], key);
      if es[0].value == Leaf(Undefined) {
        assert [] + rest == rest;
      } else {
        assert ([Entry(es[0].key, Visible(es[0].value))] + rest)[1..] == rest;
      }
    }
  }

  lemma {:induction false} AliasedAt(existing: Record, merged: Record)
    ensures |Aliased(existing, merged)| == |existing|
    ensures forall i :: 0 <= i < |existing| ==>
              Aliased(existing, merged)[i] ==
              if existing[i].value.Node? then Entry(existing[i].key, Read(merged, existing[i].key)) else existing[i]
  {
    if existing != [] {
      var rest := Aliased(existing[1..], merged);
      AliasedAt(existing[1..], merged);
      assert Aliased(existing, merged)[1..] == rest;
      forall i | 0 < i < |existing| ensures Aliased(existing, merged)[i] == rest[i - 1] && existing[i] == existing[1..][i - 1] {
      }
    }
  }

  /** The same keys in the same order; values that are not records are the same. */
  ghost predicate SameFrame(a: Record, b: Record) {
    && |a| == |b|
    && forall i :: 0 <= i < |a| ==>
         b[i].key == a[i].key && (if a[i].value.Node? then b[i].value.Node? else b[i].value == a[i].value)
  }

  lemma {:induction false} SetNodeFrame(es: Record, key: string, entries: Record)
    requires RecordAt(es, key).Some?
    ensures SameFrame(es, SetKey(es, key, Node(entries)))
  {
    if es[0].key != key {
      SetNodeFrame(es[1..], key, entries);
    }
  }

  lemma {:induction false} FrameReads(a: Record, b: Record, key: string)
    requires SameFrame(a, b)
    ensures if Read(a, key).Node? then Read(b, key).Node? else Read(b, key) == Read(a, key)
  {
    if a != [] && a[0].key != key {
      assert SameFrame(a[1..], b[1..]);
      FrameReads(a[1..], b[1..], key);
    }
  }

  lemma {:induction false} UnfilledFrame(t: Record, legacy: Record)
    requires !FillsSome(t, legacy)
    ensures SameFrame(t, MergeMissing(t, legacy))
    decreases |legacy|
  {
    if legacy != [] {
      var next := MergeOne(t, legacy[0]);
      assert !Fills(t, legacy[0]);
      MergeUnfold(t, legacy);
      if next != t {
        SetNodeFrame(t, legacy[0].key, MergeMissing(Read(t, legacy[0].key).entries, legacy[0].value.entries));
      }
      forall e | e in legacy[1..] ensures !Fills(next, e) {
        assert e in legacy && !Fills(t, e);
        FrameReads(t, next, e.key);
      }
      UnfilledFrame(next, legacy[1..]);
    }
  }

  lemma {:induction false} UniqueFrame(a: Record, b: Record, i: nat)
    requires Unique(a) && SameFrame(a, b) && i < |b|
    ensures Read(b, b[i].key) == b[i].value
  {
    if i > 0 {
      assert SameFrame(a[1..], b[1..]) && b[1..][i - 1] == b[i] && a[1..][i - 1] == a[i];
      assert a[1..][i - 1].key == b[i].key;
      UniqueFrame(a[1..], b[1..], i - 1);
    }
  }

  /** `JSON.stringify(merged) !== JSON.stringify(existing)`, taken after the merge, holds
      exactly when a top-level field was filled. */
  lemma ComparisonSeesFills(existing: Record, legacy: Record)
    requires Unique(existing) && Unique(legacy)
    ensures var merged := MergeMissing(existing, legacy);
            VisibleEntries(merged) != VisibleEntries(Aliased(existing, merged)) <==> FillsSome(existing, legacy)
  {
    var merged := MergeMissing(existing, legacy);
    AliasedAt(existing, merged);
    if FillsSome(existing, legacy) {
      var e :| e in legacy && Fills(existing, e);
      FilledIsVisible(existing, legacy, e);
    } else {
      UnfilledFrame(existing, legacy);
      forall i | 0 <= i < |merged| ensures merged[i] == Aliased(existing, merged)[i] {
        UniqueFrame(existing, merged, i);
      }
      assert merged == Aliased(existing, merged);
    }
  }

  lemma {:induction false} KeysStay(target: Record, source: Record, key: string)
    ensures Get(target, key).Some? ==> Get(MergeMissing(target, source), key).Some?
    decreases |source|
  {
    if source != [] {
      var e := source[0];
      MergeUnfold(target, source);
      GetSet(target, e.key, e.value, key);
      if Read(target, e.key).Node? && e.value.Node? {
        GetSet(target, e.key, Node(MergeMissing(Read(target, e.key).entries, e.value.entries)), key);
      }
      KeysStay(MergeOne(target, e), source[1..], key);
    }
  }

  lemma FilledIsVisible(existing: Record, legacy: Record, e: Entry<Json>)
    requires Unique(existing) && Unique(legacy) && e in legacy && Fills(existing, e)
    ensures var merged := MergeMissing(existing, legacy);
            Get(VisibleEntries(merged), e.key).Some? && Get(VisibleEntries(Aliased(existing, merged)), e.key).None?
  {
    var merged := MergeMissing(existing, legacy);
    UniqueGet(legacy, e);
    MergeReads(existing, legacy, e.key);
    KeysStay(existing, legacy, e.key);
    VisibleHas(merged, e.key);
    AliasedAt(existing, merged);
    forall x | x in Aliased(existing, merged) && x.key == e.key ensures x.value == Leaf(Undefined) {
      var i :| 0 <= i < |existing| && Aliased(existing, merged)[i] == x;
      UniqueGet(existing, existing[i]);
    }
    VisibleLacks(Aliased(existing, merged), e.key);
  }

  /** The existing record's own object, with its nested records as they now are. */
  ghost function AliasShapes(fs: seq<ShapeField<Json>>, now: seq<ShapeField<Json>>): seq<ShapeField<Json>> {
    if fs == [] then []
    else [if fs[0].shape.ShapeNode? && FindShape(now, fs[0].key).Some?
          then ShapeField(fs[0].key, FindShape(now, fs[0].key).value) else fs[0]] + AliasShapes(fs[1..], now)
  }

  lemma {:induction false} AliasOk(cells: Cells<Json>, fs: seq<ShapeField<Json>>, now: seq<ShapeField<Json>>)
    requires LiveFields(cells, now)
    requires forall i :: 0 <= i < |fs| && fs[i].shape.ShapeNode? ==>
               FindShape(now, fs[i].key).Some? && SlotOf(FindShape(now, fs[i].key).value) == SlotOf(fs[i].shape)
    ensures Slots(AliasShapes(fs, now)) == Slots(fs) && LiveFields(cells, AliasShapes(fs, now))
    ensures EraseFields(AliasShapes(fs, now)) == Aliased(EraseFields(fs), EraseFields(now))
  {
    if fs != [] {
      forall i | 0 <= i < |fs[1..]| && fs[1..][i].shape.ShapeNode?
        ensures FindShape(now, fs[1..][i].key).Some? && SlotOf(FindShape(now, fs[1..][i].key).value) == SlotOf(fs[1..][i].shape)
      {
        assert fs[1..][i] == fs[i + 1];
      }
      AliasOk(cells, fs[1..], now);
      assert AliasShapes(fs, now)[1..] == AliasShapes(fs[1..], now);
      assert EraseFields(fs)[1..] == EraseFields(fs[1..]);
      GetErased(now, fs[0].key);
      if fs[0].shape.ShapeNode? {
        FoundShape(cells, now, fs[0].key);
      }
    }
  }

  lemma {:induction false} FindUnique(fs: seq<ShapeField<Json>>, i: nat)
    requires Unique(EraseFields(fs)) && i < |fs|
    ensures FindShape(fs, fs[i].key) == Some(fs[i].shape)
  {
    FirstKeyOnce(fs);
    if i > 0 {
      assert fs[1..][i - 1] == fs[i];
      FindUnique(fs[1..], i - 1);
    }
  }

  // ---------------------------------------------------------------- writing the discovery record

  /** The walk has reached the plugin's configuration, whose discovery field is `found`. */
  ghost predicate AtConfig(before: Cells<Json>, cells: Cells<Json>, n: Shape<Json>, s: Shape<Json>, config: Ref) {
    Walking(before, cells, n, s, DISCOVERY_PATH, 4, config) && Refs(n) <= before.Keys
  }

  lemma ConfigPath()
    ensures DISCOVERY_PATH[..4] == CONFIG_PATH && DISCOVERY_PATH[4] == "discovery" && |DISCOVERY_PATH| == 5
  {
  }

  lemma ConfigField(before: Cells<Json>, cells: Cells<Json>, n: Shape<Json>, s: Shape<Json>, config: Ref)
    requires AtConfig(before, cells, n, s, config)
    ensures config in cells && At(s, CONFIG_PATH).Some? && At(s, CONFIG_PATH).value.ShapeNode?
    ensures var o := At(s, CONFIG_PATH).value; var found := FindShape(o.fields, "discovery");
            match GetField(cells[config], "discovery")
            case Some(Object(ref)) =>
              && found.Some? && found.value.ShapeNode? && found.value.ref == ref && Live(cells, found.value) && Separate(found.value)
              && ExistingOf(EraseFields(n.fields)) == Some(EraseFields(found.value.fields))
              && Refs(found.value) <= Refs(s) && KeyRefs(o.fields, "discovery") == Refs(found.value)
            case _ => ExistingOf(EraseFields(n.fields)) == None
  {
    ConfigPath();
    AtOk(cells, s, CONFIG_PATH);
    var o := At(s, CONFIG_PATH).value;
    FindSlot(o.fields, "discovery");
    GetErased(o.fields, "discovery");
    if FindShape(o.fields, "discovery").Some? {
      FoundShape(cells, o.fields, "discovery");
    }
  }

  /** No existing record: `config.discovery = cloneRecord(legacy)`. */
  method WriteClone(heap: JsHeap<Json>, config: Ref, legacy: Ref, ghost before: Cells<Json>, ghost n: Shape<Json>,
                    ghost s: Shape<Json>, ghost l: Shape<Json>)
    returns (ghost c: Shape<Json>)
    requires heap.Valid() && AtConfig(before, heap.cells, n, s, config)
    requires l.ShapeNode? && l.ref == legacy && Live(heap.cells, l) && Separate(l) && Refs(l) !! Refs(s)
    modifies heap
    ensures heap.Valid() && CursorAt(heap.cells, c, [], n.ref)
    ensures EraseFields(c.fields) == PutAt(EraseFields(n.fields), DISCOVERY_PATH, Node(EraseFields(l.fields)))
    ensures Frame(before, heap.cells, Refs(n))
  {
    ghost var mid := heap.cells;
    LiveRefs(mid, l);
    LiveFieldsRefs(mid, l.fields);
    var copy := heap.Alloc();
    assert copy in heap.cells;
    heap.cells := heap.cells[copy := heap.cells[legacy]];
    ghost var v := ShapeNode(copy, l.fields);
    LiveFieldsFrame(mid, heap.cells, {}, l.fields);
    ConfigPath();
    FreshNotInTree(before, mid, s, CONFIG_PATH, copy);
    c := WriteLast(heap, config, DISCOVERY_PATH, Object(copy), before, mid, n, s, v);
  }

  lemma FreshNotInTree(before: Cells<Json>, mid: Cells<Json>, s: Shape<Json>, path: seq<string>, r: Ref)
    requires Live(mid, s) && r !in mid
    ensures r !in Refs(s)
  {
    LiveRefs(mid, s);
  }

  /** The shallow copy and the legacy record are apart. */
  lemma MergeArguments(mid: Cells<Json>, cells: Cells<Json>, e: Shape<Json>, l: Shape<Json>, copy: Ref)
    requires e.ShapeNode? && Live(mid, e) && Separate(e) && Live(mid, l) && Separate(l) && Refs(e) !! Refs(l)
    requires copy !in mid && e.ref in mid && cells == mid[copy := mid[e.ref]]
    ensures Live(cells, ShapeNode(copy, e.fields)) && Separate(ShapeNode(copy, e.fields)) && Live(cells, l)
    ensures Refs(ShapeNode(copy, e.fields)) !! Refs(l)
  {
    LiveRefs(mid, e);
    LiveFieldsRefs(mid, e.fields);
    LiveRefs(mid, l);
    LiveFieldsFrame(mid, cells, {}, e.fields);
    LiveFrame(mid, cells, {}, l);
  }

  /** `mergeMissing(cloneRecord(existing), legacy)`: besides the copy, only objects inside
      the existing record change. */
  method MergeIntoCopy(heap: JsHeap<Json>, existing: Ref, legacy: Ref, ghost e: Shape<Json>, ghost l: Shape<Json>)
    returns (merged: Ref, ghost t: Shape<Json>)
    requires heap.Valid() && e.ShapeNode? && e.ref == existing && l.ShapeNode? && l.ref == legacy
    requires Live(heap.cells, e) && Separate(e) && Live(heap.cells, l) && Separate(l) && Refs(e) !! Refs(l)
    requires Unique(EraseFields(l.fields))
    modifies heap
    ensures heap.Valid() && merged !in old(heap.cells) && Frame(old(heap.cells), heap.cells, RefsOf(e.fields))
    ensures t.ShapeNode? && t.ref == merged && Live(heap.cells, t) && Separate(t)
    ensures Refs(t) <= {merged} + RefsOf(e.fields) + Refs(l)
    ensures EraseFields(t.fields) == MergeMissing(EraseFields(e.fields), EraseFields(l.fields)) && NodesStay(e.fields, t.fields)
  {
    ghost var mid := heap.cells;
    merged := heap.Alloc();
    assert merged in heap.cells;
    heap.cells := heap.cells[merged := heap.cells[existing]];
    MergeArguments(mid, heap.cells, e, l, merged);
    t := MergeMissingInPlace(heap, merged, legacy, ShapeNode(merged, e.fields), l);
  }

  /** What the existing record looks like after the merge and the write. */
  lemma ExistingAfter(cells: Cells<Json>, e: Shape<Json>, merged: Shape<Json>)
    requires e.ShapeNode? && merged.ShapeNode?
    requires Live(cells, merged) && Unique(EraseFields(e.fields)) && NodesStay(e.fields, merged.fields)
    requires e.ref in cells && cells[e.ref] == Slots(e.fields)
    ensures var alias := ShapeNode(e.ref, AliasShapes(e.fields, merged.fields));
            Live(cells, alias) && EraseFields(alias.fields) == Aliased(EraseFields(e.fields), EraseFields(merged.fields))
  {
    forall i | 0 <= i < |e.fields| && e.fields[i].shape.ShapeNode?
      ensures FindShape(merged.fields, e.fields[i].key).Some?
      ensures SlotOf(FindShape(merged.fields, e.fields[i].key).value) == SlotOf(e.fields[i].shape)
    {
      FindUnique(e.fields, i);
    }
    AliasOk(cells, e.fields, merged.fields);
  }

  /** `JSON.stringify(merged) !== JSON.stringify(existing)` */
  method Differs(heap: JsHeap<Json>, merged: Ref, existing: Ref, ghost e: Shape<Json>, ghost t: Shape<Json>, ghost legacy: Record)
    returns (differs: bool)
    requires e.ShapeNode? && t.ShapeNode? && e.ref == existing && t.ref == merged
    requires Live(heap.cells, t) && NodesStay(e.fields, t.fields)
    requires existing in heap.cells && heap.cells[existing] == Slots(e.fields)
    requires Unique(EraseFields(e.fields)) && Unique(legacy)
    requires EraseFields(t.fields) == MergeMissing(EraseFields(e.fields), legacy)
    ensures differs <==> FillsSome(EraseFields(e.fields), legacy)
  {
    ExistingAfter(heap.cells, e, t);
    var now := Stringify(heap, Object(merged), t);
    var was := Stringify(heap, Object(existing), ShapeNode(e.ref, AliasShapes(e.fields, t.fields)));
    ComparisonSeesFills(EraseFields(e.fields), legacy);
    differs := now != was;
  }

  lemma MergedWritable(s: Shape<Json>, path: seq<string>, e: Shape<Json>, l: Shape<Json>, t: Shape<Json>, merged: Ref)
    requires At(s, path).Some? && At(s, path).value.ShapeNode?
    requires FindShape(At(s, path).value.fields, "discovery") == Some(e) && e.ShapeNode?
    requires Refs(t) <= {merged} + RefsOf(e.fields) + Refs(l) && Refs(l) !! Refs(s) && merged !in Refs(s)
    ensures RefsOf(e.fields) <= KeyRefs(At(s, path).value.fields, "discovery")
    ensures forall r :: r in Refs(t) ==> r in KeyRefs(At(s, path).value.fields, "discovery") || r !in Refs(s)
  {
  }

  /** The existing record's own cell is neither nested in it nor the configuration's. */
  lemma ExistingCellKept(mid: Cells<Json>, done: Cells<Json>, s: Shape<Json>, config: Ref, e: Shape<Json>)
    requires CursorAt(mid, s, CONFIG_PATH, config)
    requires FindShape(At(s, CONFIG_PATH).value.fields, "discovery") == Some(e) && e.ShapeNode?
    requires Frame(mid, done, RefsOf(e.fields))
    ensures e.ref in done && done[e.ref] == Slots(e.fields) && e.ref != config
  {
    AtOk(mid, s, CONFIG_PATH);
    FoundShape(mid, At(s, CONFIG_PATH).value.fields, "discovery");
  }

  /** An existing record: merge into its shallow copy, store the copy, compare the two. */
  method WriteMerged(heap: JsHeap<Json>, config: Ref, existing: Ref, legacy: Ref, ghost before: Cells<Json>, ghost n: Shape<Json>,
                     ghost s: Shape<Json>, ghost e: Shape<Json>, ghost l: Shape<Json>)
    returns (change: Change, ghost c: Shape<Json>)
    requires heap.Valid() && AtConfig(before, heap.cells, n, s, config)
    requires At(s, CONFIG_PATH).Some? && At(s, CONFIG_PATH).value.ShapeNode?
    requires FindShape(At(s, CONFIG_PATH).value.fields, "discovery") == Some(e) && e.ShapeNode? && e.ref == existing
    requires Live(heap.cells, e) && Separate(e) && Refs(e) <= Refs(s) && Unique(EraseFields(e.fields))
    requires l.ShapeNode? && l.ref == legacy && Live(heap.cells, l) && Separate(l) && Refs(l) !! Refs(s)
    requires Unique(EraseFields(l.fields))
    modifies heap
    ensures heap.Valid() && CursorAt(heap.cells, c, [], n.ref)
    ensures EraseFields(c.fields) ==
            PutAt(EraseFields(n.fields), DISCOVERY_PATH, Node(MergeMissing(EraseFields(e.fields), EraseFields(l.fields))))
    ensures change == if FillsSome(EraseFields(e.fields), EraseFields(l.fields)) then Merged else AlreadySet
    ensures Frame(before, heap.cells, Refs(n))
  {
    ghost var mid := heap.cells;
    ConfigPath();
    var merged;
    ghost var t;
    merged, t := MergeIntoCopy(heap, existing, legacy, e, l);
    ghost var done := heap.cells;
    FreshNotInTree(before, mid, s, CONFIG_PATH, merged);
    MergedWritable(s, CONFIG_PATH, e, l, t, merged);
    ExistingCellKept(mid, done, s, config, e);
    CursorAlone(mid, done, s, CONFIG_PATH, config, "discovery");
    c := WriteLast(heap, config, DISCOVERY_PATH, Object(merged), before, mid, n, s, t);
    LiveFrame(done, heap.cells, {config}, t);
    var differs := Differs(heap, merged, existing, e, t, EraseFields(l.fields));
    change := if differs then Merged else AlreadySet;
  }

  // ---------------------------------------------------------------- the whole migration

  /** `resolveLegacyBedrockDiscoveryConfig` */
  function ResolveLegacy(cells: Cells<Json>, root: Ref): Option<Ref> {
    if root !in cells then None
    else
      var models := GetField(cells[root], "models");
      if models.None? || models.value.Prim? || models.value.ref !in cells then None
      else
        var legacy := GetField(cells[models.value.ref], "bedrockDiscovery");
        if legacy.None? || legacy.value.Prim? then None else Some(legacy.value.ref)
  }

  ghost function LegacyShapeOf(s: Shape<Json>): Option<Shape<Json>> {
    if s.ShapeLeaf? then None
    else
      var models := FindShape(s.fields, "models");
      if models.None? || models.value.ShapeLeaf? then None else FindShape(models.value.fields, "bedrockDiscovery")
  }

  lemma LegacyFound(cells: Cells<Json>, s: Shape<Json>)
    requires s.ShapeNode? && Live(cells, s) && Separate(s) && Unique(EraseFields(s.fields))
    ensures var ref, found := ResolveLegacy(cells, s.ref), LegacyShapeOf(s);
            if ref.Some? then
              && found.Some? && found.value.ShapeNode? && found.value.ref == ref.value
              && Live(cells, found.value) && Separate(found.value) && Refs(found.value) <= Refs(s)
              && LegacyOf(EraseFields(s.fields)) == Some(EraseFields(found.value.fields))
              && Unique(EraseFields(found.value.fields))
              && RecordAt(EraseFields(s.fields), "models").Some?
            else LegacyOf(EraseFields(s.fields)) == None
  {
    FindSlot(s.fields, "models");
    GetErased(s.fields, "models");
    UniqueValue(EraseFields(s.fields), "models");
    if FindShape(s.fields, "models").Some? && FindShape(s.fields, "models").value.ShapeNode? {
      FoundShape(cells, s.fields, "models");
      var models := FindShape(s.fields, "models").value;
      FindSlot(models.fields, "bedrockDiscovery");
      GetErased(models.fields, "bedrockDiscovery");
      UniqueValue(EraseFields(models.fields), "bedrockDiscovery");
      if FindShape(models.fields, "bedrockDiscovery").Some? {
        FoundShape(cells, models.fields, "bedrockDiscovery");
      }
    }
  }

  lemma {:induction false} UniqueChildAt(es: Record, path: seq<string>)
    requires Unique(es)
    ensures Unique(ChildAt(es, path))
    decreases |path|
  {
    if path != [] {
      ChildGet(es, path[0]);
      UniqueValue(es, path[0]);
      UniqueChildAt(Child(es, path[0]), path[1..]);
    }
  }

  lemma ExistingUnique(es: Record)
    requires Unique(es) && ExistingOf(es).Some?
    ensures Unique(ExistingOf(es).value)
  {
    UniqueChildAt(es, CONFIG_PATH);
    UniqueValue(ChildAt(es, CONFIG_PATH), "discovery");
  }

  /** The last part: move or merge the legacy record into the plugin's configuration. */
  method WriteDiscovery(heap: JsHeap<Json>, root: Ref, legacy: Ref, ghost n: Shape<Json>, ghost l: Shape<Json>)
    returns (change: Change, ghost c: Shape<Json>)
    requires heap.Valid() && CursorAt(heap.cells, n, [], root)
    requires l.ShapeNode? && l.ref == legacy && Live(heap.cells, l) && Separate(l) && Refs(l) !! Refs(n)
    requires Unique(EraseFields(l.fields))
    requires ExistingOf(EraseFields(n.fields)).Some? ==> Unique(ExistingOf(EraseFields(n.fields)).value)
    modifies heap
    ensures heap.Valid() && CursorAt(heap.cells, c, [], root) && Frame(old(heap.cells), heap.cells, Refs(n))
    ensures var es, ls := EraseFields(n.fields), EraseFields(l.fields);
            match ExistingOf(es)
            case None => change == Moved && EraseFields(c.fields) == PutAt(es, DISCOVERY_PATH, Node(ls))
            case Some(existing) =>
              && change == (if FillsSome(existing, ls) then Merged else AlreadySet)
              && EraseFields(c.fields) == PutAt(es, DISCOVERY_PATH, Node(MergeMissing(existing, ls)))
  {
    ghost var before := heap.cells;
    LiveRefs(before, n);
    LiveRefs(before, l);
    var config, s := EnsureConfig(heap, root, n);
    LiveFrame(before, heap.cells, Refs(n), l);
    ConfigField(before, heap.cells, n, s, config);
    var found := GetField(heap.cells[config], "discovery");
    if found.None? || found.value.Prim? {
      c := WriteClone(heap, config, legacy, before, n, s, l);
      return Moved, c;
    }
    ghost var e := FindShape(At(s, CONFIG_PATH).value.fields, "discovery").value;
    change, c := WriteMerged(heap, config, found.value.ref, legacy, before, n, s, e, l);
  }

  /** The migration computes `Migrate`; no object that existed before has changed, the
      input's among them. */
  method MigrateAmazonBedrockLegacyConfig(heap: JsHeap<Json>, raw: Slot<Json>, ghost s: Shape<Json>)
    returns (config: Slot<Json>, changes: seq<Change>, ghost c: Shape<Json>)
    requires heap.Valid() && Live(heap.cells, s) && Separate(s) && SlotOf(s) == raw
    requires s.ShapeNode? ==> Unique(EraseFields(s.fields))
    modifies heap
    ensures heap.Valid() && Live(heap.cells, c) && Separate(c) && SlotOf(c) == config
    ensures (Erase(c), changes) == Migrate(Erase(s))
    ensures Frame(old(heap.cells), heap.cells, {})
  {
    if raw.Prim? {
      return raw, [], s;
    }
    LegacyFound(heap.cells, s);
    var legacy := ResolveLegacy(heap.cells, raw.ref);
    if legacy.None? {
      return raw, [], s;
    }
    ghost var before := heap.cells;
    ghost var l := LegacyShapeOf(s).value;
    var nextRoot, n := StructuredClone(heap, raw, s);
    ghost var cloned := heap.cells;
    n := RemoveLegacyRecord(heap, nextRoot.ref, n);
    LiveRefs(before, s);
    LiveFrame(before, heap.cells, {}, l);
    SlotsLength(l.fields);
    ErasedKeys(l.fields);
    if |heap.cells[legacy.value]| == 0 {
      return nextRoot, [RemovedEmpty], n;
    }
    ExistingStays(EraseFields(s.fields));
    if ExistingOf(EraseFields(s.fields)).Some? {
      ExistingUnique(EraseFields(s.fields));
    }
    var change;
    change, c := WriteDiscovery(heap, nextRoot.ref, legacy.value, n, l);
    return nextRoot, [change], c;
  }
}
