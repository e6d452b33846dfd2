/** `mergeMissing` (extensions/amazon-bedrock/config-compat.ts): filling a configuration
    record in place with what another one has and it lacks. */
module ConfigMerge {
  import opened Wrappers
  import opened JsObjects

  /** What is not a record: `undefined`, a built-in of `Object.prototype`, or any other value. */
  datatype Json = Undefined | Builtin | Other(text: string)

  type Record = seq<Entry<Json>>

  const BLOCKED_OBJECT_KEYS: set<string> := {"__proto__", "prototype", "constructor"}

  function Get(es: Record, key: string): Option<Tree<Json>> {
    if es == [] then None else if es[0].key == key then Some(es[0].value) else Get(es[1..], key)
  }

  function Absent(key: string): Json {
    if key in INHERITED then Builtin else Undefined
  }

  /** `object[key]` */
  function Read(es: Record, key: string): Tree<Json> {
    match Get(es, key)
    case Some(v) => v
    case None => Leaf(Absent(key))
  }

  function MergeMissing(target: Record, source: Record): Record
    decreases source
  {
    if source == [] then target
    else
      var key, value := source[0].key, source[0].value;
      var existing := Read(target, key);
      var next :=
        if value == Leaf(Undefined) || key in BLOCKED_OBJECT_KEYS then target
        else if existing == Leaf(Undefined) then SetKey(target, key, value)
        else if existing.Node? && value.Node? then SetKey(target, key, Node(MergeMissing(existing.entries, value.entries)))
        else target;
      MergeMissing(next, source[1..])
  }

  /** The effect of one entry of the source. */
  function MergeOne(target: Record, e: Entry<Json>): Record {
    var existing := Read(target, e.key);
    if e.value == Leaf(Undefined) || e.key in BLOCKED_OBJECT_KEYS then target
    else if existing == Leaf(Undefined) then SetKey(target, e.key, e.value)
    else if existing.Node? && e.value.Node? then SetKey(target, e.key, Node(MergeMissing(existing.entries, e.value.entries)))
    else target
  }

  lemma MergeUnfold(target: Record, source: Record)
    requires source != []
    ensures MergeMissing(target, source) == MergeMissing(MergeOne(target, source[0]), source[1..])
  {
  }

  /** No object has a key twice. */
  predicate Unique(es: Record)
    decreases es
  {
    es == [] ||
    (!HasKey(es[1..], es[0].key) && (es[0].value.Node? ==> Unique(es[0].value.entries)) && Unique(es[1..]))
  }

  // ---------------------------------------------------------------- reading after writing

  lemma {:induction false} GetSet(es: Record, key: string, value: Tree<Json>, other: string)
    ensures Get(SetKey(es, key, value), other) == if other == key then Some(value) else Get(es, other)
  {
    if es != [] && es[0].key != key {
      GetSet(es[1..], key, value, other);
      assert ([es[0]] + SetKey(es[1..], key, value))[1..] == SetKey(es[1..], key, value);
    } else if es != [] {
      assert ([Entry(key, value)] + es[1..])[1..] == es[1..];
    }
  }

  lemma {:induction false} SetSame(es: Record, key: string, value: Tree<Json>)
    requires Get(es, key) == Some(value)
    ensures SetKey(es, key, value) == es
  {
    if es[0].key != key {
      SetSame(es[1..], key, value);
    }
  }

  lemma {:induction false} GetHas(es: Record, key: string)
    ensures HasKey(es, key) <==> Get(es, key).Some?
  {
    if es != [] {
      GetHas(es[1..], key);
      if es[0].key != key && HasKey(es, key) {
        var i :| 0 <= i < |es| && es[i].key == key;
        assert es[1..][i - 1].key == key;
      }
      if HasKey(es[1..], key) {
        var i :| 0 <= i < |es[1..]| && es[1..][i].key == key;
        assert es[i + 1].key == key;
      }
    }
  }

  lemma {:induction false} UniqueValue(es: Record, key: string)
    requires Unique(es)
    ensures Read(es, key).Node? ==> Unique(Read(es, key).entries)
  {
    if es != [] && es[0].key != key {
      UniqueValue(es[1..], key);
      assert Get(es, key) == Get(es[1..], key);
    }
  }

  // ---------------------------------------------------------------- what merging does to one key

  /** Keep what is explicit, fill what is missing, merge where both are records, and leave
      blocked keys alone. */
  function MergedValue(target: Record, source: Record, key: string): Tree<Json> {
    var mine, theirs := Read(target, key), Get(source, key);
    if theirs.None? || theirs.value == Leaf(Undefined) || key in BLOCKED_OBJECT_KEYS then mine
    else if mine == Leaf(Undefined) then theirs.value
    else if mine.Node? && theirs.value.Node? then Node(MergeMissing(mine.entries, theirs.value.entries))
    else mine
  }

  lemma {:induction false} MergeReads(target: Record, source: Record, key: string)
    requires Unique(source)
    ensures Read(MergeMissing(target, source), key) == MergedValue(target, source, key)
    decreases source
  {
    if source != [] {
      var e, rest := source[0], source[1..];
      var next := MergeOne(target, e);
      MergeUnfold(target, source);
      MergeReads(next, rest, key);
      GetHas(rest, e.key);
      GetSet(target, e.key, e.value, key);
      if Read(target, e.key).Node? && e.value.Node? {
        GetSet(target, e.key, Node(MergeMissing(Read(target, e.key).entries, e.value.entries)), key);
      }
    }
  }

  /** The value at a path of keys. */
  function ValueAt(t: Tree<Json>, path: seq<string>): Tree<Json>
    decreases |path|
  {
    if path == [] then t
    else if t.Leaf? then Leaf(Undefined)
    else ValueAt(Read(t.entries, path[0]), path[1..])
  }

  /** An explicit value that is not a record survives, at any depth. */
  lemma {:induction false} ExplicitWins(target: Record, source: Record, path: seq<string>)
    requires Unique(source) && path != []
    requires ValueAt(Node(target), path).Leaf? && ValueAt(Node(target), path) != Leaf(Undefined)
    ensures ValueAt(Node(MergeMissing(target, source)), path) == ValueAt(Node(target), path)
    decreases |path|
  {
    var key, rest := path[0], path[1..];
    MergeReads(target, source, key);
    var mine := Read(target, key);
    if rest != [] && MergedValue(target, source, key) != mine {
      var theirs := Get(source, key).value;
      UniqueValue(source, key);
      assert Read(source, key) == theirs;
      ExplicitWins(mine.entries, theirs.entries, rest);
    }
  }

  // ---------------------------------------------------------------- merging twice

  lemma {:induction false} MergeStable(m: Record, source: Record)
    requires forall e :: e in source ==> MergeOne(m, e) == m
    ensures MergeMissing(m, source) == m
  {
    if source != [] {
      assert source[0] in source;
      MergeUnfold(m, source);
      MergeStable(m, source[1..]);
    }
  }

  lemma {:induction false} UniqueGet(es: Record, e: Entry<Json>)
    requires Unique(es) && e in es
    ensures Get(es, e.key) == Some(e.value)
    ensures e.value.Node? ==> Unique(e.value.entries)
  {
    if es[0] != e {
      UniqueGet(es[1..], e);
      GetHas(es[1..], e.key);
    }
  }

  /** Merging a record into itself changes nothing. */
  lemma {:induction false} MergeSelf(s: Record)
    requires Unique(s)
    ensures MergeMissing(s, s) == s
    decreases s
  {
    forall e | e in s ensures MergeOne(s, e) == s {
      UniqueGet(s, e);
      if e.value.Node? {
        MergeSelf(e.value.entries);
        SetSame(s, e.key, e.value);
      }
    }
    MergeStable(s, s);
  }

  lemma {:induction false} MergeTwice(target: Record, source: Record)
    requires Unique(source)
    ensures MergeMissing(MergeMissing(target, source), source) == MergeMissing(target, source)
    decreases source
  {
    var m := MergeMissing(target, source);
    forall e | e in source ensures MergeOne(m, e) == m {
      UniqueGet(source, e);
      MergeReads(target, source, e.key);
      var mine := Read(target, e.key);
      if e.value.Node? && Read(m, e.key).Node? {
        MergeSelf(e.value.entries);
        if mine.Node? {
          MergeTwice(mine.entries, e.value.entries);
        }
        if e.key !in BLOCKED_OBJECT_KEYS {
          SetSame(m, e.key, Read(m, e.key));
        }
      }
    }
    MergeStable(m, source);
  }

  // ---------------------------------------------------------------- in place, on the heap

  function ReadSlot(fs: seq<Field<Json>>, key: string): Slot<Json> {
    match GetField(fs, key)
    case Some(slot) => slot
    case None => Prim(Absent(key))
  }

  lemma {:induction false} GetErased(fs: seq<ShapeField<Json>>, key: string)
    ensures Get(EraseFields(fs), key) == match FindShape(fs, key) case None => None case Some(s) => Some(Erase(s))
  {
    if fs != [] {
      assert EraseFields(fs)[1..] == EraseFields(fs[1..]);
      GetErased(fs[1..], key);
    }
  }

  lemma {:induction false} FindPutOther(fs: seq<ShapeField<Json>>, key: string, s: Shape<Json>, other: string)
    requires other != key
    ensures FindShape(PutShape(fs, key, s), other) == FindShape(fs, other)
  {
    if fs != [] && fs[0].key != key {
      FindPutOther(fs[1..], key, s, other);
      assert ([fs[0]] + PutShape(fs[1..], key, s))[1..] == PutShape(fs[1..], key, s);
    } else if fs != [] {
      assert ([ShapeField(key, s)] + fs[1..])[1..] == fs[1..];
    }
  }

  /** The loop with the source fields `rest` still to come: the target is now `cur`. */
  ghost predicate Merging(before: Cells<Json>, cells: Cells<Json>, target: Shape<Json>, source: Shape<Json>,
                          rest: seq<ShapeField<Json>>, cur: Shape<Json>)
  {
    && target.ShapeNode? && source.ShapeNode? && cur.ShapeNode? && cur.ref == target.ref
    && Live(cells, cur) && Separate(cur) && LiveFields(cells, rest) && SeparateFields(rest)
    && RefsOf(rest) <= Refs(source) && Refs(cur) !! RefsOf(rest) && Refs(cur) <= Refs(target) + Refs(source)
    && Frame(before, cells, Refs(target)) && cells.Keys == before.Keys
    && Unique(EraseFields(rest))
    && Untouched(target.fields, cur.fields, rest)
    && NodesStay(target.fields, cur.fields)
    && MergeMissing(EraseFields(cur.fields), EraseFields(rest)) == MergeMissing(EraseFields(target.fields), EraseFields(source.fields))
  }

  /** The keys still to come have their first value. */
  ghost predicate Untouched(old_: seq<ShapeField<Json>>, now: seq<ShapeField<Json>>, rest: seq<ShapeField<Json>>) {
    forall i :: 0 <= i < |rest| ==> FindShape(now, rest[i].key) == FindShape(old_, rest[i].key)
  }

  /** A nested record of the target stays the same object. */
  ghost predicate NodesStay(old_: seq<ShapeField<Json>>, now: seq<ShapeField<Json>>) {
    forall key: string {:trigger FindShape(old_, key)} :: FindShape(old_, key).Some? && FindShape(old_, key).value.ShapeNode? ==>
      FindShape(now, key).Some? && SlotOf(FindShape(now, key).value) == SlotOf(FindShape(old_, key).value)
  }

  lemma {:induction false} ErasedKeys(fs: seq<ShapeField<Json>>)
    ensures |EraseFields(fs)| == |fs|
    ensures forall i :: 0 <= i < |fs| ==> EraseFields(fs)[i].key == fs[i].key && EraseFields(fs)[i].value == Erase(fs[i].shape)
  {
    if fs != [] {
      ErasedKeys(fs[1..]);
    }
  }

  /** The first of the remaining keys does not come again. */
  lemma {:induction false} FirstKeyOnce(rest: seq<ShapeField<Json>>)
    requires rest != [] && Unique(EraseFields(rest))
    ensures EraseFields(rest)[0] == Entry(rest[0].key, Erase(rest[0].shape)) && EraseFields(rest)[1..] == EraseFields(rest[1..])
    ensures Unique(EraseFields(rest[1..]))
    ensures forall i :: 0 <= i < |rest[1..]| ==> rest[1..][i].key != rest[0].key
  {
    ErasedKeys(rest[1..]);
    assert EraseFields(rest)[1..] == EraseFields(rest[1..]);
    forall i | 0 <= i < |rest[1..]| ensures rest[1..][i].key != rest[0].key {
      assert EraseFields(rest[1..])[i].key == rest[1..][i].key;
    }
  }

  lemma MergingSkip(before: Cells<Json>, cells: Cells<Json>, target: Shape<Json>, source: Shape<Json>,
                    rest: seq<ShapeField<Json>>, cur: Shape<Json>)
    requires Merging(before, cells, target, source, rest, cur) && rest != []
    requires MergeOne(EraseFields(cur.fields), Entry(rest[0].key, Erase(rest[0].shape))) == EraseFields(cur.fields)
    ensures Merging(before, cells, target, source, rest[1..], cur)
  {
    FirstKeyOnce(rest);
    MergeUnfold(EraseFields(cur.fields), EraseFields(rest));
  }

  /** The target's field `rest[0].key` now holds `v`. */
  lemma MergingPut(before: Cells<Json>, cells: Cells<Json>, after: Cells<Json>, changed: set<Ref>,
                   target: Shape<Json>, source: Shape<Json>, rest: seq<ShapeField<Json>>, cur: Shape<Json>, v: Shape<Json>)
    requires Merging(before, cells, target, source, rest, cur) && rest != []
    requires var own := KeyRefs(cur.fields, rest[0].key);
             && changed <= Refs(target) && Frame(cells, after, changed) && after.Keys == cells.Keys
             && (forall r :: r in RefsOf(cur.fields) && r in changed ==> r in own)
             && (forall r :: r in Refs(v) ==> r in own || r in Refs(rest[0].shape))
    requires Live(after, v) && Separate(v) && Refs(cur) !! Refs(rest[0].shape)
    requires changed !! RefsOf(rest)
    requires cur.ref in after && after[cur.ref] == Slots(PutShape(cur.fields, rest[0].key, v))
    requires MergeOne(EraseFields(cur.fields), Entry(rest[0].key, Erase(rest[0].shape))) == SetKey(EraseFields(cur.fields), rest[0].key, Erase(v))
    requires FindShape(cur.fields, rest[0].key).Some? && FindShape(cur.fields, rest[0].key).value.ShapeNode? ==>
               SlotOf(v) == SlotOf(FindShape(cur.fields, rest[0].key).value)
    ensures Merging(before, after, target, source, rest[1..], ShapeNode(cur.ref, PutShape(cur.fields, rest[0].key, v)))
  {
    var key := rest[0].key;
    PutIntoObject(cells, after, changed, cur, key, v);
    FirstKeyOnce(rest);
    MergeUnfold(EraseFields(cur.fields), EraseFields(rest));
    OwnRefs(cur.fields, key);
    LiveFieldsFrame(cells, after, changed, rest[1..]);
    PutKeepsOthers(target.fields, cur.fields, rest, v);
  }

  lemma PutIntoObject(cells: Cells<Json>, after: Cells<Json>, changed: set<Ref>, cur: Shape<Json>, key: string, v: Shape<Json>)
    requires cur.ShapeNode? && Live(cells, cur) && Separate(cur) && Frame(cells, after, changed)
    requires var own := KeyRefs(cur.fields, key);
             && (forall r :: r in RefsOf(cur.fields) && r in changed ==> r in own)
             && (forall r :: r in Refs(v) ==> r in own || r !in Refs(cur))
    requires Live(after, v) && Separate(v)
    requires cur.ref in after && after[cur.ref] == Slots(PutShape(cur.fields, key, v))
    ensures var cur' := ShapeNode(cur.ref, PutShape(cur.fields, key, v));
            && Live(after, cur') && Separate(cur') && Refs(cur') <= Refs(cur) + Refs(v)
            && EraseFields(cur'.fields) == SetKey(EraseFields(cur.fields), key, Erase(v))
  {
    PutSlot(cur.fields, key, v);
    OwnRefs(cur.fields, key);
    PutShapeOk(cells, after, changed, cur.fields, key, v, KeyRefs(cur.fields, key));
  }

  lemma OwnRefs(fs: seq<ShapeField<Json>>, key: string)
    ensures KeyRefs(fs, key) <= RefsOf(fs)
  {
    if FindShape(fs, key).Some? {
      FoundShape(map[], fs, key);
    }
  }

  lemma PutKeepsOthers(first: seq<ShapeField<Json>>, now: seq<ShapeField<Json>>, rest: seq<ShapeField<Json>>, v: Shape<Json>)
    requires rest != [] && Untouched(first, now, rest) && NodesStay(first, now)
    requires forall i :: 0 <= i < |rest[1..]| ==> rest[1..][i].key != rest[0].key
    requires var t := FindShape(now, rest[0].key); t.Some? && t.value.ShapeNode? ==> SlotOf(v) == SlotOf(t.value)
    ensures Untouched(first, PutShape(now, rest[0].key, v), rest[1..])
    ensures NodesStay(first, PutShape(now, rest[0].key, v))
  {
    var key := rest[0].key;
    FindPut(now, key, v);
    forall other | other != key ensures FindShape(PutShape(now, key, v), other) == FindShape(now, other) {
      FindPutOther(now, key, v, other);
    }
    forall i | 0 <= i < |rest[1..]|
      ensures FindShape(PutShape(now, key, v), rest[1..][i].key) == FindShape(first, rest[1..][i].key)
    {
      assert rest[1..][i] == rest[i + 1];
    }
  }

  lemma MergingFill(before: Cells<Json>, cells: Cells<Json>, after: Cells<Json>,
                    target: Shape<Json>, source: Shape<Json>, rest: seq<ShapeField<Json>>, cur: Shape<Json>)
    requires Merging(before, cells, target, source, rest, cur) && rest != []
    requires Read(EraseFields(cur.fields), rest[0].key) == Leaf(Undefined)
    requires Erase(rest[0].shape) != Leaf(Undefined) && rest[0].key !in BLOCKED_OBJECT_KEYS
    requires cur.ref in cells && after == cells[cur.ref := PutField(cells[cur.ref], rest[0].key, SlotOf(rest[0].shape))]
    ensures Merging(before, after, target, source, rest[1..], ShapeNode(cur.ref, PutShape(cur.fields, rest[0].key, rest[0].shape)))
  {
    GetErased(cur.fields, rest[0].key);
    PutSlot(cur.fields, rest[0].key, rest[0].shape);
    LiveFrame(cells, after, {cur.ref}, rest[0].shape);
    MergingPut(before, cells, after, {cur.ref}, target, source, rest, cur, rest[0].shape);
  }

  lemma MergingRecurse(before: Cells<Json>, cells: Cells<Json>, after: Cells<Json>, target: Shape<Json>, source: Shape<Json>,
                       rest: seq<ShapeField<Json>>, cur: Shape<Json>, t: Shape<Json>, v: Shape<Json>)
    requires Merging(before, cells, target, source, rest, cur) && rest != []
    requires FindShape(cur.fields, rest[0].key) == Some(t) && t.ShapeNode? && rest[0].shape.ShapeNode?
    requires rest[0].key !in BLOCKED_OBJECT_KEYS
    requires v.ShapeNode? && v.ref == t.ref && Live(after, v) && Separate(v) && Refs(v) <= Refs(t) + Refs(rest[0].shape)
    requires EraseFields(v.fields) == MergeMissing(EraseFields(t.fields), EraseFields(rest[0].shape.fields))
    requires Frame(cells, after, Refs(t)) && after.Keys == cells.Keys
    ensures Merging(before, after, target, source, rest[1..], ShapeNode(cur.ref, PutShape(cur.fields, rest[0].key, v)))
  {
    var key := rest[0].key;
    GetErased(cur.fields, key);
    FoundShape(cells, cur.fields, key);
    assert FindShape(target.fields, key) == Some(t);
    FoundShape(before, target.fields, key);
    FindSlot(cur.fields, key);
    PutSlot(cur.fields, key, v);
    PutSame(Slots(cur.fields), key, SlotOf(t));
    MergingPut(before, cells, after, Refs(t), target, source, rest, cur, v);
  }

  /** What the loop sees of the next source field and of the target's value for its key. */
  lemma NextField(cells: Cells<Json>, cur: Shape<Json>, rest: seq<ShapeField<Json>>)
    requires Live(cells, cur) && cur.ShapeNode? && rest != []
    ensures Slots(rest)[0] == Field(rest[0].key, SlotOf(rest[0].shape)) && Slots(rest)[1..] == Slots(rest[1..])
    ensures SlotOf(rest[0].shape).Prim? ==> Erase(rest[0].shape) == Leaf(SlotOf(rest[0].shape).value)
    ensures var slot, value := ReadSlot(cells[cur.ref], rest[0].key), Read(EraseFields(cur.fields), rest[0].key);
            match slot
            case Prim(p) => value == Leaf(p)
            case Object(r) =>
              && FindShape(cur.fields, rest[0].key).Some? && FindShape(cur.fields, rest[0].key).value.ShapeNode?
              && FindShape(cur.fields, rest[0].key).value.ref == r
              && value == Erase(FindShape(cur.fields, rest[0].key).value)
  {
    FindSlot(cur.fields, rest[0].key);
    GetErased(cur.fields, rest[0].key);
  }

  /** The arguments of the recursive call. */
  lemma RecursiveCallOk(before: Cells<Json>, cells: Cells<Json>, target: Shape<Json>, source: Shape<Json>,
                        rest: seq<ShapeField<Json>>, cur: Shape<Json>, t: Shape<Json>)
    requires Merging(before, cells, target, source, rest, cur) && rest != []
    requires FindShape(cur.fields, rest[0].key) == Some(t) && t.ShapeNode? && rest[0].shape.ShapeNode?
    ensures Live(cells, t) && Separate(t) && Live(cells, rest[0].shape) && Separate(rest[0].shape)
    ensures Refs(t) !! Refs(rest[0].shape) && Unique(EraseFields(rest[0].shape.fields))
  {
    FoundShape(cells, cur.fields, rest[0].key);
    FirstKeyOnce(rest);
    assert Erase(rest[0].shape).Node?;
  }

  /** `mergeMissing`: the target's object now holds the merged record; only cells of the
      target have changed, and what was filled in is the source's own objects. */
  method MergeMissingInPlace(heap: JsHeap<Json>, target: Ref, source: Ref, ghost t: Shape<Json>, ghost s: Shape<Json>)
    returns (ghost t': Shape<Json>)
    requires heap.Valid() && t.ShapeNode? && s.ShapeNode? && t.ref == target && s.ref == source
    requires Live(heap.cells, t) && Separate(t) && Live(heap.cells, s) && Separate(s) && Refs(t) !! Refs(s)
    requires Unique(EraseFields(s.fields))
    modifies heap
    ensures heap.Valid() && Merging(old(heap.cells), heap.cells, t, s, [], t')
    ensures EraseFields(t'.fields) == MergeMissing(EraseFields(t.fields), EraseFields(s.fields))
    decreases s
  {
    t' := t;
    ghost var rest := s.fields;
    ghost var before := heap.cells;
    var fields := heap.cells[source];
    for i := 0 to |fields|
      invariant heap.Valid() && heap.cells.Keys == before.Keys && fields[i..] == Slots(rest)
      invariant Merging(before, heap.cells, t, s, rest, t')
      invariant forall f :: f in rest ==> f in s.fields
    {
      SlotsLength(rest);
      ghost var cells := heap.cells;
      NextField(cells, t', rest);
      var key, value := fields[i].key, fields[i].slot;
      assert fields[i..][0] == fields[i] && fields[i..][1..] == fields[i + 1..];
      if value == Prim(Undefined) || key in BLOCKED_OBJECT_KEYS {
        MergingSkip(before, cells, t, s, rest, t');
        rest := rest[1..];
        continue;
      }
      var existing := ReadSlot(heap.cells[target], key);
      if existing == Prim(Undefined) {
        heap.cells := heap.cells[target := PutField(heap.cells[target], key, value)];
        MergingFill(before, cells, heap.cells, t, s, rest, t');
        t' := ShapeNode(t'.ref, PutShape(t'.fields, key, rest[0].shape));
        rest := rest[1..];
        continue;
      }
      if existing.Object? && value.Object? {
        ghost var inner := FindShape(t'.fields, key).value;
        RecursiveCallOk(before, cells, t, s, rest, t', inner);
        assert rest[0] in s.fields;
        ghost var merged := MergeMissingInPlace(heap, existing.ref, value.ref, inner, rest[0].shape);
        MergingRecurse(before, cells, heap.cells, t, s, rest, t', inner, merged);
        t' := ShapeNode(t'.ref, PutShape(t'.fields, key, merged));
      } else {
        MergingSkip(before, cells, t, s, rest, t');
      }
      rest := rest[1..];
    }
    SlotsLength(rest);
  }

  lemma {:induction false} SlotsLength(fs: seq<ShapeField<Json>>)
    ensures |Slots(fs)| == |fs|
  {
    if fs != [] {
      SlotsLength(fs[1..]);
    }
  }
}
