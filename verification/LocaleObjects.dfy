/** `flattenTranslations` and `setNestedValue` (scripts/control-ui-i18n.ts) as the script
    runs them: one fills a map it is handed, the other walks a cursor through objects and
    writes into them. */
module LocaleObjects {
  import opened Wrappers
  import opened JsText
  import opened JsObjects
  import opened ObjectCursor
  import opened TranslationTree

  class TextMap {
    var items: seq<Flat>

    constructor ()
      ensures items == []
    {
      items := [];
    }

    method Set(key: string, text: string)
      modifies this
      ensures items == MapSet(old(items), key, text)
    {
      items := MapSet(items, key, text);
    }
  }

  method FlattenTranslations(value: Entries, prefix: string, out: TextMap)
    modifies out
    ensures out.items == FlattenInto(value, prefix, old(out.items))
    decreases value
  {
    for i := 0 to |value|
      invariant FlattenInto(value[i..], prefix, out.items) == FlattenInto(value, prefix, old(out.items))
    {
      var e := value[i];
      assert value[i..][0] == e && value[i..][1..] == value[i + 1..];
      var fullKey := FullKey(prefix, e.key);
      match e.value {
        case Leaf(text) =>
          out.Set(fullKey, text);
        case Node(nested) =>
          FlattenTranslations(nested, fullKey, out);
      }
    }
  }

  // ---------------------------------------------------------------- the cursor walk on the heap

  /** `setNestedValue`: the tree then is the specified one, and no other cell has changed.
      `fate` tells what became of the value.  When the walk has escaped, it ends in a function or
      object of the JavaScript runtime, which is no cell of this heap. */
  method SetNestedValue(heap: JsHeap<string>, root: Ref, dottedKey: string, value: string, ghost s0: Shape<string>)
    returns (fate: Fate, ghost s: Shape<string>)
    requires heap.Valid() && CursorAt(heap.cells, s0, [], root)
    modifies heap
    ensures heap.Valid() && CursorAt(heap.cells, s, [], root)
    ensures EraseFields(s.fields) == SetNested(EraseFields(s0.fields), dottedKey, value)
    ensures fate == FateOf(EraseFields(s0.fields), Split(dottedKey, '.'))
    ensures Frame(old(heap.cells), heap.cells, Refs(s0))
    ensures forall r :: r in Refs(s) ==> r in Refs(s0) || r !in old(heap.cells)
  {
    var parts := Split(dottedKey, '.');
    var cursor := root;
    s := s0;
    ghost var es := EraseFields(s0.fields);
    LiveRefs(heap.cells, s);
    WalkingStart(heap.cells, s, parts);
    assert parts[..0] == [] && parts[0..] == parts;
    for index := 0 to |parts| - 1
      invariant heap.Valid() && old(heap.cells).Keys <= heap.cells.Keys
      invariant Walking(old(heap.cells), heap.cells, s0, s, parts, index, cursor)
      invariant FateOf(es, parts) == FateOf(ChildAt(es, parts[..index]), parts[index..])
    {
      var key := parts[index];
      WalkingOwns(old(heap.cells), heap.cells, s0, s, parts, index, cursor);
      FateStep(es, parts, index);
      if GetField(heap.cells[cursor], key).None? && key in INHERITED {
        WalkingLost(old(heap.cells), heap.cells, s0, s, parts, index, cursor, Leaf(value));
        return Escaped, s;
      }
      cursor, s := Descend(heap, cursor, parts, index, old(heap.cells), s0, s);
    }
    var last := parts[|parts| - 1];
    WalkingOwns(old(heap.cells), heap.cells, s0, s, parts, |parts| - 1, cursor);
    FateStep(es, parts, |parts| - 1);
    if GetField(heap.cells[cursor], last).None? && last == "__proto__" {
      WalkingLost(old(heap.cells), heap.cells, s0, s, parts, |parts| - 1, cursor, Leaf(value));
      return Ignored, s;
    }
    fate := Arrived;
    s := WriteLast(heap, cursor, parts, Prim(value), old(heap.cells), heap.cells, s0, s, ShapeLeaf(value));
  }

  /** The loop that builds the new locale map: every key is written into one object.  It ends
      with a write that throws; `inside` tells whether every text arrived. */
  method BuildLocale(throws: string -> bool, heap: JsHeap<string>, flat: seq<Flat>)
    returns (root: Option<Ref>, inside: bool, ghost s: Shape<string>)
    requires heap.Valid()
    modifies heap
    ensures heap.Valid() && Frame(old(heap.cells), heap.cells, {})
    ensures match root
            case None => Rebuild(throws, [], flat) == None
            case Some(ref) =>
              && CursorAt(heap.cells, s, [], ref)
              && Rebuild(throws, [], flat) == Some(EraseFields(s.fields))
    ensures inside <==> WritesArrive([], flat)
  {
    var nextMap := heap.Alloc();
    s := ShapeNode(nextMap, []);
    inside := true;
    for i := 0 to |flat|
      invariant heap.Valid() && CursorAt(heap.cells, s, [], nextMap)
      invariant Rebuild(throws, EraseFields(s.fields), flat[i..]) == Rebuild(throws, [], flat)
      invariant WritesArrive([], flat) <==> inside && WritesArrive(EraseFields(s.fields), flat[i..])
      invariant Frame(old(heap.cells), heap.cells, {})
      invariant forall r :: r in Refs(s) ==> r !in old(heap.cells)
    {
      assert flat[i..][0] == flat[i] && flat[i..][1..] == flat[i + 1..];
      var fate;
      fate, s := SetNestedValue(heap, nextMap, flat[i].key, flat[i].text, s);
      inside := inside && fate == Arrived;
      if fate == Escaped && throws(flat[i].key) {
        return None, false, s;
      }
    }
    root := Some(nextMap);
  }
}
