/** A cursor that walks from an object down a path of keys and writes into the object it
    has reached, on the heap of JsObjects. */
module ObjectCursor {
  import opened Wrappers
  import opened JsObjects

  // ---------------------------------------------------------------- the cursor walk on trees

  lemma {:induction false} SetKeyTwice<P>(es: seq<Entry<P>>, key: string, a: Tree<P>, b: Tree<P>)
    ensures SetKey(SetKey(es, key, a), key, b) == SetKey(es, key, b)
    ensures Child(SetKey(es, key, a), key) == if a.Node? then a.entries else []
    ensures HasKey(SetKey(es, key, a), key)
  {
    if es != [] && es[0].key != key {
      SetKeyTwice(es[1..], key, a, b);
      var rest := SetKey(es[1..], key, a);
      assert ([es[0]] + rest)[1..] == rest;
      var i :| 0 <= i < |rest| && rest[i].key == key;
      assert SetKey(es, key, a)[i + 1].key == key;
    } else if es != [] {
      assert ([Entry(key, a)] + es[1..])[1..] == es[1..];
      assert SetKey(es, key, a)[0].key == key;
    } else {
      assert SetKey(es, key, a)[0].key == key;
    }
  }

  lemma {:induction false} ChildErased<P>(fs: seq<ShapeField<P>>, key: string)
    ensures Child(EraseFields(fs), key) ==
            match FindShape(fs, key)
            case Some(ShapeNode(_, fields)) => EraseFields(fields)
            case _ => []
  {
    if fs != [] {
      assert EraseFields(fs)[1..] == EraseFields(fs[1..]);
      if fs[0].key != key {
        ChildErased(fs[1..], key);
      }
    }
  }

  /** A key of a cell is a key of the tree. */
  lemma {:induction false} OwnKey<P>(fs: seq<ShapeField<P>>, key: string)
    ensures HasKey(EraseFields(fs), key) <==> FindShape(fs, key).Some?
  {
    if fs != [] {
      OwnKey(fs[1..], key);
      var es := EraseFields(fs);
      assert es[1..] == EraseFields(fs[1..]) && es[0].key == fs[0].key;
      if HasKey(es[1..], key) {
        var i :| 0 <= i < |es[1..]| && es[1..][i].key == key;
        assert es[i + 1].key == key;
      }
      if HasKey(es, key) && fs[0].key != key {
        var i :| 0 <= i < |es| && es[i].key == key;
        assert es[1..][i - 1].key == key;
      }
    }
  }

  lemma PutAtUnfold<P>(es: seq<Entry<P>>, key: string, parts: seq<string>, value: Tree<P>)
    requires parts != [] && !StepsOut(es, [key] + parts)
    ensures PutAt(es, [key] + parts, value) == SetKey(es, key, Node(PutAt(Child(es, key), parts, value)))
  {
    assert ([key] + parts)[1..] == parts;
  }

  /** Replacing the node at `path` by one on which the rest of the walk has the same
      effect leaves the effect of the whole walk unchanged. */
  lemma {:induction false} WalkUnchanged<P>(s: Shape<P>, path: seq<string>, c: Shape<P>, parts: seq<string>, value: Tree<P>)
    requires At(s, path).Some? && At(s, path).value.ShapeNode? && c.ShapeNode? && parts != []
    requires PutAt(EraseFields(c.fields), parts, value) == PutAt(EraseFields(At(s, path).value.fields), parts, value)
    ensures ReplaceAt(s, path, c).ShapeNode? && s.ShapeNode?
    ensures PutAt(EraseFields(ReplaceAt(s, path, c).fields), path + parts, value)
         == PutAt(EraseFields(s.fields), path + parts, value)
    decreases |path|
  {
    if path == [] {
      assert path + parts == parts;
    } else {
      var key, rest := path[0], path[1..];
      var t := FindShape(s.fields, key).value;
      var t' := ReplaceAt(t, rest, c);
      WalkUnchanged(t, rest, c, parts, value);
      assert path + parts == [key] + (rest + parts);
      var es := EraseFields(s.fields);
      PutSlot(s.fields, key, t');
      ChildErased(s.fields, key);
      OwnKey(s.fields, key);
      SetKeyTwice(es, key, Erase(t'), Node(PutAt(EraseFields(t'.fields), rest + parts, value)));
      PutAtUnfold(es, key, rest + parts, value);
      PutAtUnfold(SetKey(es, key, Erase(t')), key, rest + parts, value);
    }
  }

  /** Carrying out the rest of the walk at `path` carries out the whole walk. */
  lemma {:induction false} WalkDone<P>(s: Shape<P>, path: seq<string>, c: Shape<P>, parts: seq<string>, value: Tree<P>)
    requires At(s, path).Some? && At(s, path).value.ShapeNode? && c.ShapeNode? && parts != []
    requires EraseFields(c.fields) == PutAt(EraseFields(At(s, path).value.fields), parts, value)
    ensures ReplaceAt(s, path, c).ShapeNode? && s.ShapeNode?
    ensures EraseFields(ReplaceAt(s, path, c).fields) == PutAt(EraseFields(s.fields), path + parts, value)
    decreases |path|
  {
    if path == [] {
      assert path + parts == parts;
    } else {
      var key, rest := path[0], path[1..];
      var t := FindShape(s.fields, key).value;
      WalkDone(t, rest, c, parts, value);
      assert path + parts == [key] + (rest + parts);
      PutSlot(s.fields, key, ReplaceAt(t, rest, c));
      ChildErased(s.fields, key);
      OwnKey(s.fields, key);
      PutAtUnfold(EraseFields(s.fields), key, rest + parts, value);
    }
  }

  /** Where the rest of the walk changes nothing, the whole walk changes nothing. */
  lemma {:induction false} WalkLost<P>(s: Shape<P>, path: seq<string>, parts: seq<string>, value: Tree<P>)
    requires At(s, path).Some? && At(s, path).value.ShapeNode? && parts != []
    requires StepsOut(EraseFields(At(s, path).value.fields), parts)
    ensures s.ShapeNode? && PutAt(EraseFields(s.fields), path + parts, value) == EraseFields(s.fields)
    decreases |path|
  {
    if path == [] {
      assert path + parts == parts;
    } else {
      var key, rest := path[0], path[1..];
      var t := FindShape(s.fields, key).value;
      WalkLost(t, rest, parts, value);
      assert path + parts == [key] + (rest + parts);
      OwnKey(s.fields, key);
      ChildErased(s.fields, key);
      PutAtUnfold(EraseFields(s.fields), key, rest + parts, value);
      SetKeySame(s.fields, key);
    }
  }

  lemma {:induction false} SetKeySame<P>(fs: seq<ShapeField<P>>, key: string)
    requires FindShape(fs, key).Some?
    ensures SetKey(EraseFields(fs), key, Erase(FindShape(fs, key).value)) == EraseFields(fs)
  {
    assert EraseFields(fs)[1..] == EraseFields(fs[1..]);
    if fs[0].key != key {
      SetKeySame(fs[1..], key);
    }
  }

  /** An empty object in place of a missing or other value changes nothing. */
  lemma FreshChild<P>(es: seq<Entry<P>>, key: string, parts: seq<string>, value: Tree<P>)
    requires Child(es, key) == [] && parts != [] && !StepsOut(es, [key] + parts)
    ensures PutAt(SetKey(es, key, Node([])), [key] + parts, value) == PutAt(es, [key] + parts, value)
  {
    PutAtUnfold(es, key, parts, value);
    SetKeyTwice(es, key, Node([]), Node(PutAt([], parts, value)));
    PutAtUnfold(SetKey(es, key, Node([])), key, parts, value);
  }

  /** The entries of the object at a path, or none where there is no object. */
  function ChildAt<P>(es: seq<Entry<P>>, path: seq<string>): seq<Entry<P>>
    decreases |path|
  {
    if path == [] then es else ChildAt(Child(es, path[0]), path[1..])
  }

  lemma {:induction false} ChildAtStep<P>(es: seq<Entry<P>>, path: seq<string>, key: string)
    ensures ChildAt(es, path + [key]) == Child(ChildAt(es, path), key)
    decreases |path|
  {
    if path == [] {
      assert [key][1..] == [];
    } else {
      assert (path + [key])[1..] == path[1..] + [key];
      ChildAtStep(Child(es, path[0]), path[1..], key);
    }
  }

  /** What becomes of a write depends on what is below the object that the walk has reached. */
  lemma FateStep<P>(es: seq<Entry<P>>, parts: seq<string>, index: nat)
    requires index < |parts| && FateOf(es, parts) == FateOf(ChildAt(es, parts[..index]), parts[index..])
    ensures FateOf(es, parts) ==
            if StepsOut(ChildAt(es, parts[..index]), parts[index..]) then (if index + 1 == |parts| then Ignored else Escaped)
            else if index + 1 == |parts| then Arrived
            else FateOf(ChildAt(es, parts[..index + 1]), parts[index + 1..])
  {
    assert parts[..index + 1] == parts[..index] + [parts[index]];
    ChildAtStep(es, parts[..index], parts[index]);
    assert parts[index..][1..] == parts[index + 1..];
  }

  /** Whatever is written at the path, the result is the same from both. */
  ghost predicate SameEffect<P(!new)>(a: seq<Entry<P>>, b: seq<Entry<P>>, path: seq<string>) {
    path != [] && forall value :: PutAt(a, path, value) == PutAt(b, path, value)
  }

  // ---------------------------------------------------------------- the cursor walk on the heap

  /** The heap holds `s`, whose node at `path` is the cursor's object. */
  ghost predicate CursorAt<P>(cells: Cells<P>, s: Shape<P>, path: seq<string>, cursor: Ref) {
    && Live(cells, s) && Separate(s)
    && At(s, path).Some? && At(s, path).value.ShapeNode? && At(s, path).value.ref == cursor
  }

  /** The shape after the cursor's object got a field. */
  ghost function Written<P>(s: Shape<P>, path: seq<string>, key: string, v: Shape<P>): Shape<P>
    requires At(s, path).Some? && At(s, path).value.ShapeNode?
  {
    ReplaceAt(s, path, ShapeNode(At(s, path).value.ref, PutShape(At(s, path).value.fields, key, v)))
  }

  /** Writing a value into the cursor's object.  The value shares no cell with the tree,
      except with the value it replaces, whose cells may have changed before. */
  lemma CursorWrites<P>(before: Cells<P>, after: Cells<P>, s: Shape<P>, path: seq<string>,
                        cursor: Ref, key: string, v: Shape<P>)
    requires CursorAt(before, s, path, cursor)
    requires Live(after, v) && Separate(v)
    requires var own := KeyRefs(At(s, path).value.fields, key);
             && (forall r :: r in Refs(v) ==> r in own || r !in Refs(s))
             && Frame(before, after, {cursor} + own)
    requires cursor in after && cursor in before && after[cursor] == PutField(before[cursor], key, SlotOf(v))
    ensures var fields := PutShape(At(s, path).value.fields, key, v);
            && EraseFields(fields) == SetKey(EraseFields(At(s, path).value.fields), key, Erase(v))
            && FindShape(fields, key) == Some(v)
            && CursorAt(after, Written(s, path, key, v), path, cursor)
            && At(Written(s, path, key, v), path) == Some(ShapeNode(cursor, fields))
            && Refs(Written(s, path, key, v)) <= Refs(s) + Refs(v)
  {
    var o := At(s, path).value;
    var own := KeyRefs(o.fields, key);
    AtOk(before, s, path);
    if FindShape(o.fields, key).Some? {
      FoundShape(before, o.fields, key);
    }
    PutSlot(o.fields, key, v);
    PutShapeOk(before, after, {cursor} + own, o.fields, key, v, own);
    ReplaceAtOk(before, after, {cursor} + own, s, path, ShapeNode(cursor, PutShape(o.fields, key, v)));
    AtReplaced(s, path, ShapeNode(cursor, PutShape(o.fields, key, v)));
    FindPut(o.fields, key, v);
  }

  /** One round of the cursor loop: make an object of a missing or other value. */
  lemma CursorMakesChild<P>(before: Cells<P>, after: Cells<P>, s: Shape<P>, path: seq<string>, cursor: Ref, key: string, r: Ref)
    requires CursorAt(before, s, path, cursor)
    requires var found := FindShape(At(s, path).value.fields, key); found.None? || found.value.ShapeLeaf?
    requires r !in before && r in after && after[r] == []
    requires Frame(before, after, {cursor}) && cursor in after && cursor in before
    requires after[cursor] == PutField(before[cursor], key, Object(r))
    ensures var s' := Written(s, path, key, ShapeNode(r, []));
            && CursorAt(after, s', path + [key], r)
            && EraseFields(At(s', path + [key]).value.fields) == []
            && Refs(s') <= Refs(s) + {r}
            && s.ShapeNode? && s'.ShapeNode? && s'.ref == s.ref
  {
    var v := ShapeNode(r, []);
    LiveRefs(before, s);
    CursorWrites(before, after, s, path, cursor, key, v);
    AtStep(Written(s, path, key, v), path, key);
  }

  lemma MakingChildKeepsEffect<P(!new)>(s: Shape<P>, path: seq<string>, key: string, r: Ref, rest: seq<string>)
    requires At(s, path).Some? && At(s, path).value.ShapeNode? && s.ShapeNode? && rest != []
    requires match FindShape(At(s, path).value.fields, key)
             case None => key !in INHERITED
             case Some(found) => found.ShapeLeaf?
    ensures var s' := Written(s, path, key, ShapeNode(r, []));
            s'.ShapeNode? && SameEffect(EraseFields(s'.fields), EraseFields(s.fields), path + ([key] + rest))
  {
    var o, v := At(s, path).value, ShapeNode(r, []);
    var c := ShapeNode(o.ref, PutShape(o.fields, key, v));
    PutSlot(o.fields, key, v);
    ChildErased(o.fields, key);
    OwnKey(o.fields, key);
    forall value: Tree<P>
      ensures Written(s, path, key, v).ShapeNode?
      ensures PutAt(EraseFields(Written(s, path, key, v).fields), path + ([key] + rest), value)
           == PutAt(EraseFields(s.fields), path + ([key] + rest), value)
    {
      FreshChild(EraseFields(o.fields), key, rest, value);
      WalkUnchanged(s, path, c, [key] + rest, value);
    }
  }

  /** The cursor loop after `index` parts: whatever the walk writes at its end has the same
      effect as on the tree the call started from, and the cursor's object is the one there. */
  ghost predicate Walking<P(!new)>(before: Cells<P>, cells: Cells<P>, s0: Shape<P>, s: Shape<P>,
                                   parts: seq<string>, index: nat, cursor: Ref)
  {
    && index < |parts| && s0.ShapeNode? && s.ShapeNode? && s.ref == s0.ref
    && CursorAt(cells, s, parts[..index], cursor)
    && SameEffect(EraseFields(s.fields), EraseFields(s0.fields), parts)
    && EraseFields(At(s, parts[..index]).value.fields) == ChildAt(EraseFields(s0.fields), parts[..index])
    && (forall r :: r in Refs(s) ==> r in Refs(s0) || r !in before)
    && Frame(before, cells, Refs(s0))
  }

  lemma WalkingStart<P(!new)>(cells: Cells<P>, s: Shape<P>, parts: seq<string>)
    requires Live(cells, s) && Separate(s) && s.ShapeNode? && parts != []
    ensures Walking(cells, cells, s, s, parts, 0, s.ref)
  {
  }

  lemma WalkingFound<P(!new)>(before: Cells<P>, cells: Cells<P>, s0: Shape<P>, s: Shape<P>, parts: seq<string>, index: nat,
                              cursor: Ref, next: Ref)
    requires Walking(before, cells, s0, s, parts, index, cursor) && index + 1 < |parts|
    requires cursor in cells && GetField(cells[cursor], parts[index]) == Some(Object(next))
    ensures Walking(before, cells, s0, s, parts, index + 1, next)
  {
    var key, path := parts[index], parts[..index];
    assert parts[..index + 1] == path + [key];
    AtOk(cells, s, path);
    FindSlot(At(s, path).value.fields, key);
    AtStep(s, path, key);
    ChildErased(At(s, path).value.fields, key);
    ChildAtStep(EraseFields(s0.fields), path, key);
  }

  lemma WalkingMade<P(!new)>(before: Cells<P>, cells: Cells<P>, after: Cells<P>, s0: Shape<P>, s: Shape<P>,
                             parts: seq<string>, index: nat, cursor: Ref, r: Ref)
    requires Walking(before, cells, s0, s, parts, index, cursor) && index + 1 < |parts|
    requires Refs(s0) <= before.Keys <= cells.Keys
    requires cursor in cells && r !in cells && after == cells[r := []][cursor := PutField(cells[cursor], parts[index], Object(r))]
    requires match GetField(cells[cursor], parts[index])
             case None => parts[index] !in INHERITED
             case Some(found) => found.Prim?
    ensures Walking(before, after, s0, Written(s, parts[..index], parts[index], ShapeNode(r, [])), parts, index + 1, r)
  {
    var key, path, rest := parts[index], parts[..index], parts[index + 1..];
    assert parts[..index + 1] == path + [key];
    assert path + ([key] + rest) == parts;
    AtOk(cells, s, path);
    FindSlot(At(s, path).value.fields, key);
    ChildErased(At(s, path).value.fields, key);
    CursorMakesChild(cells, after, s, path, cursor, key, r);
    MakingChildKeepsEffect(s, path, key, r, rest);
    ChildAtStep(EraseFields(s0.fields), path, key);
  }

  /** What the cursor's object owns, read from its cell. */
  lemma WalkingOwns<P(!new)>(before: Cells<P>, cells: Cells<P>, s0: Shape<P>, s: Shape<P>, parts: seq<string>, index: nat, cursor: Ref)
    requires Walking(before, cells, s0, s, parts, index, cursor)
    ensures cursor in cells
    ensures HasKey(ChildAt(EraseFields(s0.fields), parts[..index]), parts[index]) <==> GetField(cells[cursor], parts[index]).Some?
    ensures FindShape(At(s, parts[..index]).value.fields, parts[index]).Some? <==> GetField(cells[cursor], parts[index]).Some?
  {
    AtOk(cells, s, parts[..index]);
    FindSlot(At(s, parts[..index]).value.fields, parts[index]);
    OwnKey(At(s, parts[..index]).value.fields, parts[index]);
  }

  /** The walk ends here: the cursor's object does not own the next key. */
  lemma WalkingLost<P(!new)>(before: Cells<P>, cells: Cells<P>, s0: Shape<P>, s: Shape<P>, parts: seq<string>, index: nat,
                             cursor: Ref, value: Tree<P>)
    requires Walking(before, cells, s0, s, parts, index, cursor)
    requires cursor in cells && GetField(cells[cursor], parts[index]).None?
    requires if index + 1 == |parts| then parts[index] == "__proto__" else parts[index] in INHERITED
    ensures EraseFields(s.fields) == PutAt(EraseFields(s0.fields), parts, value)
  {
    var path, rest := parts[..index], parts[index..];
    assert path + rest == parts && rest[0] == parts[index];
    AtOk(cells, s, path);
    FindSlot(At(s, path).value.fields, rest[0]);
    OwnKey(At(s, path).value.fields, rest[0]);
    WalkLost(s, path, rest, value);
  }

  /** One round of the cursor loop. */
  method Descend<P(!new)>(heap: JsHeap<P>, cursor: Ref, parts: seq<string>, index: nat, ghost before: Cells<P>,
                          ghost s0: Shape<P>, ghost s: Shape<P>)
    returns (next: Ref, ghost s': Shape<P>)
    requires heap.Valid() && Refs(s0) <= before.Keys <= heap.cells.Keys
    requires Walking(before, heap.cells, s0, s, parts, index, cursor) && index + 1 < |parts|
    requires parts[index] in INHERITED && cursor in heap.cells ==> GetField(heap.cells[cursor], parts[index]).Some?
    modifies heap
    ensures heap.Valid() && before.Keys <= heap.cells.Keys
    ensures Walking(before, heap.cells, s0, s', parts, index + 1, next)
  {
    var key := parts[index];
    ghost var cells := heap.cells;
    AtOk(cells, s, parts[..index]);
    var found := GetField(heap.cells[cursor], key);
    if found.None? || found.value.Prim? {
      var replacement := heap.Alloc();
      heap.cells := heap.cells[cursor := PutField(heap.cells[cursor], key, Object(replacement))];
      WalkingMade(before, cells, heap.cells, s0, s, parts, index, cursor, replacement);
      return replacement, Written(s, parts[..index], key, ShapeNode(replacement, []));
    }
    WalkingFound(before, cells, s0, s, parts, index, cursor, found.value.ref);
    return found.value.ref, s;
  }

  /** The final assignment.  Since `mid`, when the walk reached the cursor, the value that
      is replaced may have changed. */
  method WriteLast<P(!new)>(heap: JsHeap<P>, cursor: Ref, parts: seq<string>, slot: Slot<P>, ghost before: Cells<P>,
                            ghost mid: Cells<P>, ghost s0: Shape<P>, ghost s: Shape<P>, ghost v: Shape<P>)
    returns (ghost s': Shape<P>)
    requires heap.Valid() && parts != []
    requires Walking(before, mid, s0, s, parts, |parts| - 1, cursor)
    requires Refs(s0) <= before.Keys
    requires FindShape(At(s, parts[..|parts| - 1]).value.fields, parts[|parts| - 1]).Some? || parts[|parts| - 1] != "__proto__"
    requires slot == SlotOf(v) && Live(heap.cells, v) && Separate(v)
    requires var own := KeyRefs(At(s, parts[..|parts| - 1]).value.fields, parts[|parts| - 1]);
             && (forall r :: r in Refs(v) ==> r in own || r !in Refs(s))
             && Frame(mid, heap.cells, own)
    modifies heap
    ensures heap.Valid() && CursorAt(heap.cells, s', [], s0.ref)
    ensures EraseFields(s'.fields) == PutAt(EraseFields(s0.fields), parts, Erase(v))
    ensures Frame(before, heap.cells, Refs(s0)) && Refs(s') <= Refs(s) + Refs(v)
    ensures heap.cells.Keys == old(heap.cells).Keys && Frame(old(heap.cells), heap.cells, {cursor})
  {
    var last := parts[|parts| - 1];
    ghost var path, cells := parts[..|parts| - 1], heap.cells;
    assert path + [last] == parts;
    CursorAlone(mid, cells, s, path, cursor, last);
    heap.cells := heap.cells[cursor := PutField(heap.cells[cursor], last, slot)];
    LiveFrame(cells, heap.cells, {cursor}, v);
    CursorWrites(mid, heap.cells, s, path, cursor, last, v);
    ghost var c := ShapeNode(cursor, PutShape(At(s, path).value.fields, last, v));
    OwnKey(At(s, path).value.fields, last);
    WalkDone(s, path, c, [last], Erase(v));
    s' := Written(s, path, last, v);
    ChangedWithin(before, s0, s, path, cursor, last);
  }

  /** The cursor's own cell is not part of the value at a key. */
  lemma CursorAlone<P>(mid: Cells<P>, cells: Cells<P>, s: Shape<P>, path: seq<string>, cursor: Ref, key: string)
    requires CursorAt(mid, s, path, cursor) && Frame(mid, cells, KeyRefs(At(s, path).value.fields, key))
    ensures cursor in mid && cursor in cells && cells[cursor] == mid[cursor] && cursor in Refs(s)
    ensures cursor !in KeyRefs(At(s, path).value.fields, key)
  {
    AtOk(mid, s, path);
    if FindShape(At(s, path).value.fields, key).Some? {
      FoundShape(mid, At(s, path).value.fields, key);
    }
  }

  lemma ChangedWithin<P>(before: Cells<P>, s0: Shape<P>, s: Shape<P>, path: seq<string>, cursor: Ref, key: string)
    requires At(s, path).Some? && At(s, path).value.ShapeNode? && At(s, path).value.ref == cursor
    requires forall r :: r in Refs(s) ==> r in Refs(s0) || r !in before
    ensures forall r :: r in {cursor} + KeyRefs(At(s, path).value.fields, key) ==> r in Refs(s0) || r !in before
  {
    RefsAt(s, path);
    if FindShape(At(s, path).value.fields, key).Some? {
      FoundShape(map[], At(s, path).value.fields, key);
    }
  }

  lemma {:induction false} RefsAt<P>(s: Shape<P>, path: seq<string>)
    requires At(s, path).Some?
    ensures Refs(At(s, path).value) <= Refs(s)
    decreases |path|
  {
    if path != [] {
      RefsAt(FindShape(s.fields, path[0]).value, path[1..]);
      FoundShape(map[], s.fields, path[0]);
    }
  }
}
