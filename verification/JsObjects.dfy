/** Ordered JavaScript objects, first as values, then as cells of a heap.

    Keys keep the position of their first assignment, as they do for non-integer keys.
    `P` is the type of the values that are not plain objects. */
module JsObjects {
  import opened Wrappers

  // ---------------------------------------------------------------- as values

  datatype Tree<P> = Leaf(value: P) | Node(entries: seq<Entry<P>>)
  datatype Entry<P> = Entry(key: string, value: Tree<P>)

  predicate HasKey<P>(es: seq<Entry<P>>, key: string) {
    exists i :: 0 <= i < |es| && es[i].key == key
  }

  /** `object[key] = value` */
  function SetKey<P>(es: seq<Entry<P>>, key: string, value: Tree<P>): seq<Entry<P>> {
    if es == [] then [Entry(key, value)]
    else if es[0].key == key then [Entry(key, value)] + es[1..]
    else [es[0]] + SetKey(es[1..], key, value)
  }

  /** `object[key]`, or an empty node standing for every value that is not an object. */
  function Child<P>(es: seq<Entry<P>>, key: string): seq<Entry<P>> {
    if es == [] then []
    else if es[0].key == key then (if es[0].value.Node? then es[0].value.entries else [])
    else Child(es[1..], key)
  }

  /** The properties of `Object.prototype`, which a plain object has without owning them. */
  const INHERITED: set<string> :=
    {"__proto__", "constructor", "toString", "toLocaleString", "valueOf", "hasOwnProperty", "isPrototypeOf",
     "propertyIsEnumerable", "__defineGetter__", "__defineSetter__", "__lookupGetter__", "__lookupSetter__"}

  /** The next key of the path is not the object's own.  On the way, reading it yields a
      built-in function or object; at the end, assigning `__proto__` runs its setter. */
  predicate StepsOut<P>(es: seq<Entry<P>>, path: seq<string>)
    requires path != []
  {
    !HasKey(es, path[0]) && if |path| == 1 then path[0] == "__proto__" else path[0] in INHERITED
  }

  /** Writes a value at a path; a missing or other value on the way becomes an object.
      Where the path steps out, the tree gets nothing more. */
  function PutAt<P>(es: seq<Entry<P>>, path: seq<string>, value: Tree<P>): seq<Entry<P>>
    requires path != []
    decreases |path|
  {
    if StepsOut(es, path) then es
    else if |path| == 1 then SetKey(es, path[0], value)
    else SetKey(es, path[0], Node(PutAt(Child(es, path[0]), path[1..], value)))
  }

  /** What becomes of a write: it arrives in the tree, the `__proto__` setter ignores it, or
      the walk has escaped into an object of the runtime. */
  datatype Fate = Arrived | Ignored | Escaped

  function FateOf<P>(es: seq<Entry<P>>, path: seq<string>): Fate
    requires path != []
    decreases |path|
  {
    if StepsOut(es, path) then (if |path| == 1 then Ignored else Escaped)
    else if |path| == 1 then Arrived
    else FateOf(Child(es, path[0]), path[1..])
  }

  // ---------------------------------------------------------------- as heap cells

  type Ref = nat
  datatype Slot<P> = Prim(value: P) | Object(ref: Ref)
  datatype Field<P> = Field(key: string, slot: Slot<P>)
  type Cells<P> = map<Ref, seq<Field<P>>>

  function GetField<P>(fs: seq<Field<P>>, key: string): Option<Slot<P>> {
    if fs == [] then None
    else if fs[0].key == key then Some(fs[0].slot)
    else GetField(fs[1..], key)
  }

  function PutField<P>(fs: seq<Field<P>>, key: string, slot: Slot<P>): seq<Field<P>> {
    if fs == [] then [Field(key, slot)]
    else if fs[0].key == key then [Field(key, slot)] + fs[1..]
    else [fs[0]] + PutField(fs[1..], key, slot)
  }

  // ---------------------------------------------------------------- shapes

  /** A tree together with the cell of each of its nodes. */
  datatype Shape<P> = ShapeLeaf(value: P) | ShapeNode(ref: Ref, fields: seq<ShapeField<P>>)
  datatype ShapeField<P> = ShapeField(key: string, shape: Shape<P>)

  ghost function SlotOf<P>(s: Shape<P>): Slot<P> {
    match s
    case ShapeLeaf(p) => Prim(p)
    case ShapeNode(ref, _) => Object(ref)
  }

  ghost function Slots<P>(fs: seq<ShapeField<P>>): seq<Field<P>> {
    if fs == [] then [] else [Field(fs[0].key, SlotOf(fs[0].shape))] + Slots(fs[1..])
  }

  ghost function Erase<P>(s: Shape<P>): Tree<P>
    decreases s, 1
  {
    match s
    case ShapeLeaf(p) => Leaf(p)
    case ShapeNode(_, fields) => Node(EraseFields(fields))
  }

  ghost function EraseFields<P>(fs: seq<ShapeField<P>>): seq<Entry<P>>
    decreases fs
  {
    if fs == [] then [] else [Entry(fs[0].key, Erase(fs[0].shape))] + EraseFields(fs[1..])
  }

  ghost function Refs<P>(s: Shape<P>): set<Ref>
    decreases s, 1
  {
    match s
    case ShapeLeaf(_) => {}
    case ShapeNode(ref, fields) => {ref} + RefsOf(fields)
  }

  ghost function RefsOf<P>(fs: seq<ShapeField<P>>): set<Ref>
    decreases fs
  {
    if fs == [] then {} else Refs(fs[0].shape) + RefsOf(fs[1..])
  }

  /** No cell occurs twice in the tree. */
  ghost predicate Separate<P>(s: Shape<P>)
    decreases s, 1
  {
    match s
    case ShapeLeaf(_) => true
    case ShapeNode(ref, fields) => ref !in RefsOf(fields) && SeparateFields(fields)
  }

  ghost predicate SeparateFields<P>(fs: seq<ShapeField<P>>)
    decreases fs
  {
    fs == [] || (Separate(fs[0].shape) && Refs(fs[0].shape) !! RefsOf(fs[1..]) && SeparateFields(fs[1..]))
  }

  /** The heap holds the tree. */
  ghost predicate Live<P>(cells: Cells<P>, s: Shape<P>)
    decreases s, 1
  {
    match s
    case ShapeLeaf(_) => true
    case ShapeNode(ref, fields) => ref in cells && cells[ref] == Slots(fields) && LiveFields(cells, fields)
  }

  ghost predicate LiveFields<P>(cells: Cells<P>, fs: seq<ShapeField<P>>)
    decreases fs
  {
    fs == [] || (Live(cells, fs[0].shape) && LiveFields(cells, fs[1..]))
  }

  // ---------------------------------------------------------------- framing

  /** Cells outside `changed` are as before. */
  ghost predicate Frame<P>(before: Cells<P>, after: Cells<P>, changed: set<Ref>) {
    forall r :: r in before && r !in changed ==> r in after && after[r] == before[r]
  }

  lemma {:induction false} LiveFrame<P>(before: Cells<P>, after: Cells<P>, changed: set<Ref>, s: Shape<P>)
    requires Live(before, s) && Frame(before, after, changed) && Refs(s) !! changed
    ensures Live(after, s)
    decreases s, 1
  {
    if s.ShapeNode? {
      LiveFieldsFrame(before, after, changed, s.fields);
    }
  }

  lemma {:induction false} LiveFieldsFrame<P>(before: Cells<P>, after: Cells<P>, changed: set<Ref>, fs: seq<ShapeField<P>>)
    requires LiveFields(before, fs) && Frame(before, after, changed) && RefsOf(fs) !! changed
    ensures LiveFields(after, fs)
    decreases fs
  {
    if fs != [] {
      LiveFrame(before, after, changed, fs[0].shape);
      LiveFieldsFrame(before, after, changed, fs[1..]);
    }
  }

  lemma {:induction false} LiveRefs<P>(cells: Cells<P>, s: Shape<P>)
    requires Live(cells, s)
    ensures Refs(s) <= cells.Keys
    decreases s, 1
  {
    if s.ShapeNode? {
      LiveFieldsRefs(cells, s.fields);
    }
  }

  lemma {:induction false} LiveFieldsRefs<P>(cells: Cells<P>, fs: seq<ShapeField<P>>)
    requires LiveFields(cells, fs)
    ensures RefsOf(fs) <= cells.Keys
    decreases fs
  {
    if fs != [] {
      LiveRefs(cells, fs[0].shape);
      LiveFieldsRefs(cells, fs[1..]);
    }
  }

  // ---------------------------------------------------------------- one field of a shape

  ghost function FindShape<P>(fs: seq<ShapeField<P>>, key: string): Option<Shape<P>> {
    if fs == [] then None
    else if fs[0].key == key then Some(fs[0].shape)
    else FindShape(fs[1..], key)
  }

  /** The cells of a field's value. */
  ghost function KeyRefs<P>(fs: seq<ShapeField<P>>, key: string): set<Ref> {
    match FindShape(fs, key) case None => {} case Some(t) => Refs(t)
  }

  ghost function PutShape<P>(fs: seq<ShapeField<P>>, key: string, s: Shape<P>): seq<ShapeField<P>> {
    if fs == [] then [ShapeField(key, s)]
    else if fs[0].key == key then [ShapeField(key, s)] + fs[1..]
    else [fs[0]] + PutShape(fs[1..], key, s)
  }

  /** Reading a key of the cell reads the shape's field. */
  lemma {:induction false} FindSlot<P>(fs: seq<ShapeField<P>>, key: string)
    ensures GetField(Slots(fs), key) ==
            match FindShape(fs, key) case None => None case Some(s) => Some(SlotOf(s))
  {
    if fs != [] {
      FindSlot(fs[1..], key);
      assert Slots(fs)[1..] == Slots(fs[1..]);
    }
  }

  /** Writing a key of the cell writes the shape's field and the tree's entry. */
  lemma {:induction false} PutSlot<P>(fs: seq<ShapeField<P>>, key: string, s: Shape<P>)
    ensures PutField(Slots(fs), key, SlotOf(s)) == Slots(PutShape(fs, key, s))
    ensures EraseFields(PutShape(fs, key, s)) == SetKey(EraseFields(fs), key, Erase(s))
  {
    if fs != [] {
      PutSlot(fs[1..], key, s);
      assert Slots(fs)[1..] == Slots(fs[1..]);
      assert EraseFields(fs)[1..] == EraseFields(fs[1..]);
      assert ([ShapeField(key, s)] + fs[1..])[1..] == fs[1..];
      assert ([fs[0]] + PutShape(fs[1..], key, s))[1..] == PutShape(fs[1..], key, s);
    } else {
      assert [ShapeField(key, s)][1..] == [];
    }
  }

  lemma {:induction false} FoundShape<P>(cells: Cells<P>, fs: seq<ShapeField<P>>, key: string)
    requires FindShape(fs, key).Some?
    ensures Refs(FindShape(fs, key).value) <= RefsOf(fs)
    ensures SeparateFields(fs) ==> Separate(FindShape(fs, key).value)
    ensures LiveFields(cells, fs) ==> Live(cells, FindShape(fs, key).value)
  {
    if fs[0].key != key {
      FoundShape(cells, fs[1..], key);
    }
  }

  /** The cells that stay in use when a field is overwritten. */
  lemma {:induction false} PutShapeOk<P>(before: Cells<P>, after: Cells<P>, changed: set<Ref>,
                                         fs: seq<ShapeField<P>>, key: string, s: Shape<P>, own: set<Ref>)
    requires LiveFields(before, fs) && SeparateFields(fs) && Frame(before, after, changed)
    requires own == KeyRefs(fs, key)
    requires forall r :: r in RefsOf(fs) && r in changed ==> r in own
    requires Live(after, s) && Separate(s)
    requires forall r :: r in Refs(s) ==> r in own || r !in RefsOf(fs)
    ensures LiveFields(after, PutShape(fs, key, s)) && SeparateFields(PutShape(fs, key, s))
    ensures RefsOf(PutShape(fs, key, s)) <= RefsOf(fs) + Refs(s)
  {
    if fs == [] {
      assert [ShapeField(key, s)][1..] == [];
    } else if fs[0].key == key {
      assert ([ShapeField(key, s)] + fs[1..])[1..] == fs[1..];
      LiveFieldsFrame(before, after, changed, fs[1..]);
    } else {
      var rest := PutShape(fs[1..], key, s);
      assert ([fs[0]] + rest)[1..] == rest;
      assert own <= RefsOf(fs[1..]) by {
        if FindShape(fs[1..], key).Some? {
          FoundShape(before, fs[1..], key);
        }
      }
      PutShapeOk(before, after, changed, fs[1..], key, s, own);
      LiveFrame(before, after, changed, fs[0].shape);
    }
  }

  // ---------------------------------------------------------------- a node deep inside a shape

  ghost function At<P>(s: Shape<P>, path: seq<string>): Option<Shape<P>>
    decreases |path|
  {
    if path == [] then Some(s)
    else if s.ShapeLeaf? then None
    else match FindShape(s.fields, path[0])
         case None => None
         case Some(t) => At(t, path[1..])
  }

  ghost function ReplaceAt<P>(s: Shape<P>, path: seq<string>, c: Shape<P>): Shape<P>
    requires At(s, path).Some?
    decreases |path|
  {
    if path == [] then c
    else ShapeNode(s.ref, PutShape(s.fields, path[0], ReplaceAt(FindShape(s.fields, path[0]).value, path[1..], c)))
  }

  lemma {:induction false} AtStep<P>(s: Shape<P>, path: seq<string>, key: string)
    requires At(s, path).Some? && At(s, path).value.ShapeNode?
    ensures At(s, path + [key]) == FindShape(At(s, path).value.fields, key)
    decreases |path|
  {
    if path == [] {
      assert [key][1..] == [];
    } else {
      assert (path + [key])[1..] == path[1..] + [key];
      AtStep(FindShape(s.fields, path[0]).value, path[1..], key);
    }
  }

  lemma {:induction false} AtOk<P>(cells: Cells<P>, s: Shape<P>, path: seq<string>)
    requires Live(cells, s) && Separate(s) && At(s, path).Some?
    ensures Live(cells, At(s, path).value) && Separate(At(s, path).value)
    ensures Refs(At(s, path).value) <= Refs(s)
    decreases |path|
  {
    if path != [] {
      FoundShape(cells, s.fields, path[0]);
      AtOk(cells, FindShape(s.fields, path[0]).value, path[1..]);
    }
  }

  lemma {:induction false} PutSame<P>(fs: seq<Field<P>>, key: string, slot: Slot<P>)
    requires GetField(fs, key) == Some(slot)
    ensures PutField(fs, key, slot) == fs
  {
    if fs[0].key != key {
      PutSame(fs[1..], key, slot);
    }
  }

  lemma {:induction false} FindPut<P>(fs: seq<ShapeField<P>>, key: string, s: Shape<P>)
    ensures FindShape(PutShape(fs, key, s), key) == Some(s)
  {
    if fs != [] && fs[0].key != key {
      FindPut(fs[1..], key, s);
      assert ([fs[0]] + PutShape(fs[1..], key, s))[1..] == PutShape(fs[1..], key, s);
    }
  }

  lemma {:induction false} AtReplaced<P>(s: Shape<P>, path: seq<string>, c: Shape<P>)
    requires At(s, path).Some?
    ensures At(ReplaceAt(s, path, c), path) == Some(c)
    decreases |path|
  {
    if path != [] {
      var t := ReplaceAt(FindShape(s.fields, path[0]).value, path[1..], c);
      FindPut(s.fields, path[0], t);
      AtReplaced(FindShape(s.fields, path[0]).value, path[1..], c);
    }
  }

  /** Rewriting cells below one node, with cells from outside the tree at most added there,
      keeps the whole tree live. */
  lemma {:induction false} ReplaceAtOk<P>(before: Cells<P>, after: Cells<P>, changed: set<Ref>, s: Shape<P>, path: seq<string>, c: Shape<P>)
    requires Live(before, s) && Separate(s)
    requires At(s, path).Some? && At(s, path).value.ShapeNode? && c.ShapeNode?
    requires c.ref == At(s, path).value.ref
    requires Frame(before, after, changed) && changed <= Refs(At(s, path).value)
    requires Live(after, c) && Separate(c)
    requires forall r :: r in Refs(c) ==> r in Refs(At(s, path).value) || r !in Refs(s)
    ensures Live(after, ReplaceAt(s, path, c)) && Separate(ReplaceAt(s, path, c))
    ensures Refs(ReplaceAt(s, path, c)) <= Refs(s) + Refs(c)
    ensures SlotOf(ReplaceAt(s, path, c)) == SlotOf(s)
    decreases |path|
  {
    if path != [] {
      var t, key := FindShape(s.fields, path[0]).value, path[0];
      FoundShape(before, s.fields, key);
      AtOk(before, t, path[1..]);
      ReplaceAtOk(before, after, changed, t, path[1..], c);
      var t' := ReplaceAt(t, path[1..], c);
      PutShapeOk(before, after, changed, s.fields, key, t', Refs(t));
      FindSlot(s.fields, key);
      PutSlot(s.fields, key, t');
      PutSame(Slots(s.fields), key, SlotOf(t));
    }
  }

  // ---------------------------------------------------------------- the heap

  /** The JavaScript heap: every object is a cell of ordered fields. */
  class JsHeap<P> {
    var cells: Cells<P>
    var next: Ref

    ghost predicate Valid()
      reads this
    {
      forall r :: r in cells ==> r < next
    }

    constructor ()
      ensures Valid() && cells == map[]
    {
      cells, next := map[], 0;
    }

    /** `{}` */
    method Alloc() returns (ref: Ref)
      requires Valid()
      modifies this
      ensures Valid() && ref !in old(cells) && cells == old(cells)[ref := []]
    {
      ref := next;
      cells := cells[ref := []];
      next := next + 1;
    }
  }
}
