/** `flattenTranslations` and `setNestedValue` (scripts/control-ui-i18n.ts).

    A translation map is an ordered list of keyed entries; `MapSet` keeps the position
    of an existing key, as `SetKey` does. */
module TranslationTree {
  import opened Wrappers
  import opened JsText
  import opened JsObjects

  type Entries = seq<Entry<string>>

  datatype Flat = Flat(key: string, text: string)

  // ---------------------------------------------------------------- ordered maps

  /** `map.set(key, text)` */
  function MapSet(m: seq<Flat>, key: string, text: string): seq<Flat> {
    if m == [] then [Flat(key, text)]
    else if m[0].key == key then [Flat(key, text)] + m[1..]
    else [m[0]] + MapSet(m[1..], key, text)
  }

  // ---------------------------------------------------------------- the two operations as functions

  function FullKey(prefix: string, key: string): string {
    if prefix != "" then prefix + "." + key else key
  }

  function FlattenInto(es: Entries, prefix: string, out: seq<Flat>): seq<Flat> {
    if es == [] then out
    else
      var e, fullKey := es[0], FullKey(prefix, es[0].key);
      var next := match e.value
                  case Leaf(text) => MapSet(out, fullKey, text)
                  case Node(entries) => FlattenInto(entries, fullKey, out);
      FlattenInto(es[1..], prefix, next)
  }

  /** The cursor walk over the parts of a dotted key.  A part that is inherited and not the
      object's own leads into a built-in object, so nothing is written in the tree. */
  function SetPath(es: Entries, parts: seq<string>, text: string): Entries
    requires parts != []
  {
    PutAt(es, parts, Leaf(text))
  }

  function SetNested(es: Entries, dottedKey: string, text: string): Entries {
    SetPath(es, Split(dottedKey, '.'), text)
  }

  /** The loop of writes; `None` when one throws.  A write can throw when its walk has escaped
      into an object of the runtime: `throws` says for which keys it does, such as
      `constructor.name`, a read-only property of a function. */
  function Rebuild(throws: string -> bool, es: Entries, flat: seq<Flat>): Option<Entries>
    decreases |flat|
  {
    if flat == [] then Some(es)
    else if FateOf(es, Split(flat[0].key, '.')).Escaped? && throws(flat[0].key) then None
    else Rebuild(throws, SetNested(es, flat[0].key, flat[0].text), flat[1..])
  }

  /** Every text of the list arrives in the tree. */
  predicate WritesArrive(es: Entries, flat: seq<Flat>)
    decreases |flat|
  {
    flat == [] ||
    (FateOf(es, Split(flat[0].key, '.')).Arrived? && WritesArrive(SetNested(es, flat[0].key, flat[0].text), flat[1..]))
  }

  function Flatten(es: Entries): seq<Flat> {
    FlattenInto(es, "", [])
  }

  // ---------------------------------------------------------------- what they mean

  /** Keys at every level are distinct, non-empty and free of dots. */
  ghost predicate PlainKeys(es: Entries) {
    && (forall i :: 0 <= i < |es| ==> es[i].key != "" && '.' !in es[i].key)
    && (forall i, j :: 0 <= i < j < |es| ==> es[i].key != es[j].key)
    && (forall i :: 0 <= i < |es| && es[i].value.Node? ==> PlainKeys(es[i].value.entries))
  }

  datatype LeafAt = LeafAt(path: seq<string>, text: string)

  function Under(key: string, ls: seq<LeafAt>): seq<LeafAt> {
    if ls == [] then [] else [LeafAt([key] + ls[0].path, ls[0].text)] + Under(key, ls[1..])
  }

  function EntryLeaves(e: Entry<string>): seq<LeafAt>
    decreases e
  {
    match e.value
    case Leaf(text) => [LeafAt([e.key], text)]
    case Node(entries) => Under(e.key, Leaves(entries))
  }

  /** All texts with their paths, in document order. */
  function Leaves(es: Entries): seq<LeafAt>
    decreases es
  {
    if es == [] then [] else EntryLeaves(es[0]) + Leaves(es[1..])
  }

  function PruneEntry(e: Entry<string>): Entries
    decreases e
  {
    match e.value
    case Leaf(_) => [e]
    case Node(entries) => if Prune(entries) == [] then [] else [Entry(e.key, Node(Prune(entries)))]
  }

  /** The tree without its empty subtrees. */
  function Prune(es: Entries): Entries
    decreases es
  {
    if es == [] then [] else PruneEntry(es[0]) + Prune(es[1..])
  }

  /** Walks along this path read an inherited property. */
  predicate LeadsOut(path: seq<string>) {
    exists i :: 0 <= i < |path| - 1 && path[i] in INHERITED
  }

  /** Walks along this path read no inherited property and do not end in the `__proto__` setter. */
  predicate Inside(path: seq<string>) {
    path != [] && path[|path| - 1] != "__proto__" && !LeadsOut(path)
  }

  function PathFate(path: seq<string>): Fate {
    if Inside(path) then Arrived else if LeadsOut(path) then Escaped else Ignored
  }

  predicate KeyLeadsOut(key: string) {
    LeadsOut(Split(key, '.'))
  }

  /** Some write of the list escapes the tree and throws. */
  predicate SomeWriteThrows(throws: string -> bool, flat: seq<Flat>) {
    exists i :: 0 <= i < |flat| && KeyLeadsOut(flat[i].key) && throws(flat[i].key)
  }

  ghost predicate AllInside(ls: seq<LeafAt>) {
    forall i :: 0 <= i < |ls| ==> Inside(ls[i].path)
  }

  /** No key above a text is one that objects inherit, and no text has the key `__proto__`. */
  ghost predicate StaysInside(es: Entries) {
    AllInside(Leaves(es))
  }

  function KeptEntry(e: Entry<string>): Entries
    decreases e
  {
    match e.value
    case Leaf(_) => if e.key == "__proto__" then [] else [e]
    case Node(entries) =>
      if Leaves(entries) == [] || e.key in INHERITED then [] else [Entry(e.key, Node(Kept(entries)))]
  }

  /** What the walks leave in the tree: where one leaves it, the objects made on the way. */
  function Kept(es: Entries): Entries
    decreases es
  {
    if es == [] then [] else KeptEntry(es[0]) + Kept(es[1..])
  }

  // ---------------------------------------------------------------- flattening lists the leaves

  function DottedKeys(prefix: seq<string>, ls: seq<LeafAt>): seq<Flat> {
    if ls == [] then []
    else [Flat(Join(prefix + ls[0].path, "."), ls[0].text)] + DottedKeys(prefix, ls[1..])
  }

  function MapSetAll(m: seq<Flat>, fs: seq<Flat>): seq<Flat>
    decreases |fs|
  {
    if fs == [] then m else MapSetAll(MapSet(m, fs[0].key, fs[0].text), fs[1..])
  }

  lemma {:induction false} MapSetAllConcat(m: seq<Flat>, a: seq<Flat>, b: seq<Flat>)
    ensures MapSetAll(m, a + b) == MapSetAll(MapSetAll(m, a), b)
    decreases |a|
  {
    if a == [] {
      assert a + b == b;
    } else {
      MapSetAllConcat(MapSet(m, a[0].key, a[0].text), a[1..], b);
      assert (a + b)[1..] == a[1..] + b;
    }
  }

  lemma {:induction false} DottedConcat(prefix: seq<string>, a: seq<LeafAt>, b: seq<LeafAt>)
    ensures DottedKeys(prefix, a + b) == DottedKeys(prefix, a) + DottedKeys(prefix, b)
  {
    if a == [] {
      assert a + b == b && DottedKeys(prefix, a) + DottedKeys(prefix, b) == DottedKeys(prefix, b);
    } else {
      DottedConcat(prefix, a[1..], b);
      assert (a + b)[0] == a[0] && (a + b)[1..] == a[1..] + b;
      var first := [Flat(Join(prefix + a[0].path, "."), a[0].text)];
      assert first + (DottedKeys(prefix, a[1..]) + DottedKeys(prefix, b)) == first + DottedKeys(prefix, a[1..]) + DottedKeys(prefix, b);
    }
  }

  lemma {:induction false} DottedUnder(prefix: seq<string>, key: string, ls: seq<LeafAt>)
    ensures DottedKeys(prefix, Under(key, ls)) == DottedKeys(prefix + [key], ls)
  {
    if ls != [] {
      DottedUnder(prefix, key, ls[1..]);
      assert prefix + ([key] + ls[0].path) == prefix + [key] + ls[0].path;
    }
  }

  lemma {:induction false} FullKeyIsJoin(path: seq<string>, key: string)
    requires forall i :: 0 <= i < |path| ==> path[i] != ""
    ensures FullKey(Join(path, "."), key) == Join(path + [key], ".")
    ensures path != [] ==> Join(path, ".") != ""
  {
    if path == [] {
      assert path + [key] == [key];
    } else if |path| == 1 {
      assert (path + [key])[1..] == [key];
    } else {
      FullKeyIsJoin(path[1..], key);
      assert (path + [key])[1..] == path[1..] + [key];
    }
  }

  lemma OneText(path: seq<string>, key: string, text: string, out: seq<Flat>)
    ensures MapSetAll(out, DottedKeys(path, [LeafAt([key], text)])) == MapSet(out, Join(path + [key], "."), text)
  {
    var ls := [LeafAt([key], text)];
    assert ls[1..] == [] && DottedKeys(path, ls) == [Flat(Join(path + [key], "."), text)];
  }

  lemma {:induction false} FlattenLists(es: Entries, path: seq<string>, out: seq<Flat>)
    requires PlainKeys(es) && forall i :: 0 <= i < |path| ==> path[i] != ""
    ensures FlattenInto(es, Join(path, "."), out) == MapSetAll(out, DottedKeys(path, Leaves(es)))
    decreases es
  {
    if es != [] {
      var e := es[0];
      FullKeyIsJoin(path, e.key);
      PlainTail(es);
      var first, rest := DottedKeys(path, EntryLeaves(e)), DottedKeys(path, Leaves(es[1..]));
      match e.value {
        case Leaf(text) =>
          OneText(path, e.key, text, out);
        case Node(sub) =>
          DottedUnder(path, e.key, Leaves(sub));
          FlattenLists(sub, path + [e.key], out);
      }
      FlattenLists(es[1..], path, MapSetAll(out, first));
      DottedConcat(path, EntryLeaves(e), Leaves(es[1..]));
      MapSetAllConcat(out, first, rest);
    }
  }

  lemma PlainTail(es: Entries)
    requires PlainKeys(es) && es != []
    ensures PlainKeys(es[1..])
  {
  }

  // ---------------------------------------------------------------- the listed keys are distinct

  ghost predicate GoodPath(p: seq<string>) {
    p != [] && forall part :: part in p ==> part != "" && '.' !in part
  }

  ghost predicate DistinctPaths(ls: seq<LeafAt>) {
    && (forall i :: 0 <= i < |ls| ==> GoodPath(ls[i].path))
    && (forall i, j :: 0 <= i < j < |ls| ==> ls[i].path != ls[j].path)
  }

  lemma {:induction false} UnderAt(key: string, ls: seq<LeafAt>)
    ensures |Under(key, ls)| == |ls|
    ensures forall i :: 0 <= i < |ls| ==> Under(key, ls)[i] == LeafAt([key] + ls[i].path, ls[i].text)
  {
    if ls != [] {
      UnderAt(key, ls[1..]);
    }
  }

  /** Every leaf's path starts with a key of its level. */
  lemma {:induction false} LeavesStart(es: Entries)
    ensures forall i :: 0 <= i < |Leaves(es)| ==>
              Leaves(es)[i].path != [] && exists j :: 0 <= j < |es| && Leaves(es)[i].path[0] == es[j].key
    decreases es
  {
    if es != [] {
      LeavesStart(es[1..]);
      if es[0].value.Node? {
        UnderAt(es[0].key, Leaves(es[0].value.entries));
      }
      var n := |Leaves(es)| - |Leaves(es[1..])|;
      forall i | 0 <= i < |Leaves(es)|
        ensures Leaves(es)[i].path != [] && exists j :: 0 <= j < |es| && Leaves(es)[i].path[0] == es[j].key
      {
        if i < n {
          assert Leaves(es)[i].path[0] == es[0].key;
        } else {
          assert Leaves(es)[i] == Leaves(es[1..])[i - n];
          var j :| 0 <= j < |es[1..]| && Leaves(es[1..])[i - n].path[0] == es[1..][j].key;
          assert es[j + 1].key == es[1..][j].key;
        }
      }
    }
  }

  lemma UnderDistinct(key: string, ls: seq<LeafAt>)
    requires DistinctPaths(ls) && key != "" && '.' !in key
    ensures DistinctPaths(Under(key, ls))
  {
    UnderAt(key, ls);
    forall i, j | 0 <= i < j < |ls| ensures Under(key, ls)[i].path != Under(key, ls)[j].path {
      assert Under(key, ls)[i].path[1..] == ls[i].path && Under(key, ls)[j].path[1..] == ls[j].path;
    }
  }

  lemma {:induction false} LeavesDistinct(es: Entries)
    requires PlainKeys(es)
    ensures DistinctPaths(Leaves(es))
    decreases es
  {
    if es != [] {
      var e := es[0];
      PlainTail(es);
      LeavesDistinct(es[1..]);
      LeavesStart(es[1..]);
      var first := EntryLeaves(e);
      if e.value.Node? {
        LeavesDistinct(e.value.entries);
        UnderDistinct(e.key, Leaves(e.value.entries));
        UnderAt(e.key, Leaves(e.value.entries));
      }
      assert DistinctPaths(first) && forall i :: 0 <= i < |first| ==> first[i].path[0] == e.key;
      LeavesApart(first, Leaves(es[1..]), es);
    }
  }

  lemma LeavesApart(first: seq<LeafAt>, rest: seq<LeafAt>, es: Entries)
    requires PlainKeys(es) && es != [] && DistinctPaths(first) && DistinctPaths(rest)
    requires forall i :: 0 <= i < |first| ==> first[i].path[0] == es[0].key
    requires forall i :: 0 <= i < |rest| ==> exists j :: 0 <= j < |es[1..]| && rest[i].path[0] == es[1..][j].key
    ensures DistinctPaths(first + rest)
  {
    forall i, j | 0 <= i < |first| && 0 <= j < |rest| ensures first[i].path != rest[j].path {
      var k :| 0 <= k < |es[1..]| && rest[j].path[0] == es[1..][k].key;
      assert es[1..][k] == es[k + 1];
    }
  }

  lemma {:induction false} DottedAt(ls: seq<LeafAt>)
    ensures |DottedKeys([], ls)| == |ls|
    ensures forall i :: 0 <= i < |ls| ==> DottedKeys([], ls)[i] == Flat(Join(ls[i].path, "."), ls[i].text)
  {
    if ls != [] {
      DottedAt(ls[1..]);
      assert [] + ls[0].path == ls[0].path;
    }
  }

  ghost predicate DistinctKeys(fs: seq<Flat>) {
    forall i, j :: 0 <= i < j < |fs| ==> fs[i].key != fs[j].key
  }

  lemma DottedDistinct(ls: seq<LeafAt>)
    requires DistinctPaths(ls)
    ensures DistinctKeys(DottedKeys([], ls))
  {
    DottedAt(ls);
    forall i, j | 0 <= i < j < |ls| ensures Join(ls[i].path, ".") != Join(ls[j].path, ".") {
      SplitJoin(ls[i].path, '.');
      SplitJoin(ls[j].path, '.');
    }
  }

  lemma {:induction false} MapSetNew(m: seq<Flat>, key: string, text: string)
    requires forall i :: 0 <= i < |m| ==> m[i].key != key
    ensures MapSet(m, key, text) == m + [Flat(key, text)]
  {
    if m != [] {
      MapSetNew(m[1..], key, text);
    }
  }

  lemma {:induction false} MapSetAllNew(m: seq<Flat>, fs: seq<Flat>)
    requires DistinctKeys(m + fs)
    ensures MapSetAll(m, fs) == m + fs
    decreases |fs|
  {
    if fs == [] {
      assert m + fs == m;
    } else {
      assert forall i :: 0 <= i < |m| ==> (m + fs)[i] == m[i];
      assert (m + fs)[|m|] == fs[0];
      MapSetNew(m, fs[0].key, fs[0].text);
      assert m + [fs[0]] + fs[1..] == m + fs;
      MapSetAllNew(m + [fs[0]], fs[1..]);
    }
  }

  /** Flattening lists the texts in document order under distinct dotted keys. */
  lemma FlattenListsLeaves(es: Entries)
    requires PlainKeys(es)
    ensures Flatten(es) == DottedKeys([], Leaves(es))
    ensures DistinctKeys(Flatten(es))
  {
    FlattenLists(es, [], []);
    LeavesDistinct(es);
    DottedDistinct(Leaves(es));
    assert [] + DottedKeys([], Leaves(es)) == DottedKeys([], Leaves(es));
    MapSetAllNew([], DottedKeys([], Leaves(es)));
  }

  // ---------------------------------------------------------------- rebuilding

  function BuildPaths(es: Entries, ls: seq<LeafAt>): Entries
    requires forall i :: 0 <= i < |ls| ==> ls[i].path != []
    decreases |ls|
  {
    if ls == [] then es else BuildPaths(SetPath(es, ls[0].path, ls[0].text), ls[1..])
  }

  /** What becomes of each write can be told from its path alone. */
  ghost predicate FatesKnown(es: Entries, ls: seq<LeafAt>)
    requires forall i :: 0 <= i < |ls| ==> ls[i].path != []
    decreases |ls|
  {
    ls == [] ||
    (FateOf(es, ls[0].path) == PathFate(ls[0].path) && FatesKnown(SetPath(es, ls[0].path, ls[0].text), ls[1..]))
  }

  lemma AllInsideCons(ls: seq<LeafAt>)
    requires ls != []
    ensures AllInside(ls) <==> Inside(ls[0].path) && AllInside(ls[1..])
  {
    AllInsideConcat([ls[0]], ls[1..]);
    assert [ls[0]] + ls[1..] == ls && [ls[0]][0] == ls[0];
  }

  lemma {:induction false} WritesArriveInside(es: Entries, ls: seq<LeafAt>)
    requires forall i :: 0 <= i < |ls| ==> ls[i].path != [] && GoodPath(ls[i].path)
    requires FatesKnown(es, ls)
    ensures WritesArrive(es, DottedKeys([], ls)) <==> AllInside(ls)
    decreases |ls|
  {
    if ls != [] {
      assert [] + ls[0].path == ls[0].path;
      SplitJoin(ls[0].path, '.');
      WritesArriveInside(SetPath(es, ls[0].path, ls[0].text), ls[1..]);
      AllInsideCons(ls);
    }
  }

  lemma ThrowsConcat(throws: string -> bool, a: seq<Flat>, b: seq<Flat>)
    ensures SomeWriteThrows(throws, a + b) <==> SomeWriteThrows(throws, a) || SomeWriteThrows(throws, b)
  {
    forall i | 0 <= i < |a| ensures (a + b)[i] == a[i] {
    }
    forall i | 0 <= i < |b| ensures (a + b)[|a| + i] == b[i] {
    }
  }

  /** The loop throws exactly when some write escapes and throws; else it writes every text. */
  lemma {:induction false} RebuildIsBuild(throws: string -> bool, es: Entries, ls: seq<LeafAt>)
    requires forall i :: 0 <= i < |ls| ==> ls[i].path != [] && GoodPath(ls[i].path)
    requires FatesKnown(es, ls)
    ensures Rebuild(throws, es, DottedKeys([], ls)) ==
            if SomeWriteThrows(throws, DottedKeys([], ls)) then None else Some(BuildPaths(es, ls))
    decreases |ls|
  {
    if ls != [] {
      var flat := DottedKeys([], ls);
      assert [] + ls[0].path == ls[0].path;
      SplitJoin(ls[0].path, '.');
      RebuildIsBuild(throws, SetPath(es, ls[0].path, ls[0].text), ls[1..]);
      assert flat == [flat[0]] + flat[1..];
      ThrowsConcat(throws, [flat[0]], flat[1..]);
      assert SomeWriteThrows(throws, [flat[0]]) <==> KeyLeadsOut([flat[0]][0].key) && throws(flat[0].key);
    }
  }

  lemma LeadsOutCons(key: string, path: seq<string>)
    requires path != []
    ensures LeadsOut([key] + path) <==> key in INHERITED || LeadsOut(path)
  {
    var whole := [key] + path;
    assert whole[0] == key;
    if LeadsOut(path) {
      var i :| 0 <= i < |path| - 1 && path[i] in INHERITED;
      assert whole[i + 1] in INHERITED;
    }
    if LeadsOut(whole) && key !in INHERITED {
      var i :| 0 <= i < |whole| - 1 && whole[i] in INHERITED;
      assert path[i - 1] in INHERITED;
    }
  }

  lemma PathFateCons(key: string, path: seq<string>)
    requires path != []
    ensures PathFate([key] + path) == if key in INHERITED then Escaped else PathFate(path)
    ensures Inside([key] + path) <==> key !in INHERITED && Inside(path)
  {
    LeadsOutCons(key, path);
    assert ([key] + path)[|path|] == path[|path| - 1];
  }

  lemma {:induction false} SetKeyAppends(es: Entries, key: string, value: Tree<string>)
    requires !HasKey(es, key)
    ensures SetKey(es, key, value) == es + [Entry(key, value)] && Child(es, key) == []
  {
    if es != [] {
      forall i | 0 <= i < |es[1..]| ensures es[1..][i].key != key {
        assert es[1..][i] == es[i + 1];
      }
      SetKeyAppends(es[1..], key, value);
      assert es[0].key != key && [es[0]] + (es[1..] + [Entry(key, value)]) == es + [Entry(key, value)];
    }
  }

  lemma {:induction false} SetKeyLast(es: Entries, key: string, was: Tree<string>, value: Tree<string>)
    requires !HasKey(es, key)
    ensures SetKey(es + [Entry(key, was)], key, value) == es + [Entry(key, value)]
    ensures Child(es + [Entry(key, was)], key) == if was.Node? then was.entries else []
  {
    if es != [] {
      forall i | 0 <= i < |es[1..]| ensures es[1..][i].key != key {
        assert es[1..][i] == es[i + 1];
      }
      SetKeyLast(es[1..], key, was, value);
      assert (es + [Entry(key, was)])[1..] == es[1..] + [Entry(key, was)];
      assert es[0].key != key;
    }
  }

  lemma HasLast(es: Entries, e: Entry<string>)
    ensures HasKey(es + [e], e.key)
  {
    assert (es + [e])[|es|] == e;
  }

  /** Consecutive leaves under one key all go into the entry that the first one creates. */
  lemma {:induction false} BuildUnder(es: Entries, key: string, sub: Entries, ls: seq<LeafAt>)
    requires !HasKey(es, key) && forall i :: 0 <= i < |ls| ==> ls[i].path != []
    ensures forall i :: 0 <= i < |Under(key, ls)| ==> Under(key, ls)[i].path != []
    ensures BuildPaths(es + [Entry(key, Node(sub))], Under(key, ls)) == es + [Entry(key, Node(BuildPaths(sub, ls)))]
    ensures key !in INHERITED ==> FatesKnown(es + [Entry(key, Node(sub))], Under(key, ls)) == FatesKnown(sub, ls)
    decreases |ls|
  {
    UnderAt(key, ls);
    if ls != [] {
      var path := [key] + ls[0].path;
      assert path[1..] == ls[0].path;
      var sub' := SetPath(sub, ls[0].path, ls[0].text);
      SetKeyLast(es, key, Node(sub), Node(sub'));
      HasLast(es, Entry(key, Node(sub)));
      PathFateCons(key, ls[0].path);
      BuildUnder(es, key, sub', ls[1..]);
    }
  }

  lemma BuildUnderNew(es: Entries, key: string, ls: seq<LeafAt>)
    requires !HasKey(es, key) && key !in INHERITED && ls != [] && forall i :: 0 <= i < |ls| ==> ls[i].path != []
    ensures forall i :: 0 <= i < |Under(key, ls)| ==> Under(key, ls)[i].path != []
    ensures BuildPaths(es, Under(key, ls)) == es + [Entry(key, Node(BuildPaths([], ls)))]
    ensures FatesKnown(es, Under(key, ls)) == FatesKnown([], ls)
  {
    UnderAt(key, ls);
    var path := [key] + ls[0].path;
    assert path[1..] == ls[0].path;
    var sub := SetPath([], ls[0].path, ls[0].text);
    SetKeyAppends(es, key, Node(sub));
    PathFateCons(key, ls[0].path);
    BuildUnder(es, key, sub, ls[1..]);
  }

  /** Walks that start with an inherited key leave nothing in the tree. */
  lemma {:induction false} BuildUnderInherited(es: Entries, key: string, ls: seq<LeafAt>)
    requires !HasKey(es, key) && key in INHERITED && forall i :: 0 <= i < |ls| ==> ls[i].path != []
    ensures forall i :: 0 <= i < |Under(key, ls)| ==> Under(key, ls)[i].path != []
    ensures BuildPaths(es, Under(key, ls)) == es
    ensures FatesKnown(es, Under(key, ls))
    decreases |ls|
  {
    UnderAt(key, ls);
    if ls != [] {
      PathFateCons(key, ls[0].path);
      BuildUnderInherited(es, key, ls[1..]);
    }
  }

  lemma {:induction false} BuildConcat(es: Entries, a: seq<LeafAt>, b: seq<LeafAt>)
    requires forall i :: 0 <= i < |a| ==> a[i].path != []
    requires forall i :: 0 <= i < |b| ==> b[i].path != []
    ensures BuildPaths(es, a + b) == BuildPaths(BuildPaths(es, a), b)
    ensures FatesKnown(es, a + b) <==> FatesKnown(es, a) && FatesKnown(BuildPaths(es, a), b)
    decreases |a|
  {
    if a == [] {
      assert a + b == b;
    } else {
      BuildConcat(SetPath(es, a[0].path, a[0].text), a[1..], b);
      assert (a + b)[1..] == a[1..] + b;
    }
  }

  lemma HasKeyConcat(a: Entries, b: Entries, key: string)
    ensures HasKey(a + b, key) <==> HasKey(a, key) || HasKey(b, key)
  {
    if HasKey(a, key) {
      var i :| 0 <= i < |a| && a[i].key == key;
      assert (a + b)[i].key == key;
    }
    if HasKey(b, key) {
      var i :| 0 <= i < |b| && b[i].key == key;
      assert (a + b)[|a| + i].key == key;
    }
  }

  lemma InsideUnder(key: string, ls: seq<LeafAt>)
    requires forall i :: 0 <= i < |ls| ==> ls[i].path != []
    ensures AllInside(Under(key, ls)) <==> ls == [] || (key !in INHERITED && AllInside(ls))
  {
    UnderAt(key, ls);
    forall i | 0 <= i < |ls| ensures Inside(Under(key, ls)[i].path) <==> key !in INHERITED && Inside(ls[i].path) {
      PathFateCons(key, ls[i].path);
    }
    assert ls != [] ==> (Inside(Under(key, ls)[0].path) ==> key !in INHERITED);
  }

  lemma AllInsideConcat(a: seq<LeafAt>, b: seq<LeafAt>)
    ensures AllInside(a + b) <==> AllInside(a) && AllInside(b)
  {
    forall i | 0 <= i < |a| ensures (a + b)[i] == a[i] {
    }
    forall i | 0 <= i < |b| ensures (a + b)[|a| + i] == b[i] {
    }
  }

  /** A path under a key stays inside exactly when the key and the rest of the path do. */
  lemma {:induction false} BuildEntry(acc: Entries, e: Entry<string>)
    requires e.value.Node? ==> PlainKeys(e.value.entries)
    requires !HasKey(acc, e.key)
    ensures forall i :: 0 <= i < |EntryLeaves(e)| ==> EntryLeaves(e)[i].path != []
    ensures BuildPaths(acc, EntryLeaves(e)) == acc + KeptEntry(e)
    ensures FatesKnown(acc, EntryLeaves(e))
    decreases e, 1
  {
    match e.value {
      case Leaf(text) =>
        SetKeyAppends(acc, e.key, Leaf(text));
      case Node(sub) =>
        LeavesStart(sub);
        UnderAt(e.key, Leaves(sub));
        BuildKeeps([], sub);
        assert [] + Kept(sub) == Kept(sub);
        if e.key in INHERITED {
          BuildUnderInherited(acc, e.key, Leaves(sub));
        } else if Leaves(sub) != [] {
          BuildUnderNew(acc, e.key, Leaves(sub));
        }
    }
  }

  lemma KeptKeys(acc: Entries, es: Entries)
    requires PlainKeys(es) && es != []
    requires forall i :: 0 <= i < |es| ==> !HasKey(acc, es[i].key)
    ensures forall i :: 0 <= i < |es[1..]| ==> !HasKey(acc + KeptEntry(es[0]), es[1..][i].key)
  {
    forall i | 0 <= i < |es[1..]| ensures !HasKey(acc + KeptEntry(es[0]), es[1..][i].key) {
      assert es[1..][i] == es[i + 1];
      HasKeyConcat(acc, KeptEntry(es[0]), es[i + 1].key);
    }
  }

  lemma BuildBoth(acc: Entries, a: seq<LeafAt>, b: seq<LeafAt>, first: Entries, rest: Entries)
    requires forall i :: 0 <= i < |a| ==> a[i].path != []
    requires forall i :: 0 <= i < |b| ==> b[i].path != []
    requires BuildPaths(acc, a) == acc + first && FatesKnown(acc, a)
    requires BuildPaths(acc + first, b) == acc + first + rest && FatesKnown(acc + first, b)
    ensures forall i :: 0 <= i < |a + b| ==> (a + b)[i].path != []
    ensures BuildPaths(acc, a + b) == acc + (first + rest) && FatesKnown(acc, a + b)
  {
    BuildConcat(acc, a, b);
    assert acc + first + rest == acc + (first + rest);
  }

  /** Writing the leaves of `es` one by one appends what is kept of the tree. */
  lemma {:induction false} BuildKeeps(acc: Entries, es: Entries)
    requires PlainKeys(es)
    requires forall i :: 0 <= i < |es| ==> !HasKey(acc, es[i].key)
    ensures forall i :: 0 <= i < |Leaves(es)| ==> Leaves(es)[i].path != []
    ensures BuildPaths(acc, Leaves(es)) == acc + Kept(es) && FatesKnown(acc, Leaves(es))
    decreases es
  {
    LeavesStart(es);
    if es == [] {
      assert acc + Kept(es) == acc;
    } else {
      var first, rest := KeptEntry(es[0]), es[1..];
      PlainTail(es);
      LeavesStart(rest);
      BuildEntry(acc, es[0]);
      KeptKeys(acc, es);
      BuildKeeps(acc + first, rest);
      BuildBoth(acc, EntryLeaves(es[0]), Leaves(rest), first, Kept(rest));
    }
  }

  lemma {:induction false} LeavesConcat(a: Entries, b: Entries)
    ensures Leaves(a + b) == Leaves(a) + Leaves(b)
  {
    if a == [] {
      assert a + b == b;
    } else {
      LeavesConcat(a[1..], b);
      assert (a + b)[0] == a[0] && (a + b)[1..] == a[1..] + b;
      var first := EntryLeaves(a[0]);
      assert first + (Leaves(a[1..]) + Leaves(b)) == first + Leaves(a[1..]) + Leaves(b);
    }
  }

  lemma {:induction false} PruneEntryKeeps(e: Entry<string>)
    requires e.value.Node? ==> PlainKeys(e.value.entries)
    ensures Leaves(PruneEntry(e)) == EntryLeaves(e)
    ensures forall d :: d in PruneEntry(e) ==> d.key == e.key && (d.value.Node? ==> PlainKeys(d.value.entries))
    decreases e, 1
  {
    if e.value.Node? {
      PruneKeeps(e.value.entries);
    }
  }

  lemma {:induction false} PruneKeeps(es: Entries)
    requires PlainKeys(es)
    ensures Leaves(Prune(es)) == Leaves(es)
    ensures PlainKeys(Prune(es))
    ensures forall d :: d in Prune(es) ==> HasKey(es, d.key)
    decreases es
  {
    if es != [] {
      var e, rest := es[0], es[1..];
      PlainTail(es);
      PruneEntryKeeps(e);
      PruneKeeps(rest);
      LeavesConcat(PruneEntry(e), Prune(rest));
      KeysFromTail(es, Prune(rest));
      PrunedCons(PruneEntry(e), e.key, Prune(rest));
    }
  }

  lemma KeysFromTail(es: Entries, pruned: Entries)
    requires PlainKeys(es) && es != [] && forall d :: d in pruned ==> HasKey(es[1..], d.key)
    ensures forall d :: d in pruned ==> HasKey(es, d.key) && d.key != es[0].key
    ensures HasKey(es, es[0].key)
  {
    forall d | d in pruned ensures HasKey(es, d.key) && d.key != es[0].key {
      var j :| 0 <= j < |es[1..]| && es[1..][j].key == d.key;
      assert es[j + 1] == es[1..][j];
    }
  }

  lemma PrunedCons(first: Entries, key: string, pruned: Entries)
    requires |first| <= 1 && PlainKeys(pruned)
    requires forall d :: d in first ==> d.key == key && PlainKeys(first)
    requires forall d :: d in pruned ==> d.key != key
    ensures PlainKeys(first + pruned)
  {
    if first == [] {
      assert first + pruned == pruned;
    } else {
      assert first[0] in first && (first + pruned)[1..] == pruned;
    }
  }

  // ---------------------------------------------------------------- what is kept

  /** The texts whose walks stay inside. */
  function StayingLeaves(ls: seq<LeafAt>): seq<LeafAt> {
    if ls == [] then []
    else (if Inside(ls[0].path) then [ls[0]] else []) + StayingLeaves(ls[1..])
  }

  function Staying(fs: seq<Flat>): seq<Flat> {
    if fs == [] then []
    else (if Inside(Split(fs[0].key, '.')) then [fs[0]] else []) + Staying(fs[1..])
  }

  lemma {:induction false} StayingConcat(a: seq<LeafAt>, b: seq<LeafAt>)
    ensures StayingLeaves(a + b) == StayingLeaves(a) + StayingLeaves(b)
  {
    if a == [] {
      assert a + b == b;
    } else {
      StayingConcat(a[1..], b);
      assert (a + b)[0] == a[0] && (a + b)[1..] == a[1..] + b;
      var first := if Inside(a[0].path) then [a[0]] else [];
      assert first + (StayingLeaves(a[1..]) + StayingLeaves(b)) == first + StayingLeaves(a[1..]) + StayingLeaves(b);
    }
  }

  lemma {:induction false} StayingUnder(key: string, ls: seq<LeafAt>)
    requires forall i :: 0 <= i < |ls| ==> ls[i].path != []
    ensures StayingLeaves(Under(key, ls)) == if key in INHERITED then [] else Under(key, StayingLeaves(ls))
  {
    if ls != [] {
      StayingUnder(key, ls[1..]);
      PathFateCons(key, ls[0].path);
      assert Under(key, ls)[1..] == Under(key, ls[1..]);
      var rest := StayingLeaves(ls[1..]);
      if Inside(ls[0].path) {
        assert ([ls[0]] + rest)[1..] == rest;
      } else {
        assert [] + rest == rest;
      }
    }
  }

  lemma {:induction false} StayingAll(ls: seq<LeafAt>)
    ensures |StayingLeaves(ls)| <= |ls|
    ensures |StayingLeaves(ls)| == |ls| <==> StayingLeaves(ls) == ls
    ensures StayingLeaves(ls) == ls <==> AllInside(ls)
  {
    if ls != [] {
      StayingAll(ls[1..]);
      assert ls == [ls[0]] + ls[1..];
      AllInsideConcat([ls[0]], ls[1..]);
    }
  }

  lemma {:induction false} KeptEntryLeaves(e: Entry<string>)
    ensures Leaves(KeptEntry(e)) == StayingLeaves(EntryLeaves(e))
    decreases e, 1
  {
    if e.value.Node? {
      LeavesStart(e.value.entries);
      KeptLeaves(e.value.entries);
      StayingUnder(e.key, Leaves(e.value.entries));
    }
  }

  /** What is kept has just the texts whose walks stay inside, in their order. */
  lemma {:induction false} KeptLeaves(es: Entries)
    ensures Leaves(Kept(es)) == StayingLeaves(Leaves(es))
    decreases es
  {
    if es != [] {
      KeptEntryLeaves(es[0]);
      KeptLeaves(es[1..]);
      LeavesConcat(KeptEntry(es[0]), Kept(es[1..]));
      StayingConcat(EntryLeaves(es[0]), Leaves(es[1..]));
    }
  }

  lemma {:induction false} KeptEntryPlain(e: Entry<string>)
    requires e.value.Node? ==> PlainKeys(e.value.entries)
    ensures |KeptEntry(e)| <= 1
    ensures forall d :: d in KeptEntry(e) ==> d.key == e.key && (d.value.Node? ==> PlainKeys(d.value.entries))
    decreases e, 1
  {
    if e.value.Node? {
      KeptPlain(e.value.entries);
    }
  }

  lemma {:induction false} KeptPlain(es: Entries)
    requires PlainKeys(es)
    ensures PlainKeys(Kept(es))
    ensures forall d :: d in Kept(es) ==> HasKey(es, d.key)
    decreases es
  {
    if es != [] {
      var first, rest := KeptEntry(es[0]), Kept(es[1..]);
      PlainTail(es);
      KeptEntryPlain(es[0]);
      KeptPlain(es[1..]);
      KeysFromTail(es, rest);
      assert forall d :: d in first ==> PlainKeys(first);
      PrunedCons(first, es[0].key, rest);
      assert forall d :: d in first + rest ==> d in first || d in rest;
    }
  }

  lemma {:induction false} PrunedToNothing(es: Entries)
    ensures Prune(es) == [] <==> Leaves(es) == []
    decreases es
  {
    if es != [] {
      PrunedToNothing(es[1..]);
      match es[0].value {
        case Leaf(_) =>
        case Node(sub) =>
          PrunedToNothing(sub);
          UnderAt(es[0].key, Leaves(sub));
      }
    }
  }

  lemma {:induction false} KeptIsPruned(es: Entries)
    requires StaysInside(es)
    ensures Kept(es) == Prune(es)
    decreases es
  {
    if es != [] {
      var e, rest := es[0], es[1..];
      AllInsideConcat(EntryLeaves(e), Leaves(rest));
      KeptIsPruned(rest);
      match e.value {
        case Leaf(text) =>
          assert Inside(EntryLeaves(e)[0].path);
        case Node(sub) =>
          PrunedToNothing(sub);
          LeavesStart(sub);
          InsideUnder(e.key, Leaves(sub));
          if Leaves(sub) != [] {
            KeptIsPruned(sub);
          }
      }
    }
  }

  /** The loop throws exactly when some write escapes and throws; else it gives what is kept. */
  lemma RebuildIsKept(throws: string -> bool, es: Entries)
    requires PlainKeys(es)
    ensures Rebuild(throws, [], Flatten(es)) == if SomeWriteThrows(throws, Flatten(es)) then None else Some(Kept(es))
    ensures WritesArrive([], Flatten(es)) <==> StaysInside(es)
  {
    FlattenListsLeaves(es);
    LeavesDistinct(es);
    LeavesStart(es);
    BuildKeeps([], es);
    RebuildIsBuild(throws, [], Leaves(es));
    WritesArriveInside([], Leaves(es));
    assert [] + Kept(es) == Kept(es);
  }

  lemma {:induction false} InsideNeverThrows(throws: string -> bool, ls: seq<LeafAt>)
    requires AllInside(ls) && forall i :: 0 <= i < |ls| ==> GoodPath(ls[i].path)
    ensures !SomeWriteThrows(throws, DottedKeys([], ls))
  {
    DottedAt(ls);
    forall i | 0 <= i < |ls| ensures !KeyLeadsOut(DottedKeys([], ls)[i].key) {
      SplitJoin(ls[i].path, '.');
    }
  }

  lemma StayingNeverThrows(throws: string -> bool, es: Entries)
    requires PlainKeys(es) && StaysInside(es)
    ensures !SomeWriteThrows(throws, Flatten(es))
  {
    FlattenListsLeaves(es);
    LeavesDistinct(es);
    InsideNeverThrows(throws, Leaves(es));
  }

  lemma KeptIsPrunedExactly(es: Entries)
    requires PlainKeys(es)
    ensures Kept(es) == Prune(es) <==> StaysInside(es)
  {
    KeptLeaves(es);
    if StaysInside(es) {
      KeptIsPruned(es);
    } else {
      PruneKeeps(es);
      StayingAll(Leaves(es));
    }
  }

  /** Rebuilding from the flattened entries throws exactly when some write escapes and throws.
      Otherwise it keeps the texts whose walks stay inside.  It gives the whole tree, without
      its empty subtrees, exactly when no key above a text is inherited and no text has the key
      `__proto__`. */
  lemma RebuildFlattened(throws: string -> bool, es: Entries)
    requires PlainKeys(es)
    ensures match Rebuild(throws, [], Flatten(es))
            case None => SomeWriteThrows(throws, Flatten(es))
            case Some(tree) => !SomeWriteThrows(throws, Flatten(es)) && Leaves(tree) == StayingLeaves(Leaves(es))
    ensures Rebuild(throws, [], Flatten(es)) == Some(Prune(es)) <==> StaysInside(es)
  {
    RebuildIsKept(throws, es);
    KeptLeaves(es);
    KeptIsPrunedExactly(es);
    if StaysInside(es) {
      StayingNeverThrows(throws, es);
    }
  }

  lemma {:induction false} StayingDotted(ls: seq<LeafAt>)
    requires forall i :: 0 <= i < |ls| ==> GoodPath(ls[i].path)
    ensures Staying(DottedKeys([], ls)) == DottedKeys([], StayingLeaves(ls))
  {
    if ls != [] {
      assert [] + ls[0].path == ls[0].path;
      SplitJoin(ls[0].path, '.');
      StayingDotted(ls[1..]);
      DottedConcat([], if Inside(ls[0].path) then [ls[0]] else [], StayingLeaves(ls[1..]));
    }
  }

  lemma FlattenKept(es: Entries)
    requires PlainKeys(es)
    ensures Flatten(Kept(es)) == Staying(Flatten(es))
    ensures Flatten(Kept(es)) == Flatten(es) <==> StaysInside(es)
  {
    KeptLeaves(es);
    KeptPlain(es);
    FlattenListsLeaves(es);
    FlattenListsLeaves(Kept(es));
    LeavesDistinct(es);
    StayingDotted(Leaves(es));
    StayingAll(Leaves(es));
    DottedAt(Leaves(es));
    DottedAt(StayingLeaves(Leaves(es)));
    LeavesStart(es);
  }

  /** Flattening a rebuilt tree gives the entries whose walks stay inside, in the same order:
      all of them exactly when no walk leaves the tree. */
  lemma FlattenRebuilt(throws: string -> bool, es: Entries)
    requires PlainKeys(es)
    ensures match Rebuild(throws, [], Flatten(es))
            case None => SomeWriteThrows(throws, Flatten(es)) && !StaysInside(es)
            case Some(tree) => Flatten(tree) == Staying(Flatten(es)) && (Flatten(tree) == Flatten(es) <==> StaysInside(es))
  {
    RebuildIsKept(throws, es);
    FlattenKept(es);
    if StaysInside(es) {
      StayingNeverThrows(throws, es);
    }
  }

  /** `{constructor: {a: text}}` */
  function UnderConstructor(text: string): Entries {
    [Entry("constructor", Node([Entry("a", Leaf(text))]))]
  }

  /** A plain tree that is not rebuilt: the walk for `constructor.a` goes into the function
      that every object inherits. */
  lemma InheritedParentIsLost(throws: string -> bool, text: string)
    ensures PlainKeys(UnderConstructor(text)) && Flatten(UnderConstructor(text)) == [Flat("constructor.a", text)]
    ensures Rebuild(throws, [], Flatten(UnderConstructor(text))) == if throws("constructor.a") then None else Some([])
    ensures KeyLeadsOut("constructor.a")
  {
    var sub, es := [Entry("a", Leaf(text))], UnderConstructor(text);
    assert Leaves(sub) == [LeafAt(["a"], text)];
    assert es[1..] == [] && Leaves(es) == Under("constructor", Leaves(sub)) + [];
    UnderAt("constructor", Leaves(sub));
    var path := ["constructor"] + ["a"];
    assert Leaves(es) == [LeafAt(path, text)] && path[1..] == ["a"];
    DottedAt(Leaves(es));
    assert Join(path, ".") == "constructor" + "." + "a" == "constructor.a";
    FlattenListsLeaves(es);
    SplitJoin(path, '.');
    assert path[0] in INHERITED && LeadsOut(path);
    RebuildIsKept(throws, es);
    var flat := Flatten(es);
    assert flat == [Flat("constructor.a", text)] && flat[0].key == "constructor.a";
  }

  /** Assigning a text to an inherited `__proto__` makes no property, and never throws. */
  lemma ProtoTextIsLost(throws: string -> bool) returns (es: Entries)
    ensures PlainKeys(es) && Flatten(es) == [Flat("__proto__", "x")] && Rebuild(throws, [], Flatten(es)) == Some([])
  {
    es := [Entry("__proto__", Leaf("x"))];
    RebuildIsKept(throws, es);
    var path := ["__proto__"];
    SplitJoin(path, '.');
    assert !KeyLeadsOut("__proto__");
  }

  // ---------------------------------------------------------------- the same tree with other texts

  function TextFor(values: map<string, string>, key: string, text: string): string {
    if key in values then values[key] else text
  }

  /** `nextFlat.get(key) ?? value` for every entry. */
  function Valued(fs: seq<Flat>, values: map<string, string>): seq<Flat> {
    if fs == [] then []
    else [Flat(fs[0].key, TextFor(values, fs[0].key, fs[0].text))] + Valued(fs[1..], values)
  }

  function RetextEntry(e: Entry<string>, path: seq<string>, values: map<string, string>): Entry<string>
    decreases e
  {
    var at := path + [e.key];
    match e.value
    case Leaf(text) => Entry(e.key, Leaf(TextFor(values, Join(at, "."), text)))
    case Node(sub) => Entry(e.key, Node(Retext(sub, at, values)))
  }

  function Retext(es: Entries, path: seq<string>, values: map<string, string>): Entries
    decreases es
  {
    if es == [] then [] else [RetextEntry(es[0], path, values)] + Retext(es[1..], path, values)
  }

  function RetextLeaves(ls: seq<LeafAt>, path: seq<string>, values: map<string, string>): seq<LeafAt> {
    if ls == [] then []
    else [LeafAt(ls[0].path, TextFor(values, Join(path + ls[0].path, "."), ls[0].text))] + RetextLeaves(ls[1..], path, values)
  }

  lemma {:induction false} RetextUnder(key: string, ls: seq<LeafAt>, path: seq<string>, values: map<string, string>)
    ensures RetextLeaves(Under(key, ls), path, values) == Under(key, RetextLeaves(ls, path + [key], values))
  {
    if ls != [] {
      RetextUnder(key, ls[1..], path, values);
      assert path + ([key] + ls[0].path) == path + [key] + ls[0].path;
      assert Under(key, ls)[1..] == Under(key, ls[1..]);
      var r := RetextLeaves(ls, path + [key], values);
      assert r[1..] == RetextLeaves(ls[1..], path + [key], values);
    }
  }

  lemma {:induction false} RetextConcat(a: seq<LeafAt>, b: seq<LeafAt>, path: seq<string>, values: map<string, string>)
    ensures RetextLeaves(a + b, path, values) == RetextLeaves(a, path, values) + RetextLeaves(b, path, values)
  {
    if a == [] {
      assert a + b == b;
    } else {
      RetextConcat(a[1..], b, path, values);
      assert (a + b)[1..] == a[1..] + b;
    }
  }

  lemma {:induction false} RetextEntryKeeps(e: Entry<string>, path: seq<string>, values: map<string, string>)
    requires e.value.Node? ==> PlainKeys(e.value.entries)
    ensures var r := RetextEntry(e, path, values);
            && r.key == e.key && (r.value.Node? ==> PlainKeys(r.value.entries))
            && EntryLeaves(r) == RetextLeaves(EntryLeaves(e), path, values)
    decreases e, 0
  {
    match e.value {
      case Leaf(text) =>
        assert EntryLeaves(e)[1..] == [];
      case Node(sub) =>
        RetextKeeps(sub, path + [e.key], values);
        RetextUnder(e.key, Leaves(sub), path, values);
    }
  }

  lemma {:induction false} RetextKeys(es: Entries, path: seq<string>, values: map<string, string>)
    ensures |Retext(es, path, values)| == |es|
    ensures forall i :: 0 <= i < |es| ==> Retext(es, path, values)[i] == RetextEntry(es[i], path, values)
  {
    if es != [] {
      RetextKeys(es[1..], path, values);
    }
  }

  lemma {:induction false} RetextKeeps(es: Entries, path: seq<string>, values: map<string, string>)
    requires PlainKeys(es)
    ensures PlainKeys(Retext(es, path, values))
    ensures Leaves(Retext(es, path, values)) == RetextLeaves(Leaves(es), path, values)
    decreases es, 1
  {
    var r := Retext(es, path, values);
    RetextKeys(es, path, values);
    forall i | 0 <= i < |es| ensures r[i].key == es[i].key && (r[i].value.Node? ==> PlainKeys(r[i].value.entries)) {
      RetextEntryKeeps(es[i], path, values);
    }
    if es != [] {
      PlainTail(es);
      RetextEntryKeeps(es[0], path, values);
      RetextKeeps(es[1..], path, values);
      RetextConcat(EntryLeaves(es[0]), Leaves(es[1..]), path, values);
      assert r[0] == RetextEntry(es[0], path, values) && r[1..] == Retext(es[1..], path, values);
    }
  }

  lemma {:induction false} DottedValued(ls: seq<LeafAt>, values: map<string, string>)
    ensures DottedKeys([], RetextLeaves(ls, [], values)) == Valued(DottedKeys([], ls), values)
  {
    if ls != [] {
      DottedValued(ls[1..], values);
    }
  }

  lemma {:induction false} ValuedAt(fs: seq<Flat>, values: map<string, string>)
    ensures |Valued(fs, values)| == |fs|
    ensures forall i :: 0 <= i < |fs| ==> Valued(fs, values)[i] == Flat(fs[i].key, TextFor(values, fs[i].key, fs[i].text))
  {
    if fs != [] {
      ValuedAt(fs[1..], values);
    }
  }

  lemma {:induction false} RetextInside(ls: seq<LeafAt>, path: seq<string>, values: map<string, string>)
    ensures AllInside(RetextLeaves(ls, path, values)) <==> AllInside(ls)
  {
    if ls != [] {
      RetextInside(ls[1..], path, values);
      var r := RetextLeaves(ls, path, values);
      assert r == [r[0]] + RetextLeaves(ls[1..], path, values) && ls == [ls[0]] + ls[1..];
      AllInsideConcat([r[0]], RetextLeaves(ls[1..], path, values));
      AllInsideConcat([ls[0]], ls[1..]);
      assert [r[0]][0].path == [ls[0]][0].path;
    }
  }

  lemma ValuedTree(es: Entries, values: map<string, string>)
    requires PlainKeys(es)
    ensures PlainKeys(Retext(es, [], values)) && Flatten(Retext(es, [], values)) == Valued(Flatten(es), values)
    ensures StaysInside(Retext(es, [], values)) <==> StaysInside(es)
  {
    RetextKeeps(es, [], values);
    FlattenListsLeaves(es);
    FlattenListsLeaves(Retext(es, [], values));
    DottedValued(Leaves(es), values);
    RetextInside(Leaves(es), [], values);
  }

  /** The two maps give the texts whose walks stay inside the same new text. */
  ghost predicate AgreeInside(ls: seq<LeafAt>, path: seq<string>, a: map<string, string>, b: map<string, string>) {
    forall i :: 0 <= i < |ls| && Inside(ls[i].path) ==> NewText(ls[i], path, a) == NewText(ls[i], path, b)
  }

  function NewText(l: LeafAt, path: seq<string>, values: map<string, string>): string {
    TextFor(values, Join(path + l.path, "."), l.text)
  }

  lemma AgreeConcat(ls: seq<LeafAt>, more: seq<LeafAt>, path: seq<string>, a: map<string, string>, b: map<string, string>)
    requires AgreeInside(ls + more, path, a, b)
    ensures AgreeInside(ls, path, a, b) && AgreeInside(more, path, a, b)
  {
    forall i | 0 <= i < |ls| ensures (ls + more)[i] == ls[i] {
    }
    forall i | 0 <= i < |more| ensures (ls + more)[|ls| + i] == more[i] {
    }
  }

  lemma NewTextUnder(key: string, l: LeafAt, path: seq<string>, values: map<string, string>)
    ensures NewText(LeafAt([key] + l.path, l.text), path, values) == NewText(l, path + [key], values)
  {
    assert path + ([key] + l.path) == path + [key] + l.path;
  }

  lemma AgreeUnder(key: string, ls: seq<LeafAt>, path: seq<string>, a: map<string, string>, b: map<string, string>)
    requires AgreeInside(Under(key, ls), path, a, b) && key !in INHERITED
    requires forall i :: 0 <= i < |ls| ==> ls[i].path != []
    ensures AgreeInside(ls, path + [key], a, b)
  {
    UnderAt(key, ls);
    forall i | 0 <= i < |ls| && Inside(ls[i].path)
      ensures NewText(ls[i], path + [key], a) == NewText(ls[i], path + [key], b)
    {
      PathFateCons(key, ls[i].path);
      assert Inside(Under(key, ls)[i].path);
      NewTextUnder(key, ls[i], path, a);
      NewTextUnder(key, ls[i], path, b);
    }
  }

  lemma {:induction false} RetextLeavesSize(ls: seq<LeafAt>, path: seq<string>, values: map<string, string>)
    ensures |RetextLeaves(ls, path, values)| == |ls|
  {
    if ls != [] {
      RetextLeavesSize(ls[1..], path, values);
    }
  }

  /** What is kept shows only the texts whose walks stay inside. */
  lemma {:induction false} KeptRetext(es: Entries, path: seq<string>, a: map<string, string>, b: map<string, string>)
    requires PlainKeys(es) && AgreeInside(Leaves(es), path, a, b)
    ensures Kept(Retext(es, path, a)) == Kept(Retext(es, path, b))
    decreases es, 1
  {
    if es != [] {
      PlainTail(es);
      AgreeConcat(EntryLeaves(es[0]), Leaves(es[1..]), path, a, b);
      KeptRetextEntry(es[0], path, a, b);
      KeptRetext(es[1..], path, a, b);
      KeptCons(RetextEntry(es[0], path, a), Retext(es[1..], path, a));
      KeptCons(RetextEntry(es[0], path, b), Retext(es[1..], path, b));
    }
  }

  lemma KeptCons(e: Entry<string>, rest: Entries)
    ensures Kept([e] + rest) == KeptEntry(e) + Kept(rest)
  {
    assert ([e] + rest)[1..] == rest;
  }

  lemma {:induction false} KeptRetextEntry(e: Entry<string>, path: seq<string>, a: map<string, string>, b: map<string, string>)
    requires (e.value.Node? ==> PlainKeys(e.value.entries)) && AgreeInside(EntryLeaves(e), path, a, b)
    ensures KeptEntry(RetextEntry(e, path, a)) == KeptEntry(RetextEntry(e, path, b))
    decreases e, 0
  {
    match e.value {
      case Leaf(text) =>
        assert e.key != "__proto__" ==> Inside(EntryLeaves(e)[0].path);
      case Node(sub) =>
        var at := path + [e.key];
        LeavesStart(sub);
        RetextKeeps(sub, at, a);
        RetextKeeps(sub, at, b);
        RetextLeavesSize(Leaves(sub), at, a);
        RetextLeavesSize(Leaves(sub), at, b);
        if e.key !in INHERITED {
          AgreeUnder(e.key, Leaves(sub), path, a, b);
          KeptRetext(sub, at, a, b);
        }
    }
  }

  lemma ThrowsByKey(throws: string -> bool, fs: seq<Flat>, values: map<string, string>)
    ensures SomeWriteThrows(throws, Valued(fs, values)) <==> SomeWriteThrows(throws, fs)
  {
    ValuedAt(fs, values);
    forall i | 0 <= i < |fs| ensures Valued(fs, values)[i].key == fs[i].key {
    }
  }

  /** A locale map built from the source keys and new texts flattens back to those entries
      whose walks stay inside: to all of them exactly when no walk leaves the tree. */
  lemma FlattenValued(throws: string -> bool, es: Entries, values: map<string, string>)
    requires PlainKeys(es)
    ensures match Rebuild(throws, [], Valued(Flatten(es), values))
            case None => SomeWriteThrows(throws, Flatten(es)) && !StaysInside(es)
            case Some(tree) =>
              && !SomeWriteThrows(throws, Flatten(es))
              && Flatten(tree) == Staying(Valued(Flatten(es), values))
              && (Flatten(tree) == Valued(Flatten(es), values) <==> StaysInside(es))
    ensures WritesArrive([], Valued(Flatten(es), values)) <==> StaysInside(es)
    ensures DistinctKeys(Valued(Flatten(es), values))
  {
    ValuedTree(es, values);
    ThrowsByKey(throws, Flatten(es), values);
    RebuildIsKept(throws, Retext(es, [], values));
    FlattenListsLeaves(Retext(es, [], values));
    FlattenRebuilt(throws, Retext(es, [], values));
  }
}
