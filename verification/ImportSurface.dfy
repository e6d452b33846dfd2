/** The import graph of a channel's config surface (scripts/load-channel-config-surface.ts):
    which files it needs, and when a copy of them elsewhere still resolves its imports. */
module ImportSurface {
  import opened Wrappers
  import opened JsText
  import opened Paths
  import opened Digraph
  import opened CommonAncestor

  /** The regular files, and the specifiers that each one imports, in order. */
  datatype Disk = Disk(files: set<Path>, imports: map<Path, seq<string>>)

  predicate WellFormed(disk: Disk) {
    disk.imports.Keys == disk.files && forall f :: f in disk.files ==> f != [] && Normalised(f)
  }

  // ---------------------------------------------------------------- resolving one specifier

  const EXTENSIONS: seq<string> := [".ts", ".tsx", ".mts", ".cts", ".js", ".jsx", ".mjs", ".cjs"]

  /** The position of the last dot, or -1. */
  function LastDot(name: string): (n: int)
    ensures -1 <= n < |name|
  {
    if name == [] then -1 else if name[|name| - 1] == '.' then |name| - 1 else LastDot(name[..|name| - 1])
  }

  /** `path.extname`; a leading dot does not start an extension. */
  function ExtensionOf(name: string): string {
    if LastDot(name) <= 0 then "" else name[LastDot(name)..]
  }

  function Stem(name: string): string {
    if LastDot(name) <= 0 then name else name[..LastDot(name)]
  }

  function Extname(p: Path): string {
    if p == [] then "" else ExtensionOf(p[|p| - 1])
  }

  /** The same directory with another last segment. */
  function Renamed(p: Path, name: string): Path {
    Dirname(p) + [name]
  }

  function LastName(p: Path): string {
    if p == [] then "" else p[|p| - 1]
  }

  function WithExtensions(p: Path, stem: string, extensions: seq<string>): seq<Path> {
    if extensions == [] then []
    else [Renamed(p, stem + extensions[0])] + WithExtensions(p, stem, extensions[1..])
  }

  function FilesAndIndexes(p: Path, extensions: seq<string>): seq<Path> {
    if extensions == [] then []
    else [Renamed(p, LastName(p) + extensions[0]), p + ["index" + extensions[0]]] + FilesAndIndexes(p, extensions[1..])
  }

  /** In the order in which they are tried; a repeated candidate changes nothing. */
  function ResolveImportCandidates(base: Path): seq<Path> {
    [base] + if Extname(base) != "" then WithExtensions(base, Stem(LastName(base)), EXTENSIONS)
             else FilesAndIndexes(base, EXTENSIONS)
  }

  function FirstFile(files: set<Path>, candidates: seq<Path>): (r: Option<Path>)
    ensures r.Some? ==> r.value in files && r.value in candidates
  {
    if candidates == [] then None
    else if candidates[0] in files then Some(candidates[0])
    else FirstFile(files, candidates[1..])
  }

  function ResolveImport(files: set<Path>, fromFile: Path, specifier: string): (r: Option<Path>)
    ensures r.Some? ==> r.value in files
  {
    FirstFile(files, ResolveImportCandidates(Resolve(Dirname(fromFile), specifier)))
  }

  method ResolveRelativeImportPath(files: set<Path>, fromFile: Path, specifier: string) returns (r: Option<Path>)
    ensures r == ResolveImport(files, fromFile, specifier)
  {
    var candidates := ResolveImportCandidates(Resolve(Dirname(fromFile), specifier));
    for i := 0 to |candidates|
      invariant FirstFile(files, candidates) == FirstFile(files, candidates[i..])
    {
      if candidates[i] in files {
        return Some(candidates[i]);
      }
    }
    return None;
  }

  // ---------------------------------------------------------------- the files that are needed

  /** The files that `f` imports by relative specifiers. */
  function Targets(disk: Disk, f: Path, specifiers: seq<string>): seq<Path> {
    if specifiers == [] then []
    else
      var last := specifiers[|specifiers| - 1];
      Targets(disk, f, specifiers[..|specifiers| - 1]) +
      (if StartsWith(last, ".") && ResolveImport(disk.files, f, last).Some?
       then [ResolveImport(disk.files, f, last).value] else [])
  }

  function ImportGraph(disk: Disk): Graph<Path> {
    map f | f in disk.imports :: Targets(disk, f, disk.imports[f])
  }

  lemma {:induction false} TargetsAreFiles(disk: Disk, f: Path, specifiers: seq<string>)
    ensures forall t :: t in Targets(disk, f, specifiers) ==> t in disk.files
  {
    if specifiers != [] {
      TargetsAreFiles(disk, f, specifiers[..|specifiers| - 1]);
    }
  }

  lemma {:induction false} TargetOf(disk: Disk, f: Path, specifiers: seq<string>, specifier: string)
    requires specifier in specifiers && StartsWith(specifier, ".") && ResolveImport(disk.files, f, specifier).Some?
    ensures ResolveImport(disk.files, f, specifier).value in Targets(disk, f, specifiers)
  {
    var front, last := specifiers[..|specifiers| - 1], specifiers[|specifiers| - 1];
    assert specifiers == front + [last];
    if specifier != last {
      TargetOf(disk, f, front, specifier);
    }
  }

  ghost predicate NoRepeats(s: seq<Path>) {
    forall i, j :: 0 <= i < j < |s| ==> s[i] != s[j]
  }

  /** What the worklist has done: everything found is needed, and what a visited file
      imports is visited or queued. */
  ghost predicate Explored(g: Graph<Path>, entry: Path, discovered: seq<Path>, queue: seq<Path>) {
    && NoRepeats(discovered)
    && (forall f :: f in discovered || f in queue ==> f in g && Reach(g, entry, f))
    && (entry in discovered || entry in queue)
    && (forall f, t {:trigger Edge(g, f, t)} :: f in discovered && Edge(g, f, t) ==> t in discovered || t in queue)
  }

  lemma ExploredSkip(g: Graph<Path>, entry: Path, discovered: seq<Path>, queue: seq<Path>)
    requires queue != [] && Explored(g, entry, discovered, queue) && queue[|queue| - 1] in discovered
    ensures Explored(g, entry, discovered, queue[..|queue| - 1])
  {
    var rest, last := queue[..|queue| - 1], queue[|queue| - 1];
    assert queue == rest + [last];
  }

  lemma ExploredVisit(g: Graph<Path>, entry: Path, discovered: seq<Path>, rest: seq<Path>, last: Path)
    requires Explored(g, entry, discovered, rest + [last]) && last !in discovered && last in g
    requires forall t :: t in g[last] ==> t in g
    ensures Explored(g, entry, discovered + [last], rest + g[last])
  {
    var queue := rest + [last];
    assert last in queue && forall f :: f in rest ==> f in queue;
    forall t | t in g[last] ensures Reach(g, entry, t) {
      assert Edge(g, last, t);
      ReachEdge(g, last, t);
      ReachTrans(g, entry, last, t);
    }
    forall f, t {:trigger Edge(g, f, t)} | f in discovered + [last] && Edge(g, f, t)
      ensures t in discovered + [last] || t in rest + g[last]
    {
      if f in discovered {
        assert t in discovered || t in queue;
      }
    }
  }

  lemma GraphAt(disk: Disk, f: Path)
    requires WellFormed(disk) && f in ImportGraph(disk)
    ensures f in disk.files && ImportGraph(disk)[f] == Targets(disk, f, disk.imports[f])
    ensures forall t :: t in ImportGraph(disk)[f] ==> t in ImportGraph(disk)
  {
    TargetsAreFiles(disk, f, disk.imports[f]);
  }

  lemma VisitFile(disk: Disk, entry: Path, discovered: seq<Path>, queue: seq<Path>)
    requires WellFormed(disk) && queue != []
    requires Explored(ImportGraph(disk), entry, discovered, queue) && queue[|queue| - 1] !in discovered
    ensures var last := queue[|queue| - 1];
            && last in disk.files
            && Explored(ImportGraph(disk), entry, discovered + [last],
                        queue[..|queue| - 1] + Targets(disk, last, disk.imports[last]))
  {
    var rest, last := queue[..|queue| - 1], queue[|queue| - 1];
    assert queue == rest + [last];
    assert last in queue;
    GraphAt(disk, last);
    ExploredVisit(ImportGraph(disk), entry, discovered, rest, last);
  }

  /** The inner loop over the imports found in one file. */
  method QueueImports(disk: Disk, currentPath: Path, specifiers: seq<string>, queue: seq<Path>) returns (q: seq<Path>)
    ensures q == queue + Targets(disk, currentPath, specifiers)
  {
    q := queue;
    for i := 0 to |specifiers|
      invariant q == queue + Targets(disk, currentPath, specifiers[..i])
    {
      var specifier := specifiers[i];
      assert specifiers[..i + 1][..i] == specifiers[..i];
      if !StartsWith(specifier, ".") {
        continue;
      }
      var resolved := ResolveRelativeImportPath(disk.files, currentPath, specifier);
      if resolved.Some? {
        q := q + [resolved.value];
      }
    }
    assert specifiers[..|specifiers|] == specifiers;
  }

  /** `None` is the error of reading an entry that is not a file. */
  method CollectRelativeImportGraph(disk: Disk, entry: Path) returns (r: Option<seq<Path>>)
    requires WellFormed(disk)
    ensures r.None? <==> entry !in disk.files
    ensures r.Some? ==> NoRepeats(r.value)
    ensures r.Some? ==> forall f :: f in r.value <==> Reach(ImportGraph(disk), entry, f)
    ensures r.Some? ==> forall f :: f in r.value ==> f in disk.files
  {
    if entry !in disk.files {
      return None;
    }
    ghost var g := ImportGraph(disk);
    var discovered: seq<Path> := [];
    var queue := [entry];
    ReachSelf(g, entry);
    ghost var found: set<Path> := {};
    while |queue| > 0
      invariant Explored(g, entry, discovered, queue)
      invariant forall f :: f in found <==> f in discovered
      decreases disk.files - found, |queue|
    {
      var currentPath := queue[|queue| - 1];
      if currentPath in discovered {
        ExploredSkip(g, entry, discovered, queue);
        queue := queue[..|queue| - 1];
        continue;
      }
      VisitFile(disk, entry, discovered, queue);
      discovered := discovered + [currentPath];
      found := found + {currentPath};
      queue := QueueImports(disk, currentPath, disk.imports[currentPath], queue[..|queue| - 1]);
    }
    ExploredAll(g, entry, discovered);
    return Some(discovered);
  }

  lemma ExploredAll(g: Graph<Path>, entry: Path, discovered: seq<Path>)
    requires Explored(g, entry, discovered, [])
    ensures forall f :: f in discovered <==> Reach(g, entry, f)
  {
    var found := set f | f in discovered;
    assert Closed(g, found);
    forall f | Reach(g, entry, f) ensures f in discovered {
      ClosedReach(g, found, entry, f);
    }
  }

  // ---------------------------------------------------------------- the copy

  /** The place of a file in the copy. */
  function Moved(root: Path, isolated: Path, f: Path): Path
    requires root <= f
  {
    isolated + f[|root|..]
  }

  /** Every file lies strictly inside the copied directory. */
  predicate Inside(root: Path, files: seq<Path>) {
    forall f :: f in files ==> root < f
  }

  function CopiedFiles(root: Path, isolated: Path, files: seq<Path>): set<Path>
    requires Inside(root, files)
  {
    set f | f in files :: Moved(root, isolated, f)
  }

  /** The targets of the copy loop, in order. */
  method CopyFiles(copyRoot: Path, isolatedRoot: Path, relativeFiles: seq<Path>) returns (targets: seq<Path>)
    requires Inside(copyRoot, relativeFiles) && NoRepeats(relativeFiles)
    requires Normalised(isolatedRoot) && forall f :: f in relativeFiles ==> Normalised(f)
    ensures |targets| == |relativeFiles| && NoRepeats(targets)
    ensures forall i :: 0 <= i < |targets| ==>
              relativeFiles[i] in relativeFiles && targets[i] == Moved(copyRoot, isolatedRoot, relativeFiles[i])
    ensures forall i, j :: 0 <= i < |targets| && 0 <= j < |targets| ==>
              Walk(Dirname(targets[i]), Relative(Dirname(relativeFiles[i]), relativeFiles[j])) == targets[j]
  {
    targets := [];
    for i := 0 to |relativeFiles|
      invariant |targets| == i
      invariant forall k :: 0 <= k < i ==>
                  relativeFiles[k] in relativeFiles && targets[k] == Moved(copyRoot, isolatedRoot, relativeFiles[k])
    {
      var sourcePath := relativeFiles[i];
      assert sourcePath in relativeFiles;
      MovedByRelativePath(copyRoot, isolatedRoot, sourcePath);
      var relativePath := Relative(copyRoot, sourcePath);
      targets := targets + [Walk(isolatedRoot, relativePath)];
    }
    forall i, j | 0 <= i < j < |targets| ensures targets[i] != targets[j] {
      assert relativeFiles[i] in relativeFiles && relativeFiles[j] in relativeFiles;
      MovedInjective(copyRoot, isolatedRoot, relativeFiles[i], relativeFiles[j]);
    }
    forall i, j | 0 <= i < |targets| && 0 <= j < |targets|
      ensures Walk(Dirname(targets[i]), Relative(Dirname(relativeFiles[i]), relativeFiles[j])) == targets[j]
    {
      assert relativeFiles[i] in relativeFiles && relativeFiles[j] in relativeFiles;
      PositionsKept(copyRoot, isolatedRoot, relativeFiles[i], relativeFiles[j]);
    }
  }

  lemma MovedByRelativePath(root: Path, isolated: Path, f: Path)
    requires root <= f && Normalised(f)
    ensures Walk(isolated, Relative(root, f)) == Moved(root, isolated, f)
  {
    CommonLengthUnique(root, f, |root|);
    assert Relative(root, f) == f[|root|..];
    WalkNames(isolated, f[|root|..]);
  }

  lemma MovedInjective(root: Path, isolated: Path, f: Path, g: Path)
    requires root <= f && root <= g && f != g
    ensures Moved(root, isolated, f) != Moved(root, isolated, g)
  {
    assert f == root + f[|root|..] && g == root + g[|root|..];
    assert Moved(root, isolated, f)[|isolated|..] == f[|root|..];
    assert Moved(root, isolated, g)[|isolated|..] == g[|root|..];
  }

  lemma MovedDirname(root: Path, isolated: Path, f: Path)
    requires root < f
    ensures root <= Dirname(f)
    ensures Dirname(Moved(root, isolated, f)) == Moved(root, isolated, Dirname(f))
  {
  }

  /** Two files keep their relative position: the path from one to the other leads from the
      copy of the one to the copy of the other. */
  lemma PositionsKept(root: Path, isolated: Path, f: Path, g: Path)
    requires root < f && root < g && Normalised(isolated) && Normalised(g)
    ensures Walk(Dirname(Moved(root, isolated, f)), Relative(Dirname(f), g)) == Moved(root, isolated, g)
  {
    MovedDirname(root, isolated, f);
    var a, b := Dirname(f)[|root|..], g[|root|..];
    assert Dirname(f) == root + a && g == root + b;
    RelativeMoves(root, isolated, a, b);
    RelativeLeadsBack(isolated + a, isolated + b);
  }

  // ---------------------------------------------------------------- imports in the copy

  /** Whether applying the segments ever climbs out of `root`. */
  predicate StaysInside(root: Path, pos: Path, segments: seq<string>)
    decreases |segments|
  {
    if segments == [] then true
    else if segments[0] == "" || segments[0] == "." then StaysInside(root, pos, segments[1..])
    else if segments[0] == ".." then |pos| > |root| && StaysInside(root, Dirname(pos), segments[1..])
    else StaysInside(root, pos + [segments[0]], segments[1..])
  }

  /** Inside the root, a walk does the same in both places. */
  lemma {:induction false} WalkMoves(root: Path, isolated: Path, r: Path, segments: seq<string>)
    requires StaysInside(root, root + r, segments)
    ensures root <= Walk(root + r, segments)
    ensures Walk(isolated + r, segments) == Moved(root, isolated, Walk(root + r, segments))
    decreases |segments|
  {
    if segments == [] {
      assert (root + r)[|root|..] == r;
    } else if segments[0] == "" || segments[0] == "." {
      WalkMoves(root, isolated, r, segments[1..]);
    } else if segments[0] == ".." {
      assert Dirname(root + r) == root + r[..|r| - 1] && Dirname(isolated + r) == isolated + r[..|r| - 1];
      WalkMoves(root, isolated, r[..|r| - 1], segments[1..]);
    } else {
      assert root + r + [segments[0]] == root + (r + [segments[0]]);
      assert isolated + r + [segments[0]] == isolated + (r + [segments[0]]);
      WalkMoves(root, isolated, r + [segments[0]], segments[1..]);
    }
  }

  /** Outside the isolated directory, a walk that does not name it does not come back. */
  lemma {:induction false} WalkStaysOut(isolated: Path, pos: Path, segments: seq<string>)
    requires isolated != [] && !(isolated <= pos) && isolated[|isolated| - 1] !in segments
    ensures !(isolated <= Walk(pos, segments))
    decreases |segments|
  {
    if segments != [] {
      if segments[0] == ".." {
        StillOut(isolated, pos);
        WalkStaysOut(isolated, Dirname(pos), segments[1..]);
      } else if segments[0] == "" || segments[0] == "." {
        WalkStaysOut(isolated, pos, segments[1..]);
      } else {
        StepStaysOut(isolated, pos, segments[0]);
        WalkStaysOut(isolated, pos + [segments[0]], segments[1..]);
      }
    }
  }

  lemma StillOut(isolated: Path, pos: Path)
    ensures isolated <= Dirname(pos) ==> isolated <= pos
  {
    if isolated <= Dirname(pos) {
      assert isolated == Dirname(pos)[..|isolated|] == pos[..|isolated|];
    }
  }

  lemma StepStaysOut(isolated: Path, pos: Path, name: string)
    requires isolated != [] && !(isolated <= pos) && name != isolated[|isolated| - 1]
    ensures !(isolated <= pos + [name])
  {
    if |isolated| <= |pos| {
      assert (pos + [name])[..|isolated|] == pos[..|isolated|];
    } else if |isolated| == |pos| + 1 {
      assert (pos + [name])[|pos|] == name;
    }
  }

  lemma {:induction false} WalkLeaves(root: Path, isolated: Path, r: Path, segments: seq<string>)
    requires !StaysInside(root, root + r, segments)
    requires isolated != [] && isolated[|isolated| - 1] !in segments
    ensures !(isolated <= Walk(isolated + r, segments))
    decreases |segments|
  {
    var rest := segments[1..];
    if segments[0] == "" || segments[0] == "." {
      WalkLeaves(root, isolated, r, rest);
    } else if segments[0] == ".." {
      if r == [] {
        assert isolated + r == isolated;
        WalkStaysOut(isolated, Dirname(isolated), rest);
      } else {
        assert Dirname(root + r) == root + r[..|r| - 1] && Dirname(isolated + r) == isolated + r[..|r| - 1];
        WalkLeaves(root, isolated, r[..|r| - 1], rest);
      }
    } else {
      assert root + r + [segments[0]] == root + (r + [segments[0]]);
      assert isolated + r + [segments[0]] == isolated + (r + [segments[0]]);
      WalkLeaves(root, isolated, r + [segments[0]], rest);
    }
  }

  // ---------------------------------------------------------------- candidates in the copy

  /** At or below the isolated directory, or beside it with its name and an extension. */
  predicate Named(isolated: Path, p: Path) {
    isolated <= p || exists extension :: extension in EXTENSIONS && p == Renamed(isolated, LastName(isolated) + extension)
  }

  /** The name of the isolated directory is new on the disk. */
  predicate Fresh(files: set<Path>, isolated: Path) {
    isolated != [] && forall f :: f in files ==> !Named(isolated, f)
  }

  /** `b` stands to the copied files as `a` stands to the originals. */
  predicate Corresponds(root: Path, isolated: Path, a: Path, b: Path) {
    (root < a && b == Moved(root, isolated, a)) || (!(root < a) && !(isolated < b) && Named(isolated, b))
  }

  ghost predicate AllCorrespond(root: Path, isolated: Path, a: seq<Path>, b: seq<Path>) {
    |a| == |b| && forall i :: 0 <= i < |a| ==> Corresponds(root, isolated, a[i], b[i])
  }

  lemma InCopy(root: Path, isolated: Path, files: seq<Path>, a: Path, b: Path)
    requires Inside(root, files) && Corresponds(root, isolated, a, b)
    ensures b in CopiedFiles(root, isolated, files) <==> a in files
  {
    if a in files {
      assert root < a;
    }
    if b in CopiedFiles(root, isolated, files) {
      var f :| f in files && b == Moved(root, isolated, f);
      assert isolated < b by {
        assert b[..|isolated|] == isolated && root < f;
      }
      if a != f {
        MovedInjective(root, isolated, a, f);
      }
    }
  }

  lemma MovedIsNamed(root: Path, isolated: Path, f: Path)
    requires root <= f
    ensures Named(isolated, Moved(root, isolated, f))
  {
    assert Moved(root, isolated, f)[..|isolated|] == isolated;
  }

  /** Resolving beside the originals finds the copy of what resolving finds among them. */
  lemma {:induction false} FirstFileMoves(root: Path, isolated: Path, disk: Disk, files: seq<Path>, a: seq<Path>, b: seq<Path>)
    requires Inside(root, files) && AllCorrespond(root, isolated, a, b) && Fresh(disk.files, isolated)
    requires forall f :: f in files ==> f in disk.files
    requires FirstFile(disk.files, a).Some? && FirstFile(disk.files, a).value in files
    ensures root < FirstFile(disk.files, a).value
    ensures FirstFile(disk.files + CopiedFiles(root, isolated, files), b) ==
            Some(Moved(root, isolated, FirstFile(disk.files, a).value))
  {
    InCopy(root, isolated, files, a[0], b[0]);
    if root < a[0] {
      MovedIsNamed(root, isolated, a[0]);
    }
    assert b[0] !in disk.files;
    if a[0] !in disk.files {
      FirstFileMoves(root, isolated, disk, files, a[1..], b[1..]);
    }
  }

  lemma CopyIsInside(root: Path, isolated: Path, files: seq<Path>)
    requires Inside(root, files)
    ensures forall c :: c in CopiedFiles(root, isolated, files) ==> isolated < c
  {
    forall c | c in CopiedFiles(root, isolated, files) ensures isolated < c {
      var f :| f in files && c == Moved(root, isolated, f);
      assert root < f && c[..|isolated|] == isolated;
    }
  }

  /** When no candidate lies in the copy, resolving finds what it would find without it. */
  lemma {:induction false} CopyIgnored(root: Path, isolated: Path, disk: Disk, files: seq<Path>, b: seq<Path>)
    requires Inside(root, files) && forall i :: 0 <= i < |b| ==> !(isolated < b[i])
    ensures FirstFile(disk.files + CopiedFiles(root, isolated, files), b) == FirstFile(disk.files, b)
  {
    CopyIsInside(root, isolated, files);
    if b != [] {
      CopyIgnored(root, isolated, disk, files, b[1..]);
    }
  }

  lemma RenamedMoves(root: Path, isolated: Path, p: Path, name: string)
    requires root < p
    ensures root < Renamed(p, name) && Renamed(Moved(root, isolated, p), name) == Moved(root, isolated, Renamed(p, name))
  {
    MovedDirname(root, isolated, p);
    var d := Dirname(p);
    assert (d + [name])[|root|..] == d[|root|..] + [name];
  }

  lemma {:induction false} ExtensionsMove(root: Path, isolated: Path, p: Path, stem: string, extensions: seq<string>)
    requires root < p
    ensures AllCorrespond(root, isolated, WithExtensions(p, stem, extensions),
                          WithExtensions(Moved(root, isolated, p), stem, extensions))
  {
    if extensions != [] {
      ExtensionsMove(root, isolated, p, stem, extensions[1..]);
      RenamedMoves(root, isolated, p, stem + extensions[0]);
    }
  }

  lemma IndexMoves(root: Path, isolated: Path, p: Path, name: string)
    requires root <= p
    ensures Corresponds(root, isolated, p + [name], Moved(root, isolated, p) + [name])
  {
    assert (p + [name])[|root|..] == p[|root|..] + [name];
    assert root < p + [name];
  }

  lemma CorrespondMore(root: Path, isolated: Path, a0: Path, b0: Path, a1: Path, b1: Path, a: seq<Path>, b: seq<Path>)
    requires Corresponds(root, isolated, a0, b0) && Corresponds(root, isolated, a1, b1) && AllCorrespond(root, isolated, a, b)
    ensures AllCorrespond(root, isolated, [a0, a1] + a, [b0, b1] + b)
  {
  }

  lemma {:induction false} IndexesMove(root: Path, isolated: Path, p: Path, extensions: seq<string>)
    requires root < p
    ensures AllCorrespond(root, isolated, FilesAndIndexes(p, extensions), FilesAndIndexes(Moved(root, isolated, p), extensions))
  {
    if extensions != [] {
      var q, rest := Moved(root, isolated, p), extensions[1..];
      IndexesMove(root, isolated, p, rest);
      assert LastName(q) == LastName(p);
      RenamedMoves(root, isolated, p, LastName(p) + extensions[0]);
      IndexMoves(root, isolated, p, "index" + extensions[0]);
      CorrespondMore(root, isolated, Renamed(p, LastName(p) + extensions[0]), Renamed(q, LastName(q) + extensions[0]),
                     p + ["index" + extensions[0]], q + ["index" + extensions[0]],
                     FilesAndIndexes(p, rest), FilesAndIndexes(q, rest));
    }
  }

  /** A sibling of a directory is not inside it. */
  lemma SiblingOutside(p: Path, name: string)
    requires p != []
    ensures !(p < Renamed(p, name))
  {
  }

  lemma {:induction false} RootIndexesMove(root: Path, isolated: Path, extensions: seq<string>)
    requires root != [] && isolated != [] && forall extension :: extension in extensions ==> extension in EXTENSIONS
    ensures AllCorrespond(root, isolated, FilesAndIndexes(root, extensions), FilesAndIndexes(isolated, extensions))
  {
    if extensions != [] {
      assert extensions[0] in extensions;
      RootIndexesMove(root, isolated, extensions[1..]);
      SiblingOutside(root, LastName(root) + extensions[0]);
      SiblingOutside(isolated, LastName(isolated) + extensions[0]);
      IndexMoves(root, isolated, root, "index" + extensions[0]);
      assert Moved(root, isolated, root) == isolated;
    }
  }

  lemma {:induction false} SiblingsOnly(p: Path, q: Path, stem: string, extensions: seq<string>)
    requires q != [] && !(q < p)
    ensures forall i :: 0 <= i < |WithExtensions(p, stem, extensions)| ==> !(q < WithExtensions(p, stem, extensions)[i])
  {
    if extensions != [] {
      SiblingsOnly(p, q, stem, extensions[1..]);
      OutsideRenamed(p, q, stem + extensions[0]);
    }
  }

  lemma OutsideRenamed(p: Path, q: Path, name: string)
    ensures q != [] && q < Renamed(p, name) ==> q < p
  {
    if q != [] && q < Renamed(p, name) {
      assert q == Renamed(p, name)[..|q|] == Dirname(p)[..|q|];
      assert Dirname(p)[..|q|] == p[..|q|];
    }
  }

  lemma OutsideChild(p: Path, q: Path, name: string)
    ensures q < p + [name] ==> q <= p
  {
    if q < p + [name] {
      assert q == (p + [name])[..|q|] == p[..|q|];
    }
  }

  lemma {:induction false} OutsideOnly(p: Path, q: Path, extensions: seq<string>)
    requires q != [] && !(q <= p)
    ensures forall i :: 0 <= i < |FilesAndIndexes(p, extensions)| ==> !(q < FilesAndIndexes(p, extensions)[i])
  {
    if extensions != [] {
      OutsideOnly(p, q, extensions[1..]);
      OutsideRenamed(p, q, LastName(p) + extensions[0]);
      OutsideChild(p, q, "index" + extensions[0]);
    }
  }

  // ---------------------------------------------------------------- when a copied import resolves

  /** The condition under which a specifier still resolves: applying it from the importing
      file's directory never climbs out of the copied root, and if it names that root itself
      the isolated directory's name must not look like it has an extension. */
  predicate Portable(root: Path, isolated: Path, fromFile: Path, specifier: string) {
    && StaysInside(root, Dirname(fromFile), Split(specifier, '/'))
    && (Resolve(Dirname(fromFile), specifier) == root ==> Extname(isolated) == "")
  }

  lemma CandidatesCorrespond(root: Path, isolated: Path, base: Path)
    requires root != [] && isolated != [] && root <= base
    requires base == root ==> Extname(isolated) == "" && Extname(root) == ""
    ensures AllCorrespond(root, isolated, ResolveImportCandidates(base), ResolveImportCandidates(Moved(root, isolated, base)))
  {
    var moved := Moved(root, isolated, base);
    if base == root {
      assert moved == isolated;
      RootIndexesMove(root, isolated, EXTENSIONS);
    } else {
      assert LastName(moved) == LastName(base);
      ExtensionsMove(root, isolated, base, Stem(LastName(base)), EXTENSIONS);
      IndexesMove(root, isolated, base, EXTENSIONS);
    }
  }

  lemma CandidatesOutside(isolated: Path, base: Path)
    requires isolated != [] && (!(isolated <= base) || (base == isolated && Extname(isolated) != ""))
    ensures forall i :: 0 <= i < |ResolveImportCandidates(base)| ==> !(isolated < ResolveImportCandidates(base)[i])
  {
    SiblingsOnly(base, isolated, Stem(LastName(base)), EXTENSIONS);
    if !(isolated <= base) {
      OutsideOnly(base, isolated, EXTENSIONS);
    }
  }

  /** An import of the root directory that finds a file inside it finds an index file, so
      the root's name has no extension. */
  lemma RootImportHasNoExtension(root: Path, files: set<Path>)
    requires root != [] && FirstFile(files, ResolveImportCandidates(root)).Some?
    requires root < FirstFile(files, ResolveImportCandidates(root)).value
    ensures Extname(root) == ""
  {
    if Extname(root) != "" {
      CandidatesOutside(root, root);
    }
  }

  /** With the copy on the disk, an import of a copied file resolves to the copy of its target
      exactly when its specifier is portable.  Otherwise the copy plays no part: it resolves to
      whatever lies there outside, which can be the original, or not at all.  No specifier
      mentions the name of the isolated directory. */
  lemma CopiedImport(root: Path, isolated: Path, disk: Disk, files: seq<Path>, fromFile: Path, specifier: string)
    requires Inside(root, files) && fromFile in files && root != []
    requires forall f :: f in files ==> f in disk.files
    requires ResolveImport(disk.files, fromFile, specifier).Some?
    requires ResolveImport(disk.files, fromFile, specifier).value in files
    requires Fresh(disk.files, isolated) && isolated[|isolated| - 1] !in Split(specifier, '/')
    ensures var target := ResolveImport(disk.files, fromFile, specifier).value;
            var found := ResolveImport(disk.files + CopiedFiles(root, isolated, files), Moved(root, isolated, fromFile), specifier);
            && root < target
            && (found == Some(Moved(root, isolated, target)) <==> Portable(root, isolated, fromFile, specifier))
            && (!Portable(root, isolated, fromFile, specifier) ==>
                  && found == ResolveImport(disk.files, Moved(root, isolated, fromFile), specifier)
                  && (found.Some? ==> !(isolated <= found.value)))
  {
    var segments, dir := Split(specifier, '/'), Dirname(fromFile);
    assert root < fromFile;
    MovedDirname(root, isolated, fromFile);
    var r := dir[|root|..];
    assert dir == root + r && Moved(root, isolated, dir) == isolated + r;
    var base, moved := Resolve(dir, specifier), Resolve(isolated + r, specifier);
    var target := ResolveImport(disk.files, fromFile, specifier).value;
    assert root < target;
    MovedIsNamed(root, isolated, target);
    if Portable(root, isolated, fromFile, specifier) {
      WalkMoves(root, isolated, r, segments);
      if base == root {
        RootImportHasNoExtension(root, disk.files);
      }
      CandidatesCorrespond(root, isolated, base);
      FirstFileMoves(root, isolated, disk, files, ResolveImportCandidates(base), ResolveImportCandidates(moved));
    } else {
      NotPortable(root, isolated, fromFile, specifier);
      CandidatesOutside(isolated, moved);
      CopyIgnored(root, isolated, disk, files, ResolveImportCandidates(moved));
    }
  }

  lemma NotPortable(root: Path, isolated: Path, fromFile: Path, specifier: string)
    requires root < fromFile && isolated != [] && isolated[|isolated| - 1] !in Split(specifier, '/')
    requires !Portable(root, isolated, fromFile, specifier)
    ensures var moved := Resolve(Dirname(Moved(root, isolated, fromFile)), specifier);
            !(isolated <= moved) || (moved == isolated && Extname(isolated) != "")
  {
    var segments, dir := Split(specifier, '/'), Dirname(fromFile);
    MovedDirname(root, isolated, fromFile);
    var r := dir[|root|..];
    assert dir == root + r && Moved(root, isolated, dir) == isolated + r;
    if StaysInside(root, dir, segments) {
      WalkMoves(root, isolated, r, segments);
    } else {
      WalkLeaves(root, isolated, r, segments);
    }
  }

  /** Walking two directories up and then down again. */
  lemma ClimbTwice(repo: Path, upper: string, lower: string, names: seq<string>)
    requires Normalised(names)
    ensures Walk(repo + [upper, lower], ["..", ".."] + names) == repo + names
  {
    var pos := repo + [upper, lower];
    assert Parents(2) == [".."] + Parents(1) && Parents(1) == [".."] + Parents(0);
    assert Parents(2) + names == ["..", ".."] + names;
    assert pos[..|pos| - 2] == repo;
    WalkParents(pos, 2, names);
    WalkNames(repo, names);
  }

  lemma OtherBranchIsFresh(repo: Path, cache: string, tag: string, files: set<Path>)
    requires forall f :: f in files ==> |f| == |repo| + 3 && f[|repo|] != cache
    ensures Fresh(files, repo + [cache, tag])
  {
    var isolated := repo + [cache, tag];
    forall f | f in files ensures !Named(isolated, f) {
      assert isolated[|repo|] == cache;
      assert forall name :: |Renamed(isolated, name)| == |repo| + 2;
    }
  }

  lemma FoundAtOnce(files: set<Path>, fromFile: Path, specifier: string)
    requires Resolve(Dirname(fromFile), specifier) in files
    ensures ResolveImport(files, fromFile, specifier) == Some(Resolve(Dirname(fromFile), specifier))
  {
  }

  /** A specifier that climbs out of the copied directory and names it finds the original:
      the copy lies as deep in the repository as the directory it was taken from. */
  lemma OriginalFound(repo: Path, upper: string, lower: string, cache: string, tag: string, a: string, x: string,
                      specifier: string)
    requires Normalised([upper, lower, x]) && cache != upper
    requires Split(specifier, '/') == ["..", ".."] + [upper, lower, x]
    ensures var root, isolated := repo + [upper, lower], repo + [cache, tag];
            var files := {root + [a], root + [x]};
            && Inside(root, [root + [a], root + [x]]) && Fresh(files, isolated)
            && ResolveImport(files, root + [a], specifier) == Some(root + [x])
            && ResolveImport(files + CopiedFiles(root, isolated, [root + [a], root + [x]]),
                             Moved(root, isolated, root + [a]), specifier) == Some(root + [x])
  {
    var root, isolated, names := repo + [upper, lower], repo + [cache, tag], [upper, lower, x];
    var files, copied := {root + [a], root + [x]}, CopiedFiles(root, isolated, [root + [a], root + [x]]);
    ClimbTwice(repo, upper, lower, names);
    ClimbTwice(repo, cache, tag, names);
    assert repo + names == root + [x];
    OtherBranchIsFresh(repo, cache, tag, files);
    assert Dirname(root + [a]) == root && Moved(root, isolated, root + [a]) == isolated + [a];
    assert Dirname(isolated + [a]) == isolated;
    FoundAtOnce(files, root + [a], specifier);
    FoundAtOnce(files + copied, isolated + [a], specifier);
  }

  lemma OriginalStillFound() returns (specifier: string)
    ensures var root, isolated := ["repo", "extensions", "foo"], ["repo", ".openclaw-config-doc-cache", "foo-a1"];
            var a, x := root + ["a.ts"], root + ["x.ts"];
            && Split(specifier, '/') == ["..", "..", "extensions", "foo", "x.ts"]
            && Inside(root, [a, x]) && Fresh({a, x}, isolated)
            && ResolveImport({a, x}, a, specifier) == Some(x)
            && ResolveImport({a, x} + CopiedFiles(root, isolated, [a, x]), Moved(root, isolated, a), specifier) == Some(x)
  {
    var repo, names := ["repo"], ["extensions", "foo", "x.ts"];
    var parts := ["..", "..", "extensions", "foo", "x.ts"];
    specifier := Join(parts, "/");
    SplitJoin(parts, '/');
    assert ["..", ".."] + names == parts;
    assert repo + ["extensions", "foo"] == ["repo", "extensions", "foo"];
    assert repo + [".openclaw-config-doc-cache", "foo-a1"] == ["repo", ".openclaw-config-doc-cache", "foo-a1"];
    OriginalFound(repo, "extensions", "foo", ".openclaw-config-doc-cache", "foo-a1", "a.ts", "x.ts", specifier);
  }

  // ---------------------------------------------------------------- the whole operation

  lemma AllInside(root: Path, d: Path, files: seq<Path>)
    requires forall f :: f in files ==> d <= f
    requires forall f :: f in files ==> !(f <= root)
    requires d <= root
    ensures Inside(d, files)
  {
    forall f | f in files ensures d < f {
      assert d <= f && !(f <= root);
    }
  }

  /** What `copyModuleImportGraphWithoutNodeModules` copies, from where and to where. */
  datatype Copy = Copy(root: Path, files: seq<Path>, targets: seq<Path>, copiedModule: Path)

  ghost predicate CopyCorrect(disk: Disk, packageRoot: Path, modulePath: Path, isolatedRoot: Path, c: Copy) {
    && c.root == Deepest(packageRoot, c.files) && Inside(c.root, c.files)
    && (forall f :: f in c.files <==> Reach(ImportGraph(disk), modulePath, f))
    && (forall f :: f in c.files ==> f in disk.files)
    && |c.targets| == |c.files| && NoRepeats(c.targets)
    && (forall i :: 0 <= i < |c.files| ==>
          c.files[i] in c.files && c.targets[i] == Moved(c.root, isolatedRoot, c.files[i]))
    && modulePath in c.files && c.copiedModule == Moved(c.root, isolatedRoot, modulePath)
  }

  method ResolveCopyRoot(packageRoot: Path, files: seq<Path>) returns (copyRoot: Path)
    requires Normalised(packageRoot) && forall f :: f in files ==> Normalised(f) && !(f <= packageRoot)
    ensures copyRoot == Deepest(packageRoot, files) && Inside(copyRoot, files)
  {
    var ancestor := ResolveCommonAncestor([packageRoot] + files);
    assert ([packageRoot] + files)[1..] == files;
    AncestorOfFiles(packageRoot, files);
    DeepestIsCommon(packageRoot, files);
    copyRoot := ancestor.value;
    AllInside(packageRoot, copyRoot, files);
  }

  /** The package root is a directory, so no file lies at or above it. */
  method CopyModuleImportGraph(disk: Disk, packageRoot: Path, modulePath: Path, isolatedRoot: Path) returns (r: Option<Copy>)
    requires WellFormed(disk) && Normalised(packageRoot) && Normalised(isolatedRoot)
    requires forall f :: f in disk.files ==> !(f <= packageRoot)
    ensures r.None? <==> modulePath !in disk.files
    ensures r.Some? ==> CopyCorrect(disk, packageRoot, modulePath, isolatedRoot, r.value)
  {
    var collected := CollectRelativeImportGraph(disk, modulePath);
    if collected.None? {
      return None;
    }
    var relativeFiles := collected.value;
    var copyRoot := ResolveCopyRoot(packageRoot, relativeFiles);
    ReachSelf(ImportGraph(disk), modulePath);
    assert modulePath in relativeFiles;
    MovedByRelativePath(copyRoot, isolatedRoot, modulePath);
    var relativeModulePath := Relative(copyRoot, modulePath);
    var targets := CopyFiles(copyRoot, isolatedRoot, relativeFiles);
    return Some(Copy(copyRoot, relativeFiles, targets, Walk(isolatedRoot, relativeModulePath)));
  }

  /** What a copied file imports is copied too, and in the copy each of its specifiers that
      resolved finds the copy of its target exactly when it is portable. */
  lemma CopyResolves(disk: Disk, packageRoot: Path, modulePath: Path, isolated: Path, c: Copy, f: Path, specifier: string)
    requires WellFormed(disk) && CopyCorrect(disk, packageRoot, modulePath, isolated, c) && c.root != []
    requires f in c.files && specifier in disk.imports[f] && StartsWith(specifier, ".")
    requires ResolveImport(disk.files, f, specifier).Some?
    requires Fresh(disk.files, isolated) && isolated[|isolated| - 1] !in Split(specifier, '/')
    ensures var target := ResolveImport(disk.files, f, specifier).value;
            var found := ResolveImport(disk.files + CopiedFiles(c.root, isolated, c.files), Moved(c.root, isolated, f), specifier);
            && target in c.files && c.root < target
            && (found == Some(Moved(c.root, isolated, target)) <==> Portable(c.root, isolated, f, specifier))
  {
    var g, target := ImportGraph(disk), ResolveImport(disk.files, f, specifier).value;
    TargetOf(disk, f, disk.imports[f], specifier);
    assert Edge(g, f, target);
    ReachEdge(g, f, target);
    ReachTrans(g, modulePath, f, target);
    CopiedImport(c.root, isolated, disk, c.files, f, specifier);
  }
}
