/** Which file a relative specifier finds and which files an entry needs
    (scripts/load-channel-config-surface.ts), said of the files on the disk. */
module ImportResolution {
  import opened Wrappers
  import opened JsText
  import opened Paths
  import opened Digraph
  import opened ImportSurface

  /** The first of the candidates that is a file. */
  ghost predicate FirstOf(files: set<Path>, candidates: seq<Path>, r: Option<Path>) {
    match r
    case None => forall c :: c in candidates ==> c !in files
    case Some(p) =>
      p in files && exists i :: 0 <= i < |candidates| && candidates[i] == p && forall j :: 0 <= j < i ==> candidates[j] !in files
  }

  lemma {:induction false} FirstFileIsFirst(files: set<Path>, candidates: seq<Path>)
    ensures FirstOf(files, candidates, FirstFile(files, candidates))
  {
    if candidates != [] {
      var rest := candidates[1..];
      assert candidates == [candidates[0]] + rest;
      if candidates[0] !in files {
        FirstFileIsFirst(files, rest);
        var r := FirstFile(files, rest);
        if r.Some? {
          var i :| 0 <= i < |rest| && rest[i] == r.value && forall j :: 0 <= j < i ==> rest[j] !in files;
          assert candidates[i + 1] == r.value;
          assert forall j :: 0 < j < i + 1 ==> candidates[j] == rest[j - 1];
        }
      }
    }
  }

  lemma {:induction false} WithExtensionsAt(dir: Path, name: string, stem: string, extensions: seq<string>)
    ensures var candidates := WithExtensions(dir + [name], stem, extensions);
            && |candidates| == |extensions|
            && forall i :: 0 <= i < |extensions| ==> candidates[i] == dir + [stem + extensions[i]]
  {
    if extensions != [] {
      WithExtensionsAt(dir, name, stem, extensions[1..]);
    }
  }

  /** The files with the name come at even places, the index files at odd ones. */
  ghost function FileOrIndex(dir: Path, name: string, sources: seq<string>, k: nat): Path
    requires k < 2 * |sources|
  {
    if k % 2 == 0 then dir + [name + sources[k / 2]] else dir + [name, "index" + sources[k / 2]]
  }

  lemma {:induction false} FilesAndIndexesAt(dir: Path, name: string, sources: seq<string>)
    ensures var candidates := FilesAndIndexes(dir + [name], sources);
            && |candidates| == 2 * |sources|
            && forall k :: 0 <= k < 2 * |sources| ==> candidates[k] == FileOrIndex(dir, name, sources, k)
  {
    if sources != [] {
      var rest := sources[1..];
      var candidates, more := FilesAndIndexes(dir + [name], sources), FilesAndIndexes(dir + [name], rest);
      FilesAndIndexesAt(dir, name, rest);
      assert dir + [name] + ["index" + sources[0]] == dir + [name, "index" + sources[0]];
      forall k | 0 <= k < 2 * |sources| ensures candidates[k] == FileOrIndex(dir, name, sources, k) {
        if k >= 2 {
          assert candidates[k] == more[k - 2] && FileOrIndex(dir, name, rest, k - 2) == FileOrIndex(dir, name, sources, k);
        }
      }
    }
  }

  lemma {:induction false} LastDotIs(name: string, n: int)
    requires -1 <= n < |name| && (n >= 0 ==> name[n] == '.') && forall i :: n < i < |name| ==> name[i] != '.'
    ensures LastDot(name) == n
  {
    if n < |name| - 1 {
      LastDotIs(name[..|name| - 1], n);
    }
  }

  /** With an extension: the file itself, then the same stem with each source extension. */
  ghost function TriedWith(dir: Path, stem: string, extension: string, sources: seq<string>): seq<Path> {
    [dir + [stem + "." + extension]] + seq(|sources|, i requires 0 <= i < |sources| => dir + [stem + sources[i]])
  }

  /** Without one: the file itself, then for each source extension the file with it and the
      index file of the directory. */
  ghost function TriedWithout(dir: Path, name: string, sources: seq<string>): seq<Path> {
    [dir + [name]] + seq(2 * |sources|, k requires 0 <= k < 2 * |sources| => FileOrIndex(dir, name, sources, k))
  }

  lemma CandidatesWith(dir: Path, stem: string, extension: string)
    requires stem != "" && '.' !in extension
    ensures ResolveImportCandidates(dir + [stem + "." + extension]) == TriedWith(dir, stem, extension, EXTENSIONS)
  {
    var name := stem + "." + extension;
    LastDotIs(name, |stem|);
    assert name[..|stem|] == stem;
    SiblingsTried(dir, stem, extension, EXTENSIONS);
  }

  lemma SiblingsTried(dir: Path, stem: string, extension: string, sources: seq<string>)
    ensures var name := stem + "." + extension;
            [dir + [name]] + WithExtensions(dir + [name], stem, sources) == TriedWith(dir, stem, extension, sources)
  {
    WithExtensionsAt(dir, stem + "." + extension, stem, sources);
  }

  lemma CandidatesWithout(dir: Path, name: string)
    requires forall i :: 0 < i < |name| ==> name[i] != '.'
    ensures ResolveImportCandidates(dir + [name]) == TriedWithout(dir, name, EXTENSIONS)
  {
    LastDotIs(name, if name != "" && name[0] == '.' then 0 else -1);
    IndexesTried(dir, name, EXTENSIONS);
  }

  lemma IndexesTried(dir: Path, name: string, sources: seq<string>)
    ensures [dir + [name]] + FilesAndIndexes(dir + [name], sources) == TriedWithout(dir, name, sources)
  {
    FilesAndIndexesAt(dir, name, sources);
  }

  /** What a specifier finds is the first file of those that should be tried. */
  lemma ImportWithExtension(files: set<Path>, fromFile: Path, specifier: string, dir: Path, stem: string, extension: string)
    requires Resolve(Dirname(fromFile), specifier) == dir + [stem + "." + extension] && stem != "" && '.' !in extension
    ensures FirstOf(files, TriedWith(dir, stem, extension, EXTENSIONS), ResolveImport(files, fromFile, specifier))
  {
    CandidatesWith(dir, stem, extension);
    FirstFileIsFirst(files, TriedWith(dir, stem, extension, EXTENSIONS));
  }

  lemma ImportWithoutExtension(files: set<Path>, fromFile: Path, specifier: string, dir: Path, name: string)
    requires Resolve(Dirname(fromFile), specifier) == dir + [name] && forall i :: 0 < i < |name| ==> name[i] != '.'
    ensures FirstOf(files, TriedWithout(dir, name, EXTENSIONS), ResolveImport(files, fromFile, specifier))
  {
    CandidatesWithout(dir, name);
    FirstFileIsFirst(files, TriedWithout(dir, name, EXTENSIONS));
  }

  /** `./stem.js` finds `stem.ts` beside the importing file when there is no `stem.js`. */
  lemma JsImportFindsTs(files: set<Path>, dir: Path, file: string, stem: string)
    requires stem != "" && '/' !in stem
    requires dir + [stem + ".js"] !in files && dir + [stem + ".ts"] in files
    ensures ResolveImport(files, dir + [file], Join([".", stem + ".js"], "/")) == Some(dir + [stem + ".ts"])
  {
    JsName(stem);
    assert ["."] + [stem + ".js"] == [".", stem + ".js"];
    ResolveDown(dir, [stem + ".js"]);
    ImportWithExtension(files, dir + [file], Join([".", stem + ".js"], "/"), dir, stem, "js");
    SecondTried(files, TriedWith(dir, stem, "js", EXTENSIONS), ResolveImport(files, dir + [file], Join([".", stem + ".js"], "/")));
  }

  lemma JsName(stem: string)
    requires stem != ""
    ensures stem + ".js" == stem + "." + "js" && IsName(stem + ".js") && ('/' in stem + ".js" ==> '/' in stem)
  {
    var name := stem + ".js";
    assert name[|stem|] == '.' && name[|stem| + 1] == 'j';
  }

  lemma SecondTried(files: set<Path>, tried: seq<Path>, r: Option<Path>)
    requires FirstOf(files, tried, r) && |tried| > 1 && tried[0] !in files && tried[1] in files
    ensures r == Some(tried[1])
  {
  }

  // ---------------------------------------------------------------- the files that are needed

  predicate LeadsTo(disk: Disk, f: Path, specifier: string, t: Path) {
    specifier != "" && specifier[0] == '.' && ResolveImport(disk.files, f, specifier) == Some(t)
  }

  /** `f` imports `t` by a specifier that starts with a dot. */
  ghost predicate Imports(disk: Disk, f: Path, t: Path) {
    f in disk.imports && exists specifier :: specifier in disk.imports[f] && LeadsTo(disk, f, specifier, t)
  }

  lemma TargetsLast(disk: Disk, f: Path, front: seq<string>, last: string, t: Path)
    ensures t in Targets(disk, f, front + [last]) <==> t in Targets(disk, f, front) || LeadsTo(disk, f, last, t)
  {
    assert (front + [last])[..|front|] == front;
    assert StartsWith(last, ".") <==> last != "" && last[0] == '.';
  }

  lemma {:induction false} TargetsExactly(disk: Disk, f: Path, specifiers: seq<string>, t: Path)
    ensures t in Targets(disk, f, specifiers) <==>
            exists specifier :: specifier in specifiers && LeadsTo(disk, f, specifier, t)
  {
    if specifiers != [] {
      var front, last := specifiers[..|specifiers| - 1], specifiers[|specifiers| - 1];
      assert specifiers == front + [last];
      TargetsExactly(disk, f, front, t);
      TargetsLast(disk, f, front, last, t);
    }
  }

  /** The files that are needed are the least set with the entry and all that its members
      import by relative specifiers. */
  lemma NeededExactly(disk: Disk, entry: Path, needed: seq<Path>, other: set<Path>)
    requires WellFormed(disk) && forall f :: f in needed <==> Reach(ImportGraph(disk), entry, f)
    requires entry in disk.files
    ensures entry in needed && forall f, t {:trigger Imports(disk, f, t)} :: f in needed && Imports(disk, f, t) ==> t in needed
    ensures entry in other && (forall f, t {:trigger Imports(disk, f, t)} :: f in other && Imports(disk, f, t) ==> t in other) ==>
              forall f :: f in needed ==> f in other
  {
    var g := ImportGraph(disk);
    forall f, t ensures Edge(g, f, t) <==> Imports(disk, f, t) {
      if f in disk.imports {
        TargetsExactly(disk, f, disk.imports[f], t);
      }
    }
    ReachSelf(g, entry);
    forall f, t {:trigger Imports(disk, f, t)} | f in needed && Imports(disk, f, t) ensures t in needed {
      assert Edge(g, f, t);
      ReachEdge(g, f, t);
      ReachTrans(g, entry, f, t);
    }
    if entry in other && forall f, t {:trigger Imports(disk, f, t)} :: f in other && Imports(disk, f, t) ==> t in other {
      assert Closed(g, other);
      forall f | f in needed ensures f in other {
        ClosedReach(g, other, entry, f);
      }
    }
  }
}
