/** The argument normalisers of the Claude CLI backend (extensions/anthropic/cli-shared.ts).

    Each loop drops and rewrites arguments by looking one ahead, and they run one after the
    other; together they amount to a single pass. */
module ClaudeArgs {
  import opened Wrappers
  import opened JsText

  datatype Flags = Flags(skip: string, mode: string, bypass: string, sources: string, user: string)

  const CLAUDE := Flags("--dangerously-skip-permissions", "--permission-mode", "bypassPermissions", "--setting-sources", "user")

  /** What follows a flag counts as its value. */
  predicate IsValue(s: string) {
    !IsBlank(s) && !StartsWith(s, "-")
  }

  predicate HasValue(args: seq<string>) {
    |args| > 1 && IsValue(args[1])
  }

  predicate IsModeAssignment(w: Flags, arg: string) {
    StartsWith(arg, w.mode + "=")
  }

  predicate IsSourcesAssignment(w: Flags, arg: string) {
    StartsWith(arg, w.sources + "=")
  }

  // ---------------------------------------------------------------- the two loops

  /** What the permission loop keeps, and whether it saw a permission mode. */
  function PermissionLoop(w: Flags, args: seq<string>): (seq<string>, bool)
    decreases |args|
  {
    if args == [] then ([], false)
    else if args[0] == w.skip then PermissionLoop(w, args[1..])
    else if args[0] == w.mode then
      if HasValue(args) then ([args[0], args[1]] + PermissionLoop(w, args[2..]).0, true) else PermissionLoop(w, args[1..])
    else ([args[0]] + PermissionLoop(w, args[1..]).0, IsModeAssignment(w, args[0]) || PermissionLoop(w, args[1..]).1)
  }

  function SourcesLoop(w: Flags, args: seq<string>): (seq<string>, bool)
    decreases |args|
  {
    if args == [] then ([], false)
    else if args[0] == w.sources then
      if HasValue(args) then ([args[0], w.user] + SourcesLoop(w, args[2..]).0, true) else SourcesLoop(w, args[1..])
    else if IsSourcesAssignment(w, args[0]) then ([w.sources + "=" + w.user] + SourcesLoop(w, args[1..]).0, true)
    else ([args[0]] + SourcesLoop(w, args[1..]).0, SourcesLoop(w, args[1..]).1)
  }

  function PermissionArgs(w: Flags, args: seq<string>): seq<string> {
    PermissionLoop(w, args).0 + if PermissionLoop(w, args).1 then [] else [w.mode, w.bypass]
  }

  function SourcesArgs(w: Flags, args: seq<string>): seq<string> {
    SourcesLoop(w, args).0 + if SourcesLoop(w, args).1 then [] else [w.sources, w.user]
  }

  function NormalizedArgs(w: Flags, args: seq<string>): seq<string> {
    PermissionArgs(w, SourcesArgs(w, args))
  }

  method NormalizeClaudePermissionArgs(w: Flags, args: Option<seq<string>>) returns (r: Option<seq<string>>)
    ensures r == match args case None => None case Some(a) => Some(PermissionArgs(w, a))
  {
    if args.None? {
      return None;
    }
    var list := args.value;
    var normalized: seq<string> := [];
    var hasPermissionMode := false;
    var i := 0;
    while i < |list|
      invariant i <= |list|
      invariant normalized + PermissionLoop(w, list[i..]).0 == PermissionLoop(w, list).0
      invariant (hasPermissionMode || PermissionLoop(w, list[i..]).1) == PermissionLoop(w, list).1
      decreases |list| - i
    {
      var arg := list[i];
      ghost var rest := list[i..];
      assert rest[0] == arg && rest[1..] == list[i + 1..] && (|rest| > 1 ==> rest[1] == list[i + 1] && rest[2..] == list[i + 2..]);
      if arg == w.skip {
        i := i + 1;
        continue;
      }
      if arg == w.mode {
        if i + 1 < |list| && IsValue(list[i + 1]) {
          hasPermissionMode := true;
          PushTwo(normalized, arg, list[i + 1], PermissionLoop(w, list[i + 2..]).0);
          normalized := normalized + [arg];
          normalized := normalized + [list[i + 1]];
          i := i + 1;
        }
        i := i + 1;
        continue;
      }
      if IsModeAssignment(w, arg) {
        hasPermissionMode := true;
      }
      PushOne(normalized, arg, PermissionLoop(w, list[i + 1..]).0);
      normalized := normalized + [arg];
      i := i + 1;
    }
    assert list[i..] == [] && normalized + [] == normalized && list[0..] == list;
    if !hasPermissionMode {
      normalized := normalized + [w.mode, w.bypass];
    }
    return Some(normalized);
  }

  lemma PushOne(s: seq<string>, a: string, rest: seq<string>)
    ensures s + ([a] + rest) == (s + [a]) + rest
  {
  }

  lemma PushTwo(s: seq<string>, a: string, b: string, rest: seq<string>)
    ensures s + ([a, b] + rest) == ((s + [a]) + [b]) + rest
  {
  }

  method NormalizeClaudeSettingSourcesArgs(w: Flags, args: Option<seq<string>>) returns (r: Option<seq<string>>)
    ensures r == match args case None => None case Some(a) => Some(SourcesArgs(w, a))
  {
    if args.None? {
      return None;
    }
    var list := args.value;
    var normalized: seq<string> := [];
    var hasSettingSources := false;
    var i := 0;
    while i < |list|
      invariant i <= |list|
      invariant normalized + SourcesLoop(w, list[i..]).0 == SourcesLoop(w, list).0
      invariant (hasSettingSources || SourcesLoop(w, list[i..]).1) == SourcesLoop(w, list).1
      decreases |list| - i
    {
      var arg := list[i];
      ghost var rest := list[i..];
      assert rest[0] == arg && rest[1..] == list[i + 1..] && (|rest| > 1 ==> rest[1] == list[i + 1] && rest[2..] == list[i + 2..]);
      if arg == w.sources {
        if i + 1 < |list| && IsValue(list[i + 1]) {
          hasSettingSources := true;
          PushTwo(normalized, arg, w.user, SourcesLoop(w, list[i + 2..]).0);
          normalized := normalized + [arg] + [w.user];
          i := i + 1;
        }
        i := i + 1;
        continue;
      }
      if IsSourcesAssignment(w, arg) {
        hasSettingSources := true;
        PushOne(normalized, w.sources + "=" + w.user, SourcesLoop(w, list[i + 1..]).0);
        normalized := normalized + [w.sources + "=" + w.user];
        i := i + 1;
        continue;
      }
      PushOne(normalized, arg, SourcesLoop(w, list[i + 1..]).0);
      normalized := normalized + [arg];
      i := i + 1;
    }
    assert list[i..] == [] && normalized + [] == normalized && list[0..] == list;
    if !hasSettingSources {
      normalized := normalized + [w.sources, w.user];
    }
    return Some(normalized);
  }

  datatype BackendConfig = BackendConfig(args: Option<seq<string>>, resumeArgs: Option<seq<string>>, other: string)

  method NormalizeClaudeBackendConfig(w: Flags, config: BackendConfig) returns (r: BackendConfig)
    ensures r.other == config.other
    ensures r.args == match config.args case None => None case Some(a) => Some(NormalizedArgs(w, a))
    ensures r.resumeArgs == match config.resumeArgs case None => None case Some(a) => Some(NormalizedArgs(w, a))
  {
    var args := NormalizeClaudeSettingSourcesArgs(w, config.args);
    args := NormalizeClaudePermissionArgs(w, args);
    var resumeArgs := NormalizeClaudeSettingSourcesArgs(w, config.resumeArgs);
    resumeArgs := NormalizeClaudePermissionArgs(w, resumeArgs);
    r := config.(args := args, resumeArgs := resumeArgs);
  }

  // ---------------------------------------------------------------- one pass

  /** Each argument list read once: the legacy flag and flags without a value go, setting
      sources become `user`, everything else stays where it is. */
  function OnePass(w: Flags, args: seq<string>): seq<string>
    decreases |args|
  {
    if args == [] then []
    else if args[0] == w.skip then OnePass(w, args[1..])
    else if args[0] == w.mode then
      if HasValue(args) then [w.mode, args[1]] + OnePass(w, args[2..]) else OnePass(w, args[1..])
    else if args[0] == w.sources then
      if HasValue(args) then [w.sources, w.user] + OnePass(w, args[2..]) else OnePass(w, args[1..])
    else if IsSourcesAssignment(w, args[0]) then [w.sources + "=" + w.user] + OnePass(w, args[1..])
    else [args[0]] + OnePass(w, args[1..])
  }

  predicate GivesMode(w: Flags, args: seq<string>)
    decreases |args|
  {
    if args == [] then false
    else if args[0] == w.mode || args[0] == w.sources then
      if HasValue(args) then args[0] == w.mode || GivesMode(w, args[2..]) else GivesMode(w, args[1..])
    else IsModeAssignment(w, args[0]) || GivesMode(w, args[1..])
  }

  predicate GivesSources(w: Flags, args: seq<string>)
    decreases |args|
  {
    if args == [] then false
    else if args[0] == w.mode || args[0] == w.sources then
      if HasValue(args) then args[0] == w.sources || GivesSources(w, args[2..]) else GivesSources(w, args[1..])
    else IsSourcesAssignment(w, args[0]) || GivesSources(w, args[1..])
  }

  /** The flags start with a dash, differ after it, and the default values are values. */
  predicate WellChosen(w: Flags) {
    && |w.skip| > 2 && |w.mode| > 2 && |w.sources| > 2
    && w.skip[0] == w.mode[0] == w.sources[0] == '-'
    && w.skip[2] != w.mode[2] && w.skip[2] != w.sources[2] && w.mode[2] != w.sources[2]
    && IsValue(w.user) && IsValue(w.bypass)
  }

  lemma FlagFacts(w: Flags, arg: string)
    requires WellChosen(w)
    ensures arg in [w.skip, w.mode, w.sources] ==> !IsModeAssignment(w, arg) && !IsSourcesAssignment(w, arg)
    ensures arg in [w.skip, w.mode, w.sources] || IsModeAssignment(w, arg) || IsSourcesAssignment(w, arg) ==> !IsValue(arg)
    ensures !(IsModeAssignment(w, arg) && IsSourcesAssignment(w, arg))
    ensures var safe := w.sources + "=" + w.user;
            IsSourcesAssignment(w, safe) && !IsModeAssignment(w, safe) && safe !in [w.skip, w.mode, w.sources]
  {
    if IsModeAssignment(w, arg) {
      assert arg[2] == (w.mode + "=")[2] && arg[0] == (w.mode + "=")[0];
    }
    if IsSourcesAssignment(w, arg) {
      assert arg[2] == (w.sources + "=")[2] && arg[0] == (w.sources + "=")[0];
    }
    assert (w.sources + "=" + w.user)[2] == w.sources[2];
  }

  lemma ClaudeFlagsWellChosen()
    ensures WellChosen(CLAUDE)
  {
    assert CLAUDE.skip[2] == 'd' && CLAUDE.mode[2] == 'p' && CLAUDE.sources[2] == 's';
    assert TrimStart(CLAUDE.user) == CLAUDE.user && TrimStart(CLAUDE.bypass) == CLAUDE.bypass;
  }

  /** Dropping a flag never puts a value behind another flag. */
  lemma {:induction false} HeadNotValue(w: Flags, args: seq<string>, suffix: seq<string>)
    requires WellChosen(w)
    requires args == [] || !IsValue(args[0])
    requires suffix == [] || suffix == [w.sources, w.user]
    ensures var out := SourcesLoop(w, args).0 + suffix; out == [] || !IsValue(out[0])
    decreases |args|
  {
    FlagFacts(w, w.sources);
    FlagFacts(w, w.sources + "=" + w.user);
    if args != [] && args[0] == w.sources && !HasValue(args) {
      HeadNotValue(w, args[1..], suffix);
    }
  }

  lemma PermissionKeeps(w: Flags, a: string, rest: seq<string>)
    requires WellChosen(w)
    requires a != w.skip && a != w.mode
    ensures PermissionLoop(w, [a] + rest).0 == [a] + PermissionLoop(w, rest).0
    ensures PermissionLoop(w, [a] + rest).1 == (IsModeAssignment(w, a) || PermissionLoop(w, rest).1)
  {
    assert ([a] + rest)[1..] == rest;
  }

  lemma PermissionDrops(w: Flags, a: string, rest: seq<string>)
    requires WellChosen(w)
    requires a == w.skip || (a == w.mode && (rest == [] || !IsValue(rest[0])))
    ensures PermissionLoop(w, [a] + rest) == PermissionLoop(w, rest)
  {
    assert ([a] + rest)[1..] == rest;
  }

  lemma PermissionPair(w: Flags, v: string, rest: seq<string>)
    requires WellChosen(w)
    requires IsValue(v)
    ensures PermissionLoop(w, [w.mode, v] + rest) == ([w.mode, v] + PermissionLoop(w, rest).0, true)
  {
    FlagFacts(w, w.mode);
    assert ([w.mode, v] + rest)[2..] == rest && ([w.mode, v] + rest)[1] == v;
  }

  /** The permission loop after the sources loop is the single pass. */
  lemma {:induction false} LoopsFuse(w: Flags, args: seq<string>, suffix: seq<string>)
    requires WellChosen(w)
    requires suffix == [] || suffix == [w.sources, w.user]
    ensures PermissionLoop(w, SourcesLoop(w, args).0 + suffix) == (OnePass(w, args) + suffix, GivesMode(w, args))
    decreases |args|
  {
    FlagFacts(w, w.sources);
    FlagFacts(w, w.user);
    if args == [] {
      SuffixStays(w, suffix);
      assert [] + suffix == suffix;
    } else {
      FuseStep(w, args, suffix);
    }
  }

  lemma SuffixStays(w: Flags, suffix: seq<string>)
    requires WellChosen(w)
    requires suffix == [] || suffix == [w.sources, w.user]
    ensures PermissionLoop(w, suffix) == (suffix, false)
  {
    if suffix != [] {
      FlagFacts(w, w.sources);
      FlagFacts(w, w.user);
      PermissionKeeps(w, w.user, []);
      PermissionKeeps(w, w.sources, [w.user]);
      assert [w.sources] + [w.user] == suffix && [w.user] + [] == [w.user];
    }
  }

  lemma {:induction false} FuseStep(w: Flags, args: seq<string>, suffix: seq<string>)
    requires WellChosen(w)
    requires args != [] && (suffix == [] || suffix == [w.sources, w.user])
    ensures PermissionLoop(w, SourcesLoop(w, args).0 + suffix) == (OnePass(w, args) + suffix, GivesMode(w, args))
    decreases |args|, 1
  {
    if args[0] == w.sources {
      FuseSources(w, args, suffix);
    } else if args[0] == w.mode {
      FuseMode(w, args, suffix);
    } else {
      FuseOther(w, args, suffix);
    }
  }

  lemma {:induction false} FuseOther(w: Flags, args: seq<string>, suffix: seq<string>)
    requires WellChosen(w)
    requires args != [] && args[0] != w.mode && args[0] != w.sources && (suffix == [] || suffix == [w.sources, w.user])
    ensures PermissionLoop(w, SourcesLoop(w, args).0 + suffix) == (OnePass(w, args) + suffix, GivesMode(w, args))
    decreases |args|, 0
  {
    var a, rest := args[0], args[1..];
    FlagFacts(w, a);
    LoopsFuse(w, rest, suffix);
    var b := if IsSourcesAssignment(w, a) then w.sources + "=" + w.user else a;
    assert SourcesLoop(w, args).0 + suffix == [b] + (SourcesLoop(w, rest).0 + suffix);
    if a == w.skip {
      PermissionDrops(w, b, SourcesLoop(w, rest).0 + suffix);
    } else {
      PermissionKeeps(w, b, SourcesLoop(w, rest).0 + suffix);
      assert [b] + (OnePass(w, rest) + suffix) == [b] + OnePass(w, rest) + suffix;
    }
  }

  lemma {:induction false} FuseMode(w: Flags, args: seq<string>, suffix: seq<string>)
    requires WellChosen(w)
    requires args != [] && args[0] == w.mode && (suffix == [] || suffix == [w.sources, w.user])
    ensures PermissionLoop(w, SourcesLoop(w, args).0 + suffix) == (OnePass(w, args) + suffix, GivesMode(w, args))
    decreases |args|, 0
  {
    FlagFacts(w, w.mode);
    if HasValue(args) {
      var v, rest := args[1], args[2..];
      LoopsFuse(w, rest, suffix);
      assert [w.mode] + ([v] + rest) == args;
      FuseModePair(w, v, rest, suffix);
    } else {
      var rest := args[1..];
      LoopsFuse(w, rest, suffix);
      HeadNotValue(w, rest, suffix);
      assert SourcesLoop(w, args).0 + suffix == [w.mode] + (SourcesLoop(w, rest).0 + suffix);
      PermissionDrops(w, w.mode, SourcesLoop(w, rest).0 + suffix);
    }
  }

  lemma SourcesKeeps(w: Flags, a: string, rest: seq<string>)
    requires WellChosen(w)
    requires a != w.sources && !IsSourcesAssignment(w, a)
    ensures SourcesLoop(w, [a] + rest).0 == [a] + SourcesLoop(w, rest).0
  {
    assert ([a] + rest)[1..] == rest;
  }

  /** The sources loop leaves a permission mode with its value alone. */
  lemma ValueStays(w: Flags, v: string, rest: seq<string>)
    requires WellChosen(w)
    requires IsValue(v)
    ensures SourcesLoop(w, [w.mode] + ([v] + rest)).0 == [w.mode] + ([v] + SourcesLoop(w, rest).0)
  {
    FlagFacts(w, w.mode);
    FlagFacts(w, v);
    SourcesKeeps(w, v, rest);
    SourcesKeeps(w, w.mode, [v] + rest);
  }

  lemma {:induction false} FuseModePair(w: Flags, v: string, rest: seq<string>, suffix: seq<string>)
    requires WellChosen(w)
    requires IsValue(v)
    requires PermissionLoop(w, SourcesLoop(w, rest).0 + suffix) == (OnePass(w, rest) + suffix, GivesMode(w, rest))
    ensures PermissionLoop(w, SourcesLoop(w, [w.mode] + ([v] + rest)).0 + suffix) == ([w.mode, v] + OnePass(w, rest) + suffix, true)
  {
    ValueStays(w, v, rest);
    Regroup(w.mode, v, SourcesLoop(w, rest).0, suffix);
    PermissionPair(w, v, SourcesLoop(w, rest).0 + suffix);
    Regroup(w.mode, v, OnePass(w, rest), suffix);
  }

  lemma Regroup(a: string, b: string, x: seq<string>, y: seq<string>)
    ensures [a] + ([b] + x) + y == [a, b] + (x + y) == [a, b] + x + y
  {
  }

  lemma {:induction false} FuseSources(w: Flags, args: seq<string>, suffix: seq<string>)
    requires WellChosen(w)
    requires args != [] && args[0] == w.sources && (suffix == [] || suffix == [w.sources, w.user])
    ensures PermissionLoop(w, SourcesLoop(w, args).0 + suffix) == (OnePass(w, args) + suffix, GivesMode(w, args))
    decreases |args|, 0
  {
    FlagFacts(w, w.sources);
    if HasValue(args) {
      LoopsFuse(w, args[2..], suffix);
      FuseSourcesPair(w, args[2..], suffix);
      assert SourcesLoop(w, args).0 == [w.sources, w.user] + SourcesLoop(w, args[2..]).0;
    } else {
      LoopsFuse(w, args[1..], suffix);
    }
  }

  lemma {:induction false} FuseSourcesPair(w: Flags, rest: seq<string>, suffix: seq<string>)
    requires WellChosen(w)
    requires PermissionLoop(w, SourcesLoop(w, rest).0 + suffix) == (OnePass(w, rest) + suffix, GivesMode(w, rest))
    ensures PermissionLoop(w, [w.sources, w.user] + SourcesLoop(w, rest).0 + suffix) == ([w.sources, w.user] + OnePass(w, rest) + suffix, GivesMode(w, rest))
  {
    var tail := SourcesLoop(w, rest).0 + suffix;
    assert [w.sources, w.user] + SourcesLoop(w, rest).0 + suffix == [w.sources, w.user] + tail;
    SourcesPair(w, tail);
    assert [w.sources, w.user] + (OnePass(w, rest) + suffix) == [w.sources, w.user] + OnePass(w, rest) + suffix;
  }

  lemma SourcesPair(w: Flags, rest: seq<string>)
    requires WellChosen(w)
    ensures PermissionLoop(w, [w.sources, w.user] + rest) == ([w.sources, w.user] + PermissionLoop(w, rest).0, PermissionLoop(w, rest).1)
  {
    FlagFacts(w, w.sources);
    FlagFacts(w, w.user);
    assert [w.sources, w.user] + rest == [w.sources] + ([w.user] + rest);
    PermissionKeeps(w, w.user, rest);
    PermissionKeeps(w, w.sources, [w.user] + rest);
    assert [w.sources] + ([w.user] + PermissionLoop(w, rest).0) == [w.sources, w.user] + PermissionLoop(w, rest).0;
  }

  lemma {:induction false} SourcesSeen(w: Flags, args: seq<string>)
    requires WellChosen(w)
    ensures SourcesLoop(w, args).1 == GivesSources(w, args)
    decreases |args|
  {
    if args != [] {
      FlagFacts(w, args[0]);
      SourcesSeen(w, args[1..]);
      if (args[0] == w.mode || args[0] == w.sources) && HasValue(args) {
        FlagFacts(w, args[1]);
        SourcesSeen(w, args[2..]);
        assert args[1..][0] == args[1] && args[1..][1..] == args[2..];
      }
    }
  }

  function DefaultSources(w: Flags, args: seq<string>): seq<string> {
    if GivesSources(w, args) then [] else [w.sources, w.user]
  }

  function DefaultMode(w: Flags, args: seq<string>): seq<string> {
    if GivesMode(w, args) then [] else [w.mode, w.bypass]
  }

  /** The composition of the two normalisers is the single pass, followed by the defaults
      that are missing. */
  lemma NormalizedIsOnePass(w: Flags, args: seq<string>)
    requires WellChosen(w)
    ensures NormalizedArgs(w, args) == OnePass(w, args) + DefaultSources(w, args) + DefaultMode(w, args)
  {
    SourcesSeen(w, args);
    LoopsFuse(w, args, DefaultSources(w, args));
  }

  // ---------------------------------------------------------------- the normal form

  /** No legacy flag; each permission flag has a value, each sources flag the safe one. */
  predicate Clean(w: Flags, args: seq<string>)
    decreases |args|
  {
    args == [] ||
    (args[0] != w.skip &&
     if args[0] == w.mode then HasValue(args) && Clean(w, args[2..])
     else if args[0] == w.sources then |args| > 1 && args[1] == w.user && Clean(w, args[2..])
     else (IsSourcesAssignment(w, args[0]) ==> args[0] == w.sources + "=" + w.user) && Clean(w, args[1..]))
  }

  lemma {:induction false} CleanConcat(w: Flags, a: seq<string>, b: seq<string>)
    requires WellChosen(w)
    requires Clean(w, a) && Clean(w, b)
    ensures Clean(w, a + b)
    decreases |a|
  {
    if a == [] {
      assert a + b == b;
    } else {
      assert (a + b)[1..] == a[1..] + b;
      if a[0] == w.mode || a[0] == w.sources {
        assert (a + b)[2..] == a[2..] + b;
        CleanConcat(w, a[2..], b);
      } else {
        CleanConcat(w, a[1..], b);
      }
    }
  }

  lemma {:induction false} OnePassClean(w: Flags, args: seq<string>)
    requires WellChosen(w)
    ensures Clean(w, OnePass(w, args))
    decreases |args|
  {
    if args != [] {
      FlagFacts(w, args[0]);
      if (args[0] == w.mode || args[0] == w.sources) && HasValue(args) {
        OnePassClean(w, args[2..]);
        var pair := if args[0] == w.mode then [w.mode, args[1]] else [w.sources, w.user];
        assert (pair + OnePass(w, args[2..]))[2..] == OnePass(w, args[2..]);
      } else {
        OnePassClean(w, args[1..]);
        var b := if IsSourcesAssignment(w, args[0]) then w.sources + "=" + w.user else args[0];
        FlagFacts(w, b);
        assert ([b] + OnePass(w, args[1..]))[1..] == OnePass(w, args[1..]);
      }
    }
  }

  lemma {:induction false} CleanStays(w: Flags, args: seq<string>)
    requires WellChosen(w)
    requires Clean(w, args)
    ensures OnePass(w, args) == args
    decreases |args|
  {
    if args != [] {
      FlagFacts(w, args[0]);
      FlagFacts(w, w.user);
      if args[0] == w.mode || args[0] == w.sources {
        CleanStays(w, args[2..]);
        assert args == [args[0], args[1]] + args[2..];
      } else {
        CleanStays(w, args[1..]);
        assert args == [args[0]] + args[1..];
      }
    }
  }

  lemma {:induction false} GivesConcat(w: Flags, a: seq<string>, b: seq<string>)
    requires WellChosen(w)
    requires Clean(w, a)
    ensures GivesMode(w, a + b) <==> GivesMode(w, a) || GivesMode(w, b)
    ensures GivesSources(w, a + b) <==> GivesSources(w, a) || GivesSources(w, b)
    decreases |a|
  {
    if a == [] {
      assert a + b == b;
    } else {
      FlagFacts(w, w.user);
      assert (a + b)[1..] == a[1..] + b;
      if a[0] == w.mode || a[0] == w.sources {
        assert (a + b)[2..] == a[2..] + b;
        GivesConcat(w, a[2..], b);
      } else {
        GivesConcat(w, a[1..], b);
      }
    }
  }

  lemma {:induction false} OnePassGives(w: Flags, args: seq<string>)
    requires WellChosen(w)
    ensures GivesMode(w, OnePass(w, args)) == GivesMode(w, args) && GivesSources(w, OnePass(w, args)) == GivesSources(w, args)
    decreases |args|
  {
    if args != [] {
      FlagFacts(w, args[0]);
      FlagFacts(w, w.user);
      if (args[0] == w.mode || args[0] == w.sources) && HasValue(args) {
        OnePassGives(w, args[2..]);
        var pair := if args[0] == w.mode then [w.mode, args[1]] else [w.sources, w.user];
        assert (pair + OnePass(w, args[2..]))[2..] == OnePass(w, args[2..]);
      } else {
        OnePassGives(w, args[1..]);
        var b := if IsSourcesAssignment(w, args[0]) then w.sources + "=" + w.user else args[0];
        FlagFacts(w, b);
        assert ([b] + OnePass(w, args[1..]))[1..] == OnePass(w, args[1..]);
      }
    }
  }

  lemma DefaultsClean(w: Flags)
    requires WellChosen(w)
    ensures Clean(w, [w.sources, w.user]) && Clean(w, [w.mode, w.bypass])
    ensures GivesSources(w, [w.sources, w.user]) && GivesMode(w, [w.mode, w.bypass])
  {
    FlagFacts(w, w.mode);
    assert [w.sources, w.user][2..] == [] && [w.mode, w.bypass][2..] == [];
  }

  lemma NormalizedClean(w: Flags, args: seq<string>)
    requires WellChosen(w)
    ensures Clean(w, NormalizedArgs(w, args)) && GivesMode(w, NormalizedArgs(w, args)) && GivesSources(w, NormalizedArgs(w, args))
  {
    var one, sources, mode := OnePass(w, args), DefaultSources(w, args), DefaultMode(w, args);
    NormalizedIsOnePass(w, args);
    OnePassClean(w, args);
    OnePassGives(w, args);
    DefaultsClean(w);
    CleanConcat(w, one, sources);
    CleanConcat(w, one + sources, mode);
    GivesConcat(w, one, sources);
    GivesConcat(w, one + sources, mode);
  }

  /** Normalising twice changes nothing. */
  lemma NormalizeTwice(w: Flags, args: seq<string>)
    requires WellChosen(w)
    ensures NormalizedArgs(w, NormalizedArgs(w, args)) == NormalizedArgs(w, args)
  {
    var out := NormalizedArgs(w, args);
    NormalizedClean(w, args);
    NormalizedIsOnePass(w, out);
    CleanStays(w, out);
    assert out + [] + [] == out;
  }

  /** No legacy flag here, a permission flag has its value, a sources flag the safe one. */
  predicate SafeAt(w: Flags, args: seq<string>, i: nat)
    requires i < |args|
  {
    && args[i] != w.skip
    && (args[i] == w.mode ==> i + 1 < |args| && IsValue(args[i + 1]))
    && (args[i] == w.sources ==> i + 1 < |args| && args[i + 1] == w.user)
    && (IsSourcesAssignment(w, args[i]) ==> args[i] == w.sources + "=" + w.user)
  }

  lemma ValueIsSafe(w: Flags, args: seq<string>, i: nat)
    requires WellChosen(w)
    requires i < |args| && IsValue(args[i])
    ensures SafeAt(w, args, i)
  {
    FlagFacts(w, args[i]);
  }

  lemma SafeShift(w: Flags, args: seq<string>, n: nat, i: nat)
    requires WellChosen(w)
    requires n <= i < |args| && SafeAt(w, args[n..], i - n)
    ensures SafeAt(w, args, i)
  {
    assert args[n..][i - n] == args[i];
    if i + 1 < |args| {
      assert args[n..][i - n + 1] == args[i + 1];
    }
  }

  lemma CleanHead(w: Flags, args: seq<string>)
    requires WellChosen(w)
    requires Clean(w, args) && args != []
    ensures SafeAt(w, args, 0)
    ensures args[0] == w.mode || args[0] == w.sources ==> |args| > 1 && IsValue(args[1])
  {
    FlagFacts(w, args[0]);
    FlagFacts(w, w.user);
  }

  lemma {:induction false} CleanAt(w: Flags, args: seq<string>, i: nat)
    requires WellChosen(w)
    requires Clean(w, args) && i < |args|
    ensures SafeAt(w, args, i)
    decreases |args|
  {
    CleanHead(w, args);
    var n := if args[0] == w.mode || args[0] == w.sources then 2 else 1;
    if i >= n {
      CleanAt(w, args[n..], i - n);
      SafeShift(w, args, n, i);
    } else if i == 1 {
      ValueIsSafe(w, args, 1);
    }
  }

  lemma {:induction false} ModeSomewhere(w: Flags, args: seq<string>)
    requires WellChosen(w)
    requires GivesMode(w, args)
    ensures exists i :: 0 <= i < |args| && (args[i] == w.mode || IsModeAssignment(w, args[i]))
    decreases |args|
  {
    if args[0] == w.mode || IsModeAssignment(w, args[0]) {
    } else {
      var n := if args[0] == w.sources && HasValue(args) then 2 else 1;
      ModeSomewhere(w, args[n..]);
      var i :| 0 <= i < |args[n..]| && (args[n..][i] == w.mode || IsModeAssignment(w, args[n..][i]));
      assert args[i + n] == args[n..][i];
    }
  }

  /** The arguments that are neither the legacy flag nor about permissions or sources. */
  function Unrelated(w: Flags, args: seq<string>): seq<string>
    decreases |args|
  {
    if args == [] then []
    else if args[0] == w.mode || args[0] == w.sources then Unrelated(w, if HasValue(args) then args[2..] else args[1..])
    else if args[0] == w.skip || IsModeAssignment(w, args[0]) || IsSourcesAssignment(w, args[0]) then Unrelated(w, args[1..])
    else [args[0]] + Unrelated(w, args[1..])
  }

  /** The permission settings that are given, in order. */
  function Modes(w: Flags, args: seq<string>): seq<string>
    decreases |args|
  {
    if args == [] then []
    else if args[0] == w.mode && HasValue(args) then [w.mode, args[1]] + Modes(w, args[2..])
    else if args[0] == w.sources && HasValue(args) then Modes(w, args[2..])
    else if IsModeAssignment(w, args[0]) then [args[0]] + Modes(w, args[1..])
    else Modes(w, args[1..])
  }

  lemma {:induction false} OnePassKeeps(w: Flags, args: seq<string>)
    requires WellChosen(w)
    ensures Unrelated(w, OnePass(w, args)) == Unrelated(w, args) && Modes(w, OnePass(w, args)) == Modes(w, args)
    decreases |args|
  {
    if args != [] {
      FlagFacts(w, args[0]);
      FlagFacts(w, w.user);
      if (args[0] == w.mode || args[0] == w.sources) && HasValue(args) {
        OnePassKeeps(w, args[2..]);
        var pair := if args[0] == w.mode then [w.mode, args[1]] else [w.sources, w.user];
        assert (pair + OnePass(w, args[2..]))[2..] == OnePass(w, args[2..]);
      } else {
        OnePassKeeps(w, args[1..]);
        var b := if IsSourcesAssignment(w, args[0]) then w.sources + "=" + w.user else args[0];
        FlagFacts(w, b);
        assert ([b] + OnePass(w, args[1..]))[1..] == OnePass(w, args[1..]);
      }
    }
  }

  lemma {:induction false} ConcatUnrelated(w: Flags, a: seq<string>, b: seq<string>)
    requires WellChosen(w)
    requires Clean(w, a)
    ensures Unrelated(w, a + b) == Unrelated(w, a) + Unrelated(w, b)
    decreases |a|
  {
    if a == [] {
      assert a + b == b;
    } else {
      FlagFacts(w, w.user);
      assert (a + b)[1..] == a[1..] + b;
      if a[0] == w.mode || a[0] == w.sources {
        assert (a + b)[2..] == a[2..] + b;
        ConcatUnrelated(w, a[2..], b);
      } else {
        ConcatUnrelated(w, a[1..], b);
      }
    }
  }

  lemma ModesPair(w: Flags, flag: string, v: string, rest: seq<string>)
    requires WellChosen(w)
    requires (flag == w.mode || flag == w.sources) && IsValue(v)
    ensures Modes(w, [flag, v] + rest) == (if flag == w.mode then [w.mode, v] else []) + Modes(w, rest)
  {
    var all := [flag, v] + rest;
    assert all[0] == flag && all[1] == v && all[2..] == rest;
    assert [] + Modes(w, rest) == Modes(w, rest);
  }

  lemma ModesOther(w: Flags, a: string, rest: seq<string>)
    requires WellChosen(w)
    requires a != w.mode && a != w.sources
    ensures Modes(w, [a] + rest) == (if IsModeAssignment(w, a) then [a] else []) + Modes(w, rest)
  {
    assert ([a] + rest)[1..] == rest;
    assert [] + Modes(w, rest) == Modes(w, rest);
  }

  lemma Associates(x: seq<string>, y: seq<string>, z: seq<string>)
    ensures x + (y + z) == (x + y) + z
  {
  }

  lemma {:induction false} ConcatModes(w: Flags, a: seq<string>, b: seq<string>)
    requires WellChosen(w)
    requires Clean(w, a)
    ensures Modes(w, a + b) == Modes(w, a) + Modes(w, b)
    decreases |a|
  {
    if a == [] {
      assert a + b == b && [] + Modes(w, b) == Modes(w, b);
    } else {
      CleanHead(w, a);
      var n := if a[0] == w.mode || a[0] == w.sources then 2 else 1;
      var front, rest := a[..n], a[n..];
      ConcatModes(w, rest, b);
      Associates(front, rest, b);
      if n == 2 {
        assert front == [a[0], a[1]];
        ModesPair(w, a[0], a[1], rest);
        ModesPair(w, a[0], a[1], rest + b);
        Associates(if a[0] == w.mode then front else [], Modes(w, rest), Modes(w, b));
      } else {
        assert front == [a[0]];
        ModesOther(w, a[0], rest);
        ModesOther(w, a[0], rest + b);
        Associates(if IsModeAssignment(w, a[0]) then front else [], Modes(w, rest), Modes(w, b));
      }
      assert front + rest == a;
    }
  }

  lemma DefaultsKeep(w: Flags)
    requires WellChosen(w)
    ensures Unrelated(w, [w.sources, w.user]) == [] && Modes(w, [w.sources, w.user]) == []
    ensures Unrelated(w, [w.mode, w.bypass]) == [] && Modes(w, [w.mode, w.bypass]) == [w.mode, w.bypass]
  {
    FlagFacts(w, w.mode);
    assert [w.sources, w.user][2..] == [] && [w.mode, w.bypass][2..] == [];
  }

  /** Unrelated arguments keep their order, and so do the permission modes that were given;
      the default mode is added only when there was none. */
  lemma NormalizedKeeps(w: Flags, args: seq<string>)
    requires WellChosen(w)
    ensures Unrelated(w, NormalizedArgs(w, args)) == Unrelated(w, args)
    ensures Modes(w, NormalizedArgs(w, args)) == Modes(w, args) + DefaultMode(w, args)
  {
    var one, sources, mode := OnePass(w, args), DefaultSources(w, args), DefaultMode(w, args);
    NormalizedIsOnePass(w, args);
    OnePassClean(w, args);
    OnePassKeeps(w, args);
    DefaultsClean(w);
    DefaultsKeep(w);
    CleanConcat(w, one, sources);
    ConcatUnrelated(w, one, sources);
    ConcatUnrelated(w, one + sources, mode);
    ConcatModes(w, one, sources);
    ConcatModes(w, one + sources, mode);
  }

  // ---------------------------------------------------------------- a permission mode with a value

  /** The value of `--permission-mode=value`. */
  function AssignedMode(w: Flags, arg: string): string
    requires IsModeAssignment(w, arg)
  {
    arg[|w.mode| + 1..]
  }

  /** A permission mode with a value starts here. */
  predicate ModeValueAt(w: Flags, args: seq<string>, i: nat)
    requires i < |args|
  {
    || (args[i] == w.mode && i + 1 < |args| && IsValue(args[i + 1]))
    || (IsModeAssignment(w, args[i]) && !IsBlank(AssignedMode(w, args[i])))
  }

  ghost predicate HasModeValue(w: Flags, args: seq<string>) {
    exists i :: 0 <= i < |args| && ModeValueAt(w, args, i)
  }

  /** Of the permission settings, one that is a value or assigns one. */
  predicate SetsMode(w: Flags, setting: string) {
    setting != w.mode && (IsModeAssignment(w, setting) ==> !IsBlank(AssignedMode(w, setting)))
  }

  predicate SomeSetsMode(w: Flags, settings: seq<string>) {
    exists i :: 0 <= i < |settings| && SetsMode(w, settings[i])
  }

  lemma SomeSetsConcat(w: Flags, a: seq<string>, b: seq<string>)
    ensures SomeSetsMode(w, a + b) <==> SomeSetsMode(w, a) || SomeSetsMode(w, b)
  {
    forall i | 0 <= i < |a| ensures (a + b)[i] == a[i] {
    }
    forall i | 0 <= i < |b| ensures (a + b)[|a| + i] == b[i] {
    }
  }

  lemma ModeValueShift(w: Flags, args: seq<string>, n: nat)
    requires n <= |args|
    ensures HasModeValue(w, args) <==>
            HasModeValue(w, args[n..]) || exists i :: 0 <= i < n && ModeValueAt(w, args, i)
  {
    forall i | n <= i < |args| ensures ModeValueAt(w, args, i) <==> ModeValueAt(w, args[n..], i - n) {
      assert args[n..][i - n] == args[i];
      assert i + 1 < |args| ==> args[n..][i - n + 1] == args[i + 1];
    }
    if HasModeValue(w, args[n..]) {
      var i :| 0 <= i < |args[n..]| && ModeValueAt(w, args[n..], i);
      assert ModeValueAt(w, args, i + n);
    }
  }

  lemma {:induction false} CleanModeValue(w: Flags, args: seq<string>)
    requires WellChosen(w) && Clean(w, args)
    ensures HasModeValue(w, args) <==> SomeSetsMode(w, Modes(w, args))
    decreases |args|
  {
    if args != [] {
      CleanHead(w, args);
      FlagFacts(w, args[0]);
      var n := if args[0] == w.mode || args[0] == w.sources then 2 else 1;
      var front, rest := args[..n], args[n..];
      CleanModeValue(w, rest);
      ModeValueShift(w, args, n);
      assert front + rest == args;
      if n == 2 {
        FlagFacts(w, args[1]);
        assert front == [args[0], args[1]];
        ModesPair(w, args[0], args[1], rest);
        SomeSetsConcat(w, if args[0] == w.mode then front else [], Modes(w, rest));
        assert args[0] == w.mode ==> ModeValueAt(w, args, 0) && SetsMode(w, front[1]);
      } else {
        assert front == [args[0]];
        ModesOther(w, args[0], rest);
        SomeSetsConcat(w, if IsModeAssignment(w, args[0]) then front else [], Modes(w, rest));
        assert IsModeAssignment(w, args[0]) ==> (SetsMode(w, front[0]) <==> ModeValueAt(w, args, 0));
      }
    }
  }

  /** The output has a permission mode with a value exactly when the input gives no mode, or
      gives one that is not just an empty assignment. */
  lemma ModeValueExactly(w: Flags, args: seq<string>)
    requires WellChosen(w)
    ensures HasModeValue(w, NormalizedArgs(w, args)) <==> !GivesMode(w, args) || SomeSetsMode(w, Modes(w, args))
  {
    NormalizedClean(w, args);
    NormalizedKeeps(w, args);
    CleanModeValue(w, NormalizedArgs(w, args));
    SomeSetsConcat(w, Modes(w, args), DefaultMode(w, args));
    FlagFacts(w, w.bypass);
    assert !GivesMode(w, args) ==> SetsMode(w, DefaultMode(w, args)[1]);
  }

  /** Every output is free of the legacy flag, has a permission mode, gives each permission
      flag a value and sets every setting-sources occurrence to `user`.  Some permission mode
      has a value unless the input gives empty assignments only. */
  lemma NormalizedSafe(w: Flags, args: seq<string>)
    requires WellChosen(w)
    ensures var out := NormalizedArgs(w, args);
            && (forall i :: 0 <= i < |out| ==> SafeAt(w, out, i))
            && (exists i :: 0 <= i < |out| && (out[i] == w.mode || IsModeAssignment(w, out[i])))
            && (HasModeValue(w, out) <==> !GivesMode(w, args) || SomeSetsMode(w, Modes(w, args)))
  {
    var out := NormalizedArgs(w, args);
    NormalizedClean(w, args);
    ModeSomewhere(w, out);
    ModeValueExactly(w, args);
    forall i | 0 <= i < |out| ensures SafeAt(w, out, i) {
      CleanAt(w, out, i);
    }
  }

  /** An empty assignment counts as a mode, so no default is added. */
  lemma EmptyAssignmentStays(w: Flags)
    requires WellChosen(w)
    ensures NormalizedArgs(w, [w.mode + "="]) == [w.mode + "=", w.sources, w.user]
    ensures !HasModeValue(w, NormalizedArgs(w, [w.mode + "="]))
  {
    var args := [w.mode + "="];
    FlagFacts(w, args[0]);
    assert args[1..] == [] && IsModeAssignment(w, args[0]);
    assert args[0] !in [w.skip, w.mode, w.sources] && !IsSourcesAssignment(w, args[0]);
    assert OnePass(w, args) == args && GivesMode(w, args) && !GivesSources(w, args);
    NormalizedIsOnePass(w, args);
    assert Modes(w, args) == args && AssignedMode(w, args[0]) == "";
    ModeValueExactly(w, args);
  }

  lemma EmptyModeStays()
    ensures NormalizedArgs(CLAUDE, ["--permission-mode="]) == ["--permission-mode=", "--setting-sources", "user"]
    ensures !HasModeValue(CLAUDE, ["--permission-mode=", "--setting-sources", "user"])
  {
    ClaudeFlagsWellChosen();
    assert CLAUDE.mode + "=" == "--permission-mode=";
    EmptyAssignmentStays(CLAUDE);
  }

  /** The flags of the Claude CLI: normalising is idempotent, safe and order-preserving on
      every argument list. */
  lemma ClaudeArgsNormalized(args: seq<string>)
    ensures var out := NormalizedArgs(CLAUDE, args);
            && NormalizedArgs(CLAUDE, out) == out
            && (forall i :: 0 <= i < |out| ==> SafeAt(CLAUDE, out, i))
            && (HasModeValue(CLAUDE, out) <==> !GivesMode(CLAUDE, args) || SomeSetsMode(CLAUDE, Modes(CLAUDE, args)))
            && Unrelated(CLAUDE, out) == Unrelated(CLAUDE, args)
            && Modes(CLAUDE, out) == Modes(CLAUDE, args) + DefaultMode(CLAUDE, args)
  {
    ClaudeFlagsWellChosen();
    NormalizeTwice(CLAUDE, args);
    NormalizedSafe(CLAUDE, args);
    NormalizedKeeps(CLAUDE, args);
  }
}
