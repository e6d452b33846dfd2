/** The argument normalisers of the Claude CLI backend (extensions/anthropic/cli-shared.ts)
    together, argument by argument. */
module ClaudeSettings {
  import opened Wrappers
  import opened JsText
  import opened JsTextLaws
  import opened ClaudeArgs

  /** A text with a visible character that does not start with a dash. */
  ghost predicate Value(s: string) {
    (exists c :: c in s && !IsWhitespace(c)) && s[0] != '-'
  }

  lemma ValueExactly(s: string)
    ensures IsValue(s) <==> Value(s)
  {
    BlankExactly(s);
  }

  // ---------------------------------------------------------------- the pass, argument by argument

  /** A flag with a value: the permission mode is kept, the setting sources become the safe ones. */
  lemma FlagWithValue(w: Flags, value: string, rest: seq<string>)
    requires WellChosen(w) && Value(value)
    ensures OnePass(w, [w.mode, value] + rest) == [w.mode, value] + OnePass(w, rest)
    ensures OnePass(w, [w.sources, value] + rest) == [w.sources, w.user] + OnePass(w, rest)
  {
    ValueExactly(value);
    assert ([w.mode, value] + rest)[2..] == rest && ([w.sources, value] + rest)[2..] == rest;
  }

  /** A flag without a value goes, and what follows it is read as if it were not there. */
  lemma FlagWithoutValue(w: Flags, rest: seq<string>)
    requires WellChosen(w) && (rest == [] || !Value(rest[0]))
    ensures OnePass(w, [w.mode] + rest) == OnePass(w, rest)
    ensures OnePass(w, [w.sources] + rest) == OnePass(w, rest)
  {
    if rest != [] {
      ValueExactly(rest[0]);
    }
    assert ([w.mode] + rest)[1..] == rest && ([w.sources] + rest)[1..] == rest;
  }

  /** The legacy flag goes, an assignment of setting sources becomes the safe one, and any other
      argument stays, among them every assignment of a permission mode. */
  lemma OtherArgument(w: Flags, arg: string, rest: seq<string>)
    requires WellChosen(w) && arg != w.mode && arg != w.sources
    ensures OnePass(w, [arg] + rest) ==
            (if arg == w.skip then [] else if w.sources + "=" <= arg then [w.sources + "=" + w.user] else [arg]) + OnePass(w, rest)
  {
    assert ([arg] + rest)[1..] == rest;
    assert [] + OnePass(w, rest) == OnePass(w, rest);
  }

  // ---------------------------------------------------------------- the defaults

  ghost predicate NamesMode(w: Flags, args: seq<string>) {
    exists i :: 0 <= i < |args| && (args[i] == w.mode || w.mode + "=" <= args[i])
  }

  ghost predicate NamesSources(w: Flags, args: seq<string>) {
    exists i :: 0 <= i < |args| && (args[i] == w.sources || w.sources + "=" <= args[i])
  }

  lemma {:induction false} CleanNames(w: Flags, args: seq<string>)
    requires WellChosen(w) && Clean(w, args)
    ensures GivesMode(w, args) <==> NamesMode(w, args)
    ensures GivesSources(w, args) <==> NamesSources(w, args)
    decreases |args|
  {
    if args != [] {
      var n := if args[0] == w.mode || args[0] == w.sources then 2 else 1;
      FlagFacts(w, args[0]);
      if n == 2 {
        FlagFacts(w, args[1]);
        FlagFacts(w, w.user);
      }
      CleanNames(w, args[n..]);
      NamesTail(w, args, n);
    }
  }

  lemma NamesTail(w: Flags, args: seq<string>, n: nat)
    requires n <= |args|
    ensures NamesMode(w, args) <==> NamesMode(w, args[..n]) || NamesMode(w, args[n..])
    ensures NamesSources(w, args) <==> NamesSources(w, args[..n]) || NamesSources(w, args[n..])
  {
    forall i | 0 <= i < |args| ensures args[i] == if i < n then args[..n][i] else args[n..][i - n] {
    }
    forall i | 0 <= i < n ensures args[..n][i] == args[i] {
    }
    forall i | 0 <= i < |args| - n ensures args[n..][i] == args[n + i] {
    }
  }

  /** Both normalisers together are the pass and the defaults: the safe setting sources when
      the pass leaves none, then the bypass mode when it leaves no mode. */
  lemma DefaultsExactly(w: Flags, args: seq<string>)
    requires WellChosen(w)
    ensures var kept := OnePass(w, args);
            NormalizedArgs(w, args) == kept + (if NamesSources(w, kept) then [] else [w.sources, w.user])
                                            + (if NamesMode(w, kept) then [] else [w.mode, w.bypass])
  {
    NormalizedIsOnePass(w, args);
    OnePassClean(w, args);
    OnePassGives(w, args);
    CleanNames(w, OnePass(w, args));
  }

  /** With no arguments but the legacy flag the Claude CLI gets both defaults. */
  lemma NoArguments()
    ensures NormalizedArgs(CLAUDE, []) == ["--setting-sources", "user", "--permission-mode", "bypassPermissions"]
    ensures NormalizedArgs(CLAUDE, ["--dangerously-skip-permissions"]) == NormalizedArgs(CLAUDE, [])
  {
    ClaudeFlagsWellChosen();
    OtherArgument(CLAUDE, CLAUDE.skip, []);
    assert [CLAUDE.skip] + [] == [CLAUDE.skip];
    DefaultsExactly(CLAUDE, []);
    DefaultsExactly(CLAUDE, [CLAUDE.skip]);
  }
}
