/** The two strippers of the active-memory plugin (extensions/active-memory/index.ts), said of
    the lines of a message: which of them go, and that the plugin's own lines are among them. */
module PromptLines {
  import opened Wrappers
  import opened JsText
  import opened JsTextLaws
  import opened JsWords
  import opened PromptContext

  // ---------------------------------------------------------------- which lines go

  /** The line starts with the icon, if there is one, white space, and the text in letters of
      any case. */
  ghost predicate Recalls(p: Pattern, line: string) {
    match p.icon
    case None => LowerOccursAt(p.text, line, 0)
    case Some(icon) =>
      exists n: nat :: 0 < n <= |line| && line[0] == icon && AllWhitespace(line[1..n]) && LowerOccursAt(p.text, line, n)
  }

  ghost predicate Dropped(m: Markers, line: string) {
    line == "" || line == m.header || line == m.close || exists p :: p in m.recalled && Recalls(p, line)
  }

  /** Every pattern has a text that does not start with white space. */
  predicate Worded(m: Markers) {
    forall p :: p in m.recalled ==> p.text != "" && !IsWhitespace(p.text[0])
  }

  lemma LowerPrefix(text: string, s: string)
    ensures text <= ToLower(s) <==> LowerOccursAt(text, s, 0)
  {
    ToLowerAt(s);
    if |text| <= |s| {
      ToLowerSlice(s, 0, |text|);
    }
  }

  lemma LowerShift(text: string, s: string, n: nat)
    requires n <= |s|
    ensures LowerOccursAt(text, s[n..], 0) <==> LowerOccursAt(text, s, n)
  {
    if n + |text| <= |s| {
      assert s[n..][0..|text|] == s[n..n + |text|];
    }
  }

  /** Where white space ends is where the text must start. */
  lemma WordStart(text: string, line: string, n: nat, k: nat)
    requires text != "" && !IsWhitespace(text[0])
    requires 0 < n <= |line| && AllWhitespace(line[1..n]) && LowerOccursAt(text, line, n)
    requires 0 < k <= |line| && AllWhitespace(line[1..k]) && (k < |line| ==> !IsWhitespace(line[k]))
    ensures n == k
  {
    ToLowerAt(line[n..n + |text|]);
    assert !IsWhitespace(line[n]);
    assert forall i :: 1 <= i < k ==> line[i] in line[1..k];
    assert forall i :: 1 <= i < n ==> line[i] in line[1..n];
  }

  lemma MatchesExactly(p: Pattern, line: string)
    requires p.text != "" && !IsWhitespace(p.text[0])
    ensures Matches(p, line) <==> Recalls(p, line)
  {
    if p.icon.None? {
      LowerPrefix(p.text, line);
    } else if line != "" && line[0] == p.icon.value {
      var k := TrimStartExactly(line[1..]);
      assert line[1..][k..] == line[k + 1..] && line[1..][..k] == line[1..k + 1];
      LowerPrefix(p.text, line[k + 1..]);
      LowerShift(p.text, line, k + 1);
      forall n: nat | 0 < n <= |line| && AllWhitespace(line[1..n]) && LowerOccursAt(p.text, line, n) ensures n == k + 1 {
        WordStart(p.text, line, n, k + 1);
      }
    }
  }

  lemma DroppedExactly(m: Markers, line: string)
    requires Worded(m)
    ensures Dropped(m, line) <==> line == "" || IsNoiseLine(m, line)
  {
    forall p | p in m.recalled ensures Matches(p, line) <==> Recalls(p, line) {
      MatchesExactly(p, line);
    }
  }

  lemma MarkersWorded()
    ensures Worded(MARKERS)
  {
    forall p | p in MARKERS.recalled ensures p.text != "" && !IsWhitespace(p.text[0]) {
      assert p.text[0] == 'a' || p.text[0] == 'm';
    }
  }

  // ---------------------------------------------------------------- the noise stripper

  /** Outside blocks each line goes or stays by itself; an opening tag without a closing one
      starts no block. */
  lemma NoiseLine(m: Markers, line: string, rest: seq<string>)
    requires Worded(m) && (line != m.open || m.close !in rest)
    ensures CleanNoise(m, [line] + rest) == (if Dropped(m, line) then [] else [line]) + CleanNoise(m, rest)
  {
    var lines := [line] + rest;
    assert lines[1..] == rest && lines[0] == line;
    DroppedExactly(m, line);
    if m.close !in rest {
      NoClose(m, rest);
    }
    assert NoiseSpan(m, lines) == 1;
  }

  lemma NoClose(m: Markers, rest: seq<string>)
    requires m.close !in rest
    ensures FindClose(m, rest) == |rest|
  {
  }

  /** A block goes as a whole, up to its first closing tag. */
  lemma NoiseBlock(m: Markers, inner: seq<string>, after: seq<string>)
    requires m.open != "" && m.open != m.header && m.close !in inner
    ensures CleanNoise(m, [m.open] + inner + [m.close] + after) == CleanNoise(m, after)
  {
    var block := inner + [m.close] + after;
    var lines := [m.open] + inner + [m.close] + after;
    FirstClose(m, inner, after);
    assert lines[1..] == block && lines[|inner| + 2..] == after;
    assert NoiseSpan(m, lines) == |inner| + 2;
    assert [] + CleanNoise(m, after) == CleanNoise(m, after);
  }

  lemma FirstClose(m: Markers, inner: seq<string>, after: seq<string>)
    requires m.close !in inner
    ensures FindClose(m, inner + [m.close] + after) == |inner|
  {
    var block := inner + [m.close] + after;
    var n := FindClose(m, block);
    assert block[|inner|] == m.close;
    assert forall i :: 0 <= i < |inner| ==> block[i] == inner[i];
  }

  // ---------------------------------------------------------------- the prefix stripper

  /** Here a block starts with the header and the opening tag; of the other lines only the
      blank ones go. */
  lemma PrefixLine(m: Markers, line: string, rest: seq<string>)
    requires !(line == m.header && rest != [] && rest[0] == m.open && m.close in rest[1..])
    ensures CleanPrefix(m, [line] + rest) == (if line == "" then [] else [line]) + CleanPrefix(m, rest)
  {
    var lines := [line] + rest;
    assert lines[1..] == rest && lines[0] == line;
    if rest != [] {
      assert lines[2..] == rest[1..];
      if m.close !in rest[1..] {
        NoClose(m, rest[1..]);
      }
    }
    assert PrefixSpan(m, lines) == 1;
  }

  lemma PrefixBlock(m: Markers, inner: seq<string>, after: seq<string>)
    requires m.header != "" && m.close !in inner
    ensures CleanPrefix(m, [m.header, m.open] + inner + [m.close] + after) == CleanPrefix(m, after)
  {
    var block := inner + [m.close] + after;
    var lines := [m.header, m.open] + inner + [m.close] + after;
    FirstClose(m, inner, after);
    assert lines[2..] == block && lines[|inner| + 3..] == after;
    assert PrefixSpan(m, lines) == |inner| + 3;
    assert [] + CleanPrefix(m, after) == CleanPrefix(m, after);
  }

  /** Both give the words of the lines that stay, one space apart. */
  lemma StrippedWords(m: Markers, text: string)
    ensures StripNoise(m, text) == Join(AllWords(CleanNoise(m, Lines(text))), " ")
    ensures StripPrefix(m, text) == Join(AllWords(CleanPrefix(m, Lines(text))), " ")
  {
    FinishedWords(CleanNoise(m, Lines(text)));
    FinishedWords(CleanPrefix(m, Lines(text)));
  }

  lemma FinishedWords(kept: seq<string>)
    ensures Finish(kept) == Join(AllWords(kept), " ")
  {
    TrimCollapse(Join(kept, " "));
    WordsJoin(kept, ' ');
  }

  /** The lines are the parts between line feeds, trimmed. */
  lemma LinesExactly(text: string)
    ensures |Lines(text)| == |Split(text, '\n')|
    ensures forall i :: 0 <= i < |Lines(text)| ==> Lines(text)[i] == Trim(Split(text, '\n')[i])
  {
    forall i | 0 <= i < |Lines(text)| ensures Lines(text)[i] == Trim(Split(text, '\n')[i]) {
      TrimAllAt(Split(text, '\n'), i);
    }
  }

  // ---------------------------------------------------------------- the plugin's own lines

  /** A recalled line in front of a message is taken out. */
  lemma RecalledLineStripped(m: Markers, p: Pattern, line: string, text: string)
    requires Worded(m) && p in m.recalled && Recalls(p, Trim(line)) && '\n' !in line && Trim(line) != m.open
    ensures StripNoise(m, line + "\n" + text) == StripNoise(m, text)
  {
    LinesConcat(line, text);
    SplitSingle(line, '\n');
    TrimAllAt([line], 0);
    assert Lines(line) == [Trim(line)];
    NoiseLine(m, Trim(line), Lines(text));
    assert [] + CleanNoise(m, Lines(text)) == CleanNoise(m, Lines(text));
  }

  /** Trimming a text that starts with a visible piece leaves that piece in front. */
  lemma TrimKeepsHead(head: string, rest: string)
    requires head != "" && !IsWhitespace(head[0]) && !IsWhitespace(head[|head| - 1])
    ensures head <= Trim(head + rest)
  {
    var s := head + rest;
    var before, after := TrimExactly(s);
    var t := Trim(s);
    assert s[0] == head[0] && s[|head| - 1] == head[|head| - 1];
    assert before == [] && s == t + after;
    forall i | |t| <= i < |s| ensures IsWhitespace(s[i]) {
      assert s[i] == after[i - |t|];
    }
    assert |head| - 1 < |t|;
    assert t[..|head|] == s[..|head|] == head;
  }

  const STATUS_PREFIX := "\U{1F9E9} Active Memory:"
  const DEBUG_PREFIX := "\U{1F50E} Active Memory Debug:"

  lemma StatusIsRecalled(line: string, status: string)
    requires status == STATUS_PREFIX && status <= line
    ensures Recalls(Pattern(Some('\U{1F9E9}'), "active memory:"), line)
  {
    var text := status[2..];
    assert text == "Active Memory:";
    LowerStatus(text);
    assert line[2..2 + |text|] == text;
    assert AllWhitespace(line[1..2]);
  }

  lemma LowerStatus(text: string)
    requires text == "Active Memory:"
    ensures ToLower(text) == "active memory:"
  {
    ToLowerAt(text);
  }

  lemma DebugIsRecalled(line: string, debug: string)
    requires debug == DEBUG_PREFIX && debug <= line
    ensures Recalls(Pattern(Some('\U{1F50E}'), "active memory debug:"), line)
  {
    var text := debug[2..];
    assert text == "Active Memory Debug:";
    LowerDebug(text);
    assert line[2..2 + |text|] == text;
    assert AllWhitespace(line[1..2]);
  }

  lemma LowerDebug(text: string)
    requires text == "Active Memory Debug:"
    ensures ToLower(text) == "active memory debug:"
  {
    ToLowerAt(text);
  }

  lemma PluginLineStripped(p: Pattern, prefix: string, details: string, text: string)
    requires p in MARKERS.recalled && Recalls(p, Trim(prefix + details)) && '\n' !in prefix && '\n' !in details
    requires prefix != "" && prefix[0] != '<' && !IsWhitespace(prefix[0]) && !IsWhitespace(prefix[|prefix| - 1])
    ensures StripNoise(MARKERS, prefix + details + "\n" + text) == StripNoise(MARKERS, text)
  {
    MarkersWorded();
    OpenIsOneLine();
    TrimKeepsHead(prefix, details);
    assert Trim(prefix + details)[0] == prefix[0];
    RecalledLineStripped(MARKERS, p, prefix + details, text);
  }

  lemma StatusLineStripped(status: string, details: string, text: string)
    requires status == STATUS_PREFIX && '\n' !in details
    ensures StripNoise(MARKERS, status + details + "\n" + text) == StripNoise(MARKERS, text)
  {
    TrimKeepsHead(status, details);
    StatusIsRecalled(Trim(status + details), status);
    assert MARKERS.recalled[0] == Pattern(Some('\U{1F9E9}'), "active memory:");
    PluginLineStripped(MARKERS.recalled[0], status, details, text);
  }

  lemma DebugLineStripped(debug: string, details: string, text: string)
    requires debug == DEBUG_PREFIX && '\n' !in details
    ensures StripNoise(MARKERS, debug + details + "\n" + text) == StripNoise(MARKERS, text)
  {
    TrimKeepsHead(debug, details);
    DebugIsRecalled(Trim(debug + details), debug);
    assert MARKERS.recalled[1] == Pattern(Some('\U{1F50E}'), "active memory debug:");
    PluginLineStripped(MARKERS.recalled[1], debug, details, text);
  }

  /** The status and debug lines that the plugin writes are taken out again, whatever they say. */
  lemma PluginLinesStripped(details: string, text: string)
    requires '\n' !in details
    ensures StripNoise(MARKERS, STATUS_PREFIX + details + "\n" + text) == StripNoise(MARKERS, text)
    ensures StripNoise(MARKERS, DEBUG_PREFIX + details + "\n" + text) == StripNoise(MARKERS, text)
  {
    StatusLineStripped(STATUS_PREFIX, details, text);
    DebugLineStripped(DEBUG_PREFIX, details, text);
  }

  /** Each of the three headings is recognised with its icon and without. */
  lemma HeadingsRecognised()
    ensures Pattern(Some('\U{1F9E9}'), "active memory:") in MARKERS.recalled && Pattern(None, "active memory:") in MARKERS.recalled
    ensures Pattern(Some('\U{1F50E}'), "active memory debug:") in MARKERS.recalled && Pattern(None, "active memory debug:") in MARKERS.recalled
    ensures Pattern(Some('\U{1F9E0}'), "memory search:") in MARKERS.recalled && Pattern(None, "memory search:") in MARKERS.recalled
  {
    var r := MARKERS.recalled;
    assert r[0] in r && r[1] in r && r[2] in r && r[3] in r && r[4] in r && r[5] in r;
  }

  // ---------------------------------------------------------------- the prefix

  /** The prefix of a summary, line by line; there is none without a summary. */
  lemma PrefixExactly(summary: string)
    ensures BuildPromptPrefix(MARKERS, None) == None
    ensures BuildPromptPrefix(MARKERS, Some(summary)) ==
            if summary == "" then None
            else Some(MARKERS.header + "\n" + "<active_memory_plugin>" + "\n" + EscapeXml(summary) + "\n" + "</active_memory_plugin>")
  {
    if summary != "" {
      JoinedPrefix(MARKERS.header, MARKERS.open, EscapeXml(summary), MARKERS.close);
    }
  }

  lemma JoinedPrefix(header: string, open: string, escaped: string, close: string)
    ensures Join([header, Join([open, escaped, close], "\n")], "\n") == header + "\n" + open + "\n" + escaped + "\n" + close
  {
    assert [open, escaped, close][1..] == [escaped, close];
    assert Join([escaped, close], "\n") == escaped + "\n" + close;
  }

  /** The five characters and what becomes of them; any other character stays. */
  lemma EscapedCharacters(c: char, a: string, b: string)
    ensures EscapeXml(a + b) == EscapeXml(a) + EscapeXml(b)
    ensures EscapeXml([c]) == if c == '&' then "&amp;" else if c == '<' then "&lt;" else if c == '>' then "&gt;"
                              else if c == '"' then "&quot;" else if c == '\'' then "&apos;" else [c]
  {
    EscapeConcat(a, b);
    EscapeOne(c);
  }
}
