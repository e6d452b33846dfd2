/** `s.replace(/\s+/g, " ").trim()`: what it keeps of a text are its words. */
module JsWords {
  import opened JsText

  /** `s.replace(/\s+/g, " ")` */
  function Collapse(s: string): string {
    if s == [] then []
    else if !IsWhitespace(s[0]) then [s[0]] + Collapse(s[1..])
    else if |s| > 1 && IsWhitespace(s[1]) then Collapse(s[1..])
    else " " + Collapse(s[1..])
  }

  /** The maximal runs of characters that are not white space. */
  function Words(s: string): (ws: seq<string>)
    ensures s != [] && !IsWhitespace(s[0]) ==> ws != []
  {
    if s == [] then []
    else if IsWhitespace(s[0]) then Words(s[1..])
    else if |s| == 1 || IsWhitespace(s[1]) then [[s[0]]] + Words(s[1..])
    else Extend(s[0], Words(s[1..]))
  }

  function AllWords(lines: seq<string>): seq<string> {
    if lines == [] then [] else Words(lines[0]) + AllWords(lines[1..])
  }

  /** The words of a text, one space apart. */
  function Normal(s: string): string {
    Join(Words(s), " ")
  }

  predicate IsWord(w: string) {
    w != "" && forall c :: c in w ==> !IsWhitespace(c)
  }

  // ---------------------------------------------------------------- trimming

  lemma {:induction false} TrimEndCons(c: char, s: string)
    ensures TrimEnd([c] + s) == if TrimEnd(s) == "" then (if IsWhitespace(c) then "" else [c]) else [c] + TrimEnd(s)
  {
    var cs := [c] + s;
    if s == [] {
      assert cs[..0] == [];
    } else if IsWhitespace(s[|s| - 1]) {
      TrimEndCons(c, s[..|s| - 1]);
      assert cs[|cs| - 1] == s[|s| - 1] && cs[..|cs| - 1] == [c] + s[..|s| - 1];
    } else {
      assert cs[|cs| - 1] == s[|s| - 1];
    }
  }

  lemma {:induction false} TrimEndPrefix(s: string)
    ensures TrimEnd(s) <= s && TrimEnd(TrimEnd(s)) == TrimEnd(s)
  {
    if s != [] && IsWhitespace(s[|s| - 1]) {
      TrimEndPrefix(s[..|s| - 1]);
    }
  }

  lemma {:induction false} TrimStartClean(s: string)
    ensures TrimStart(s) != [] ==> !IsWhitespace(TrimStart(s)[0])
  {
    if s != [] && IsWhitespace(s[0]) {
      TrimStartClean(s[1..]);
    }
  }

  lemma TrimTwice(s: string)
    ensures Trim(Trim(s)) == Trim(s)
  {
    var t := TrimStart(s);
    TrimStartClean(s);
    TrimEndPrefix(t);
  }

  lemma {:induction false} TrimKeepsAbsent(s: string, c: char)
    requires c !in s
    ensures c !in Trim(s)
  {
    if s != [] && IsWhitespace(s[0]) {
      TrimKeepsAbsent(s[1..], c);
    } else {
      TrimEndPrefix(s);
    }
  }

  // ---------------------------------------------------------------- words

  lemma {:induction false} WordsClean(s: string)
    ensures forall w :: w in Words(s) ==> IsWord(w)
  {
    if s != [] {
      WordsClean(s[1..]);
      if Words(s[1..]) != [] {
        assert IsWord(Words(s[1..])[0]);
      }
    }
  }

  lemma WordsCons(c: char, rest: string)
    ensures Words([c] + rest) ==
            if IsWhitespace(c) then Words(rest)
            else if rest == [] || IsWhitespace(rest[0]) then [[c]] + Words(rest)
            else Extend(c, Words(rest))
  {
    assert ([c] + rest)[1..] == rest;
  }

  lemma WordsExtend(c: char, rest: string, tail: string, more: seq<string>)
    requires !IsWhitespace(c)
    requires rest != [] && !IsWhitespace(rest[0]) && tail != [] && tail[0] == rest[0]
    requires Words(tail) == Words(rest) + more
    ensures Words([c] + tail) == Words([c] + rest) + more
  {
    WordsCons(c, rest);
    WordsCons(c, tail);
    ExtendConcat(c, Words(rest), more);
  }

  lemma ConsConcat(w: string, ra: seq<string>, rb: seq<string>)
    ensures [w] + (ra + rb) == [w] + ra + rb
  {
  }

  lemma WordsStart(c: char, rest: string, tail: string, more: seq<string>)
    requires !IsWhitespace(c)
    requires (rest == [] || IsWhitespace(rest[0])) && tail != [] && IsWhitespace(tail[0])
    requires Words(tail) == Words(rest) + more
    ensures Words([c] + tail) == Words([c] + rest) + more
  {
    WordsCons(c, rest);
    WordsCons(c, tail);
    ConsConcat([c], Words(rest), more);
  }

  lemma WordsSkip(c: char, rest: string)
    requires IsWhitespace(c)
    ensures Words([c] + rest) == Words(rest)
  {
    WordsCons(c, rest);
  }

  lemma {:induction false} WordsConcat(a: string, w: char, b: string)
    requires IsWhitespace(w)
    ensures Words(a + [w] + b) == Words(a) + Words(b)
  {
    if a == [] {
      WordsSkip(w, b);
      assert a + [w] + b == [w] + b;
    } else {
      var c, rest := a[0], a[1..];
      var tail := rest + [w] + b;
      WordsConcat(rest, w, b);
      if IsWhitespace(c) {
        WordsSkip(c, rest);
        WordsSkip(c, tail);
      } else if rest != [] && !IsWhitespace(rest[0]) {
        WordsExtend(c, rest, tail, Words(b));
      } else {
        WordsStart(c, rest, tail, Words(b));
      }
      assert a == [c] + rest;
      assert a + [w] + b == [c] + tail;
    }
  }

  lemma {:induction false} WordsTrimStart(s: string)
    ensures Words(TrimStart(s)) == Words(s)
  {
    if s != [] && IsWhitespace(s[0]) {
      WordsTrimStart(s[1..]);
    }
  }

  lemma {:induction false} WordsTrimEnd(s: string)
    ensures Words(TrimEnd(s)) == Words(s)
  {
    if s != [] && IsWhitespace(s[|s| - 1]) {
      var front := s[..|s| - 1];
      WordsTrimEnd(front);
      WordsConcat(front, s[|s| - 1], []);
      assert s == front + [s[|s| - 1]] + [];
    }
  }

  lemma WordsTrim(s: string)
    ensures Words(Trim(s)) == Words(s)
  {
    WordsTrimStart(s);
    WordsTrimEnd(TrimStart(s));
  }

  lemma {:induction false} WordsJoin(lines: seq<string>, sep: char)
    requires IsWhitespace(sep)
    ensures Words(Join(lines, [sep])) == AllWords(lines)
  {
    if |lines| == 1 {
      assert AllWords(lines[1..]) == [];
    } else if lines != [] {
      WordsJoin(lines[1..], sep);
      WordsConcat(lines[0], sep, Join(lines[1..], [sep]));
    }
  }

  lemma {:induction false} WordsOfWord(w: string)
    requires IsWord(w)
    ensures Words(w) == [w]
  {
    if |w| == 1 {
      assert w == [w[0]] && Words(w[1..]) == [];
    } else {
      assert w[1] in w && w[0] in w;
      WordsOfWord(w[1..]);
      assert [w[0]] + w[1..] == w;
    }
  }

  lemma {:induction false} AllWordsOfWords(ws: seq<string>)
    requires forall w :: w in ws ==> IsWord(w)
    ensures AllWords(ws) == ws
  {
    if ws != [] {
      WordsOfWord(ws[0]);
      AllWordsOfWords(ws[1..]);
    }
  }

  lemma WordsOfNormal(s: string)
    ensures Words(Normal(s)) == Words(s)
  {
    WordsClean(s);
    WordsJoin(Words(s), ' ');
    AllWordsOfWords(Words(s));
  }

  // ---------------------------------------------------------------- collapsing

  lemma {:induction false} CollapseTrimStart(s: string)
    ensures TrimStart(Collapse(s)) == Collapse(TrimStart(s))
  {
    if s != [] && IsWhitespace(s[0]) {
      CollapseTrimStart(s[1..]);
      assert (" " + Collapse(s[1..]))[1..] == Collapse(s[1..]);
    }
  }

  lemma NormalEmpty(s: string)
    ensures Normal(s) == "" <==> Words(s) == []
  {
    WordsClean(s);
    if Words(s) != [] {
      assert IsWord(Words(s)[0]);
    }
  }

  lemma JoinExtend(c: char, ws: seq<string>)
    requires ws != []
    ensures Join(Extend(c, ws), " ") == [c] + Join(ws, " ")
  {
    if |ws| > 1 {
      assert Extend(c, ws)[1..] == ws[1..];
      assert ([c] + ws[0]) + " " + Join(ws[1..], " ") == [c] + (ws[0] + " " + Join(ws[1..], " "));
    }
  }

  lemma JoinCons(w: string, ws: seq<string>)
    ensures Join([w] + ws, " ") == if ws == [] then w else w + " " + Join(ws, " ")
  {
    assert ([w] + ws)[1..] == ws;
  }

  /** Collapsed text, trimmed at its end only. */
  function EndTrimmed(s: string): string {
    (if s != [] && IsWhitespace(s[0]) && Words(s) != [] then " " else "") + Normal(s)
  }

  lemma EndTrimmedWord(c: char, rest: string)
    requires !IsWhitespace(c)
    ensures EndTrimmed([c] + rest) == [c] + EndTrimmed(rest)
  {
    var s := [c] + rest;
    assert s[1..] == rest;
    if rest == [] || IsWhitespace(rest[0]) {
      JoinCons([c], Words(rest));
      assert [c] + (" " + Normal(rest)) == [c] + " " + Normal(rest);
    } else {
      JoinExtend(c, Words(rest));
    }
  }

  lemma EndTrimmedSpace(c: char, rest: string)
    requires IsWhitespace(c)
    ensures EndTrimmed([c] + rest) == if Words(rest) == [] then "" else " " + Normal(rest)
  {
    assert ([c] + rest)[1..] == rest;
  }

  lemma CollapseTrimEndWord(c: char, rest: string)
    requires !IsWhitespace(c) && TrimEnd(Collapse(rest)) == EndTrimmed(rest)
    ensures TrimEnd(Collapse([c] + rest)) == EndTrimmed([c] + rest)
  {
    assert Collapse([c] + rest) == [c] + Collapse(rest) by {
      assert ([c] + rest)[1..] == rest;
    }
    TrimEndCons(c, Collapse(rest));
    EndTrimmedWord(c, rest);
  }

  lemma TrimEndSpace(s: string)
    ensures TrimEnd(" " + s) == if TrimEnd(s) == "" then "" else " " + TrimEnd(s)
  {
    TrimEndCons(' ', s);
    assert " " == [' '];
  }

  lemma CollapseTrimEndSpaces(c: char, rest: string)
    requires IsWhitespace(c) && rest != [] && IsWhitespace(rest[0]) && TrimEnd(Collapse(rest)) == EndTrimmed(rest)
    ensures TrimEnd(Collapse([c] + rest)) == EndTrimmed([c] + rest)
  {
    assert Collapse([c] + rest) == Collapse(rest) by {
      assert ([c] + rest)[1..] == rest;
    }
    EndTrimmedSpace(c, rest);
    NormalEmpty(rest);
  }

  lemma CollapseTrimEndSpace(c: char, rest: string)
    requires IsWhitespace(c) && (rest == [] || !IsWhitespace(rest[0])) && TrimEnd(Collapse(rest)) == EndTrimmed(rest)
    ensures TrimEnd(Collapse([c] + rest)) == EndTrimmed([c] + rest)
  {
    assert Collapse([c] + rest) == " " + Collapse(rest) by {
      assert ([c] + rest)[1..] == rest;
    }
    assert EndTrimmed(rest) == Normal(rest);
    TrimEndSpace(Collapse(rest));
    EndTrimmedSpace(c, rest);
    NormalEmpty(rest);
  }

  lemma {:induction false} CollapseTrimEnd(s: string)
    ensures TrimEnd(Collapse(s)) == EndTrimmed(s)
  {
    if s != [] {
      var c, rest := s[0], s[1..];
      CollapseTrimEnd(rest);
      if !IsWhitespace(c) {
        CollapseTrimEndWord(c, rest);
      } else if rest != [] && IsWhitespace(rest[0]) {
        CollapseTrimEndSpaces(c, rest);
      } else {
        CollapseTrimEndSpace(c, rest);
      }
      assert s == [c] + rest;
    }
  }

  /** `s.replace(/\s+/g, " ").trim()` leaves the words, one space apart. */
  lemma TrimCollapse(s: string)
    ensures Trim(Collapse(s)) == Normal(s)
  {
    CollapseTrimStart(s);
    TrimStartClean(s);
    CollapseTrimEnd(TrimStart(s));
    WordsTrimStart(s);
  }

  lemma {:induction false} JoinNoBreaks(ws: seq<string>)
    requires forall w :: w in ws ==> IsWord(w)
    ensures '\n' !in Join(ws, " ")
  {
    if |ws| == 1 {
      assert IsWord(ws[0]);
    } else if ws != [] {
      assert IsWord(ws[0]);
      JoinNoBreaks(ws[1..]);
    }
  }

  /** A normal text is one trimmed line, and is its own normal form. */
  lemma NormalIsLine(s: string)
    ensures '\n' !in Normal(s) && Trim(Normal(s)) == Normal(s) && Normal(Normal(s)) == Normal(s)
  {
    WordsClean(s);
    JoinNoBreaks(Words(s));
    TrimCollapse(s);
    TrimTwice(Collapse(s));
    WordsOfNormal(s);
  }
}
