/** The JavaScript string operations the modelled code relies on. */
module JsText {

  /** White space and line terminators of ECMA-262, section 22.1.3.32 (`trim`) and `\s`. */
  predicate IsWhitespace(c: char) {
    || '\t' <= c <= '\r' || c == ' ' || c == '\U{A0}' || c == '\U{1680}' || '\U{2000}' <= c <= '\U{200A}'
    || '\U{2028}' <= c <= '\U{2029}' || c == '\U{202F}' || c == '\U{205F}' || c == '\U{3000}' || c == '\U{FEFF}'
  }

  function TrimStart(s: string): string {
    if s != [] && IsWhitespace(s[0]) then TrimStart(s[1..]) else s
  }

  function TrimEnd(s: string): string {
    if s != [] && IsWhitespace(s[|s| - 1]) then TrimEnd(s[..|s| - 1]) else s
  }

  function Trim(s: string): string {
    TrimEnd(TrimStart(s))
  }

  /** `!s.trim()` */
  predicate IsBlank(s: string) {
    Trim(s) == ""
  }

  /** Lower-casing of the ASCII letters; other letters stay as they are. */
  function ToLower(s: string): string {
    if s == [] then []
    else [if 'A' <= s[0] <= 'Z' then (s[0] as int - 'A' as int + 'a' as int) as char else s[0]] + ToLower(s[1..])
  }

  predicate StartsWith(s: string, prefix: string) {
    prefix <= s
  }

  /** `s.includes(part)` */
  predicate Includes(s: string, part: string) {
    part <= s || (s != [] && Includes(s[1..], part))
  }

  /** `s.split(sep)` for a one-character separator. */
  function Split(s: string, sep: char): (parts: seq<string>)
    ensures parts != []
  {
    if s == [] then [[]]
    else if s[0] == sep then [[]] + Split(s[1..], sep)
    else Extend(s[0], Split(s[1..], sep))
  }

  /** Puts a character in front of the first part. */
  function Extend(c: char, parts: seq<string>): (r: seq<string>)
    requires parts != []
    ensures r != []
  {
    [[c] + parts[0]] + parts[1..]
  }

  function Join(parts: seq<string>, sep: string): string {
    if parts == [] then ""
    else if |parts| == 1 then parts[0]
    else parts[0] + sep + Join(parts[1..], sep)
  }

  // ---------------------------------------------------------------- lemmas

  lemma {:induction false} ToLowerFixes(s: string)
    requires forall i :: 0 <= i < |s| ==> !('A' <= s[i] <= 'Z')
    ensures ToLower(s) == s
  {
    if s != [] {
      ToLowerFixes(s[1..]);
    }
  }

  lemma {:induction false} SplitSingle(a: string, sep: char)
    requires sep !in a
    ensures Split(a, sep) == [a]
  {
    if a != [] {
      SplitSingle(a[1..], sep);
      assert [a[0]] + a[1..] == a;
    }
  }

  lemma ExtendConcat(c: char, ra: seq<string>, rb: seq<string>)
    requires ra != []
    ensures Extend(c, ra + rb) == Extend(c, ra) + rb
  {
  }

  lemma SplitCons(c: char, s: string, sep: char)
    ensures Split([c] + s, sep) == if c == sep then [[]] + Split(s, sep) else Extend(c, Split(s, sep))
  {
    assert ([c] + s)[1..] == s;
  }

  /** A separator between two texts is a split point. */
  lemma {:induction false} SplitConcat(a: string, b: string, sep: char)
    ensures Split(a + [sep] + b, sep) == Split(a, sep) + Split(b, sep)
  {
    if a == [] {
      assert a + [sep] + b == [sep] + b;
      SplitCons(sep, b, sep);
    } else {
      var c, front, rest := a[0], a[1..], a[1..] + [sep] + b;
      SplitConcat(front, b, sep);
      assert a + [sep] + b == [c] + rest && a == [c] + front;
      SplitCons(c, rest, sep);
      SplitCons(c, front, sep);
      if c == sep {
        Associates([[]], Split(front, sep), Split(b, sep));
      } else {
        ExtendConcat(c, Split(front, sep), Split(b, sep));
      }
    }
  }

  lemma Associates(x: seq<string>, y: seq<string>, z: seq<string>)
    ensures x + (y + z) == (x + y) + z
  {
  }

  lemma SplitJoined(a: string, b: string, sep: char)
    requires sep !in a
    ensures Split(a + [sep] + b, sep) == [a] + Split(b, sep)
  {
    SplitConcat(a, b, sep);
    SplitSingle(a, sep);
  }

  /** Splitting a joined list gives the list back. */
  lemma {:induction false} SplitJoin(parts: seq<string>, sep: char)
    requires parts != [] && forall p :: p in parts ==> sep !in p
    ensures Split(Join(parts, [sep]), sep) == parts
  {
    if |parts| == 1 {
      SplitSingle(parts[0], sep);
    } else {
      SplitJoin(parts[1..], sep);
      SplitJoined(parts[0], Join(parts[1..], [sep]), sep);
    }
  }

  lemma {:induction false} JoinSplit(s: string, sep: char)
    ensures Join(Split(s, sep), [sep]) == s
  {
    if s != [] {
      JoinSplit(s[1..], sep);
      var rest := Split(s[1..], sep);
      if s[0] == sep {
        assert ([[]] + rest)[1..] == rest;
      } else {
        assert Extend(s[0], rest)[1..] == rest[1..];
      }
    }
  }
}
