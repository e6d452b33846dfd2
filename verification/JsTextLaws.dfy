/** What the JavaScript string operations mean, said of the characters of a text. */
module JsTextLaws {
  import opened JsText

  predicate AllWhitespace(s: string) {
    forall c :: c in s ==> IsWhitespace(c)
  }

  /** The 25 characters that count as white space. */
  lemma WhitespaceCharacters(c: char)
    ensures IsWhitespace(c) <==>
            c in "\t\n\U{B}\U{C}\r \U{A0}\U{1680}" || c in "\U{2000}\U{2001}\U{2002}\U{2003}\U{2004}\U{2005}"
            || c in "\U{2006}\U{2007}\U{2008}\U{2009}\U{200A}" || c in "\U{2028}\U{2029}\U{202F}\U{205F}\U{3000}\U{FEFF}"
  {
  }

  lemma {:induction false} TrimStartExactly(s: string) returns (n: nat)
    ensures n <= |s| && TrimStart(s) == s[n..] && AllWhitespace(s[..n])
    ensures n < |s| ==> !IsWhitespace(s[n])
  {
    if s != [] && IsWhitespace(s[0]) {
      var k := TrimStartExactly(s[1..]);
      n := k + 1;
      assert s[..n] == [s[0]] + s[1..][..k];
    } else {
      n := 0;
    }
  }

  lemma {:induction false} TrimEndExactly(s: string) returns (n: nat)
    ensures n <= |s| && TrimEnd(s) == s[..n] && AllWhitespace(s[n..])
    ensures n > 0 ==> !IsWhitespace(s[n - 1])
  {
    if s != [] && IsWhitespace(s[|s| - 1]) {
      var front := s[..|s| - 1];
      n := TrimEndExactly(front);
      assert s[n..] == front[n..] + [s[|s| - 1]];
    } else {
      n := |s|;
    }
  }

  /** Trimming takes off all white space at both ends and nothing else. */
  lemma TrimExactly(s: string) returns (before: string, after: string)
    ensures s == before + Trim(s) + after && AllWhitespace(before) && AllWhitespace(after)
    ensures Trim(s) != "" ==> !IsWhitespace(Trim(s)[0]) && !IsWhitespace(Trim(s)[|Trim(s)| - 1])
    ensures Trim(s) == "" ==> after == ""
  {
    var n := TrimStartExactly(s);
    var t := s[n..];
    var m := TrimEndExactly(t);
    before, after := s[..n], t[m..];
    assert s == before + t && t == t[..m] + after;
  }

  /** A text is blank when it has no character that is not white space. */
  lemma BlankExactly(s: string)
    ensures IsBlank(s) <==> AllWhitespace(s)
  {
    var before, after := TrimExactly(s);
    if Trim(s) != "" {
      assert s[|before|] == Trim(s)[0];
      assert s[|before|] in s;
    }
  }

  lemma {:induction false} ToLowerAt(s: string)
    ensures |ToLower(s)| == |s|
    ensures forall i :: 0 <= i < |s| ==>
              ToLower(s)[i] == if 'A' <= s[i] <= 'Z' then s[i] - 'A' + 'a' else s[i]
  {
    if s != [] {
      ToLowerAt(s[1..]);
    }
  }

  lemma ToLowerSlice(s: string, i: nat, j: nat)
    requires i <= j <= |s|
    ensures |ToLower(s)| == |s| && ToLower(s[i..j]) == ToLower(s)[i..j]
  {
    ToLowerAt(s);
    ToLowerAt(s[i..j]);
  }

  /** `part` stands at position `i` of `s`. */
  predicate OccursAt(part: string, s: string, i: nat) {
    i + |part| <= |s| && s[i..i + |part|] == part
  }

  ghost predicate OccursIn(part: string, s: string) {
    exists i: nat :: OccursAt(part, s, i)
  }

  lemma OccursShift(part: string, s: string, i: nat)
    requires s != []
    ensures OccursAt(part, s[1..], i) <==> OccursAt(part, s, i + 1)
  {
    if i + 1 + |part| <= |s| {
      assert s[1..][i..i + |part|] == s[i + 1..i + 1 + |part|];
    }
  }

  lemma {:induction false} IncludesExactly(s: string, part: string)
    ensures Includes(s, part) <==> OccursIn(part, s)
  {
    if part <= s {
      assert OccursAt(part, s, 0);
    } else if s != [] {
      IncludesExactly(s[1..], part);
      if i: nat :| OccursAt(part, s[1..], i) {
        OccursShift(part, s, i);
      }
      if i: nat :| OccursAt(part, s, i) {
        assert i > 0;
        OccursShift(part, s, i - 1);
      }
    }
  }

  /** A lower-case text stands at position `i`, in letters of any case. */
  predicate LowerOccursAt(part: string, s: string, i: nat) {
    i + |part| <= |s| && ToLower(s[i..i + |part|]) == part
  }

  lemma LowerOccurs(part: string, s: string)
    ensures Includes(ToLower(s), part) <==> exists i: nat :: LowerOccursAt(part, s, i)
  {
    IncludesExactly(ToLower(s), part);
    ToLowerAt(s);
    forall i: nat ensures LowerOccursAt(part, s, i) <==> OccursAt(part, ToLower(s), i) {
      if i + |part| <= |s| {
        ToLowerSlice(s, i, i + |part|);
      }
    }
  }
}
