/** `sliceUtf16Safe` and `truncateUtf16Safe` (src/utils.ts) on strings of UTF-16 code units
    (section 2.2 of RFC 2781). */
module Utf16Slice {
  import opened Wrappers

  type CodeUnit = u: nat | u < 0x10000

  predicate IsHighSurrogate(u: CodeUnit) {
    0xd800 <= u <= 0xdbff
  }

  predicate IsLowSurrogate(u: CodeUnit) {
    0xdc00 <= u <= 0xdfff
  }

  /** Position `i` lies between the two halves of a surrogate pair. */
  predicate CutsPair(s: seq<CodeUnit>, i: int) {
    0 < i < |s| && IsHighSurrogate(s[i - 1]) && IsLowSurrogate(s[i])
  }

  /** A negative index counts from the end; both are clamped to the string. */
  function Clamp(len: nat, index: int): (r: nat)
    ensures r <= len
  {
    if index < 0 then (if len + index < 0 then 0 else len + index) else if index < len then index else len
  }

  function Min(a: nat, b: nat): nat {
    if a < b then a else b
  }

  function Max(a: nat, b: nat): nat {
    if a < b then b else a
  }

  /** The clamped range, in ascending order. */
  function ClampedStart(len: nat, start: int, end: Option<int>): (r: nat)
    ensures r <= len
  {
    Min(Clamp(len, start), if end.None? then len else Clamp(len, end.value))
  }

  function ClampedEnd(len: nat, start: int, end: Option<int>): (r: nat)
    ensures r <= len
  {
    Max(Clamp(len, start), if end.None? then len else Clamp(len, end.value))
  }

  /** `s.slice(from, to)` for indexes inside the string. */
  function Slice(s: seq<CodeUnit>, from: int, to: int): seq<CodeUnit>
    requires 0 <= from <= |s| && 0 <= to <= |s|
  {
    if from <= to then s[from..to] else []
  }

  method SliceUtf16Safe(input: seq<CodeUnit>, start: int, end: Option<int>) returns (r: seq<CodeUnit>)
    ensures var lo, hi := ClampedStart(|input|, start, end), ClampedEnd(|input|, start, end);
            exists a, b :: SafePiece(input, lo, hi, a, b) && r == input[a..b]
  {
    var len := |input|;
    var from := if start < 0 then (if len + start > 0 then len + start else 0) else if start < len then start else len;
    var to := if end.None? then len
              else if end.value < 0 then (if len + end.value > 0 then len + end.value else 0)
              else if end.value < len then end.value else len;
    if to < from {
      var tmp := from;
      from := to;
      to := tmp;
    }
    ghost var lo, hi := from, to;
    if from > 0 && from < len {
      var codeUnit := input[from];
      if IsLowSurrogate(codeUnit) && IsHighSurrogate(input[from - 1]) {
        from := from + 1;
      }
    }
    if to > 0 && to < len {
      var codeUnit := input[to - 1];
      if IsHighSurrogate(codeUnit) && IsLowSurrogate(input[to]) {
        to := to - 1;
      }
    }
    r := Slice(input, from, to);
    PieceFound(input, lo, hi, from, to);
  }

  lemma PieceFound(s: seq<CodeUnit>, lo: nat, hi: nat, from: int, to: int)
    requires lo <= hi <= |s|
    requires from == if CutsPair(s, lo) then lo + 1 else lo
    requires to == if CutsPair(s, hi) then hi - 1 else hi
    ensures exists a, b :: SafePiece(s, lo, hi, a, b) && Slice(s, from, to) == s[a..b]
  {
    PieceBetween(s, lo, hi);
    if from <= to {
      assert SafePiece(s, lo, hi, from, to) && Slice(s, from, to) == s[from..to];
    } else {
      assert SafePiece(s, lo, hi, lo, lo) && Slice(s, from, to) == s[lo..lo];
    }
  }

  /** Moving inwards past half of a pair at each end leaves the safe piece. */
  lemma PieceBetween(s: seq<CodeUnit>, lo: nat, hi: nat)
    requires lo <= hi <= |s|
    ensures var from, to := if CutsPair(s, lo) then lo + 1 else lo, if CutsPair(s, hi) then hi - 1 else hi;
            if from <= to then SafePiece(s, lo, hi, from, to) else SafePiece(s, lo, hi, lo, lo)
  {
  }

  /** The longest piece of the range that cuts no surrogate pair at either end; at most one
      unit is missing at each end.  It is empty when the range holds no such piece. */
  ghost predicate SafePiece(s: seq<CodeUnit>, lo: nat, hi: nat, a: int, b: int) {
    && lo <= a <= b <= hi <= |s|
    && (a < b ==> !CutsPair(s, a) && !CutsPair(s, b) && a <= lo + 1 && hi <= b + 1)
    && (forall x, y :: lo <= x < y <= hi && !CutsPair(s, x) && !CutsPair(s, y) ==> a <= x && y <= b)
    && (a == b ==> hi - lo <= 2)
  }

  /** The units of the piece are determined by the range. */
  lemma SafePieceUnique(s: seq<CodeUnit>, lo: nat, hi: nat, a: int, b: int, c: int, d: int)
    requires SafePiece(s, lo, hi, a, b) && SafePiece(s, lo, hi, c, d)
    ensures s[a..b] == s[c..d]
  {
    if a < b {
      assert c <= a && b <= d;
    }
    if c < d {
      assert a <= c && d <= b;
    }
  }

  // ---------------------------------------------------------------- well-formed strings

  /** Every surrogate is half of a pair. */
  predicate WellFormed(s: seq<CodeUnit>) {
    if s == [] then true
    else if IsLowSurrogate(s[0]) then false
    else if !IsHighSurrogate(s[0]) then WellFormed(s[1..])
    else |s| > 1 && IsLowSurrogate(s[1]) && WellFormed(s[2..])
  }

  lemma {:induction false} WellFormedSuffix(s: seq<CodeUnit>, i: nat)
    requires WellFormed(s) && i <= |s| && !CutsPair(s, i)
    ensures WellFormed(s[i..])
    decreases |s|
  {
    if i > 0 {
      var n := if IsHighSurrogate(s[0]) then 2 else 1;
      var rest := s[n..];
      assert i >= n;
      if 0 < i - n < |rest| {
        assert rest[i - n] == s[i] && rest[i - n - 1] == s[i - 1];
      }
      WellFormedSuffix(rest, i - n);
      assert rest[i - n..] == s[i..];
    } else {
      assert s[0..] == s;
    }
  }

  lemma {:induction false} WellFormedPrefix(s: seq<CodeUnit>, i: nat)
    requires WellFormed(s) && i <= |s| && !CutsPair(s, i)
    ensures WellFormed(s[..i])
    decreases |s|
  {
    if i > 0 {
      var n := if IsHighSurrogate(s[0]) then 2 else 1;
      var rest := s[n..];
      assert i >= n;
      if 0 < i - n < |rest| {
        assert rest[i - n] == s[i] && rest[i - n - 1] == s[i - 1];
      }
      WellFormedPrefix(rest, i - n);
      assert s[..i][n..] == rest[..i - n];
    }
  }

  /** A well-formed string gives a well-formed slice. */
  lemma SliceKeepsWellFormed(s: seq<CodeUnit>, lo: nat, hi: nat, a: int, b: int)
    requires WellFormed(s) && SafePiece(s, lo, hi, a, b)
    ensures WellFormed(s[a..b])
  {
    if a < b {
      WellFormedPrefix(s, b);
      var front := s[..b];
      WellFormedSuffix(front, a);
      assert front[a..] == s[a..b];
    }
  }

  // ---------------------------------------------------------------- truncation

  /** A prefix of at most `limit` units, shorter than that by the half of a pair at most. */
  ghost predicate Truncated(s: seq<CodeUnit>, limit: nat, r: seq<CodeUnit>) {
    && r <= s && |r| <= limit
    && (|s| <= limit ==> r == s)
    && (|s| > limit ==> |r| == if CutsPair(s, limit) then limit - 1 else limit)
  }

  method TruncateUtf16Safe(input: seq<CodeUnit>, maxLen: real) returns (r: seq<CodeUnit>)
    ensures Truncated(input, if maxLen < 0.0 then 0 else maxLen.Floor, r)
  {
    var limit := if maxLen.Floor < 0 then 0 else maxLen.Floor;
    if |input| <= limit {
      return input;
    }
    r := SliceUtf16Safe(input, 0, Some(limit));
    PrefixPiece(input, limit, r);
  }

  lemma PrefixPiece(s: seq<CodeUnit>, limit: nat, r: seq<CodeUnit>)
    requires limit < |s| && exists a, b :: SafePiece(s, 0, limit, a, b) && r == s[a..b]
    ensures Truncated(s, limit, r)
  {
    var a, b :| SafePiece(s, 0, limit, a, b) && r == s[a..b];
    var c := if CutsPair(s, limit) then limit - 1 else limit;
    assert !CutsPair(s, 0) && !CutsPair(s, c);
    if c > 0 {
      assert a <= 0 && c <= b;
    }
  }

  /** A truncated well-formed string is well formed, and slicing off the rest at its end
      gives the string back. */
  lemma TruncateAndRest(s: seq<CodeUnit>, limit: nat, r: seq<CodeUnit>, a: int, b: int)
    requires WellFormed(s) && Truncated(s, limit, r) && SafePiece(s, |r|, |s|, a, b)
    ensures WellFormed(r) && r + s[a..b] == s
  {
    assert !CutsPair(s, |r|);
    WellFormedPrefix(s, |r|);
    assert r == s[..|r|] && !CutsPair(s, |s|);
    if |r| < |s| {
      assert a <= |r| && |s| <= b;
    }
  }
}
