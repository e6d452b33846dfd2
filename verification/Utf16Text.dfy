/** Slicing and truncating (src/utils.ts) said of the characters that a string of UTF-16 code
    units encodes (section 2.1 of RFC 2781). */
module Utf16Text {
  import opened Wrappers
  import opened Utf16Slice

  /** A Unicode scalar value. */
  type Scalar = c: nat | c < 0xD800 || 0xE000 <= c < 0x110000

  function Units(c: Scalar): seq<CodeUnit> {
    if c < 0x10000 then [c] else [0xD800 + (c - 0x10000) / 0x400, 0xDC00 + (c - 0x10000) % 0x400]
  }

  function Encode(cs: seq<Scalar>): seq<CodeUnit> {
    if cs == [] then [] else Units(cs[0]) + Encode(cs[1..])
  }

  // ---------------------------------------------------------------- pairs and characters

  /** Two units are the halves of a pair exactly when they encode one character. */
  lemma PairsExactly(high: CodeUnit, low: CodeUnit)
    ensures IsHighSurrogate(high) && IsLowSurrogate(low) <==> exists c: Scalar :: Units(c) == [high, low]
  {
    if IsHighSurrogate(high) && IsLowSurrogate(low) {
      var c := 0x10000 + (high - 0xD800) * 0x400 + (low - 0xDC00);
      QuotientAndRest(high - 0xD800, low - 0xDC00);
      assert Units(c) == [high, low];
    }
    if c: Scalar :| Units(c) == [high, low] {
      assert high == [high, low][0] && low == [high, low][1];
    }
  }

  lemma QuotientAndRest(q: nat, r: nat)
    requires r < 0x400
    ensures (q * 0x400 + r) / 0x400 == q && (q * 0x400 + r) % 0x400 == r
  {
  }

  lemma UnitsOf(c: Scalar)
    ensures 1 <= |Units(c)| <= 2
    ensures |Units(c)| == 1 ==> !IsHighSurrogate(Units(c)[0]) && !IsLowSurrogate(Units(c)[0])
    ensures |Units(c)| == 2 ==> IsHighSurrogate(Units(c)[0]) && IsLowSurrogate(Units(c)[1])
  {
  }

  lemma EncodeCons(c: Scalar, cs: seq<Scalar>)
    ensures Encode([c] + cs) == Units(c) + Encode(cs)
  {
    assert ([c] + cs)[1..] == cs;
  }

  lemma {:induction false} EncodeStarts(cs: seq<Scalar>)
    ensures Encode(cs) != [] ==> !IsLowSurrogate(Encode(cs)[0])
    ensures WellFormed(Encode(cs))
    ensures |cs| <= |Encode(cs)|
  {
    if cs != [] {
      EncodeStarts(cs[1..]);
      UnitsOf(cs[0]);
      var s := Encode(cs);
      assert s[|Units(cs[0])|..] == Encode(cs[1..]);
    }
  }

  lemma {:induction false} Decoded(s: seq<CodeUnit>) returns (cs: seq<Scalar>)
    requires WellFormed(s)
    ensures Encode(cs) == s
    decreases |s|
  {
    if s == [] {
      cs := [];
    } else if IsHighSurrogate(s[0]) {
      PairsExactly(s[0], s[1]);
      var c: Scalar :| Units(c) == [s[0], s[1]];
      var rest := Decoded(s[2..]);
      cs := [c] + rest;
      EncodeCons(c, rest);
      assert s == [s[0], s[1]] + s[2..];
    } else {
      var rest := Decoded(s[1..]);
      var c: Scalar := s[0];
      cs := [c] + rest;
      EncodeCons(c, rest);
      assert s == [s[0]] + s[1..];
    }
  }

  /** A string is well formed exactly when it encodes some characters. */
  lemma WellFormedExactly(s: seq<CodeUnit>)
    ensures WellFormed(s) <==> exists cs :: Encode(cs) == s
  {
    if WellFormed(s) {
      var cs := Decoded(s);
    }
    if cs :| Encode(cs) == s {
      EncodeStarts(cs);
    }
  }

  lemma {:induction false} EncodeConcat(a: seq<Scalar>, b: seq<Scalar>)
    ensures Encode(a + b) == Encode(a) + Encode(b)
  {
    if a == [] {
      assert a + b == b;
    } else {
      assert (a + b)[1..] == a[1..] + b;
      EncodeConcat(a[1..], b);
    }
  }

  /** The end of each prefix of the characters cuts no pair. */
  lemma PrefixCutsNothing(cs: seq<Scalar>, k: nat)
    requires k <= |cs|
    ensures var n := |Encode(cs[..k])|;
            n <= |Encode(cs)| && Encode(cs)[..n] == Encode(cs[..k]) && !CutsPair(Encode(cs), n)
  {
    assert cs == cs[..k] + cs[k..];
    EncodeConcat(cs[..k], cs[k..]);
    EncodeStarts(cs[k..]);
    var n := |Encode(cs[..k])|;
    if n < |Encode(cs)| {
      assert Encode(cs)[n] == Encode(cs[k..])[0];
    }
  }

  /** Behind the first character a position cuts a pair just where it does in the rest. */
  lemma CutsBehind(c: Scalar, rest: seq<CodeUnit>, i: nat)
    requires 0 < i && !CutsPair(Units(c) + rest, i)
    ensures |Units(c)| <= i && !CutsPair(rest, i - |Units(c)|)
  {
    var s, n := Units(c) + rest, |Units(c)|;
    UnitsOf(c);
    assert s[0] == Units(c)[0] && (n == 2 ==> s[1] == Units(c)[1]);
    if 0 < i - n < |rest| {
      assert rest[i - n] == s[i] && rest[i - n - 1] == s[i - 1];
    }
  }

  /** A position that cuts no pair lies between two characters. */
  lemma {:induction false} PositionOfPrefix(cs: seq<Scalar>, i: nat) returns (k: nat)
    requires i <= |Encode(cs)| && !CutsPair(Encode(cs), i)
    ensures k <= |cs| && |Encode(cs[..k])| == i && Encode(cs[..k]) == Encode(cs)[..i]
  {
    if i == 0 {
      k := 0;
    } else {
      var n, rest := |Units(cs[0])|, Encode(cs[1..]);
      CutsBehind(cs[0], rest, i);
      var m := PositionOfPrefix(cs[1..], i - n);
      k := m + 1;
      assert cs[..k] == [cs[0]] + cs[1..][..m];
      EncodeCons(cs[0], cs[1..][..m]);
      assert Encode(cs)[..i] == Units(cs[0]) + rest[..i - n];
    }
  }

  // ---------------------------------------------------------------- truncating and slicing characters

  /** The first characters of `cs`, as many as fit within `limit` units. */
  ghost predicate LongestWhole(cs: seq<Scalar>, limit: nat, k: nat) {
    k <= |cs| && |Encode(cs[..k])| <= limit && (k < |cs| ==> |Encode(cs[..k + 1])| > limit)
  }

  lemma OneMoreUnit(cs: seq<Scalar>, k: nat)
    requires k < |cs|
    ensures |Encode(cs[..k + 1])| == |Encode(cs[..k])| + |Units(cs[k])|
  {
    assert cs[..k + 1] == cs[..k] + [cs[k]];
    EncodeConcat(cs[..k], [cs[k]]);
    EncodeCons(cs[k], []);
    assert [cs[k]] + [] == [cs[k]];
  }

  /** Truncating keeps the longest list of whole characters that fits within the limit. */
  lemma TruncatedIsWhole(cs: seq<Scalar>, limit: nat, r: seq<CodeUnit>) returns (k: nat)
    requires Truncated(Encode(cs), limit, r)
    ensures LongestWhole(cs, limit, k) && r == Encode(cs[..k])
  {
    var s := Encode(cs);
    assert r == s[..|r|];
    assert !CutsPair(s, |r|);
    k := PositionOfPrefix(cs, |r|);
    if k < |cs| {
      OneMoreUnit(cs, k);
      UnitsOf(cs[k]);
      PrefixCutsNothing(cs, k + 1);
      assert |r| < |s|;
    } else {
      assert cs[..k] == cs;
    }
  }

  /** A slice of encoded characters is the encoding of some of them in a row. */
  lemma SliceIsWhole(cs: seq<Scalar>, lo: nat, hi: nat, a: int, b: int) returns (i: nat, j: nat)
    requires SafePiece(Encode(cs), lo, hi, a, b)
    ensures i <= j <= |cs| && Encode(cs)[a..b] == Encode(cs[i..j])
  {
    if a == b {
      i, j := 0, 0;
    } else {
      j := PositionOfPrefix(cs, b);
      var front := cs[..j];
      assert !CutsPair(Encode(front), a) && Encode(front) == Encode(cs)[..b];
      i := PositionOfPrefix(front, a);
      assert front == front[..i] + front[i..];
      EncodeConcat(front[..i], front[i..]);
      assert Encode(front)[a..] == Encode(cs)[a..b];
      assert front[i..] == cs[i..j];
    }
  }

  // ---------------------------------------------------------------- the range of a slice

  function Distance(a: int, b: int): nat {
    if a < b then b - a else a - b
  }

  /** The position in the string that is closest to `target`. */
  ghost predicate Closest(len: nat, target: int, p: nat) {
    p <= len && forall q: nat :: q <= len ==> Distance(p, target) <= Distance(q, target)
  }

  /** A negative index counts from the end, and an index outside the string means its nearer
      end; the range lies between the two, whichever comes first. */
  lemma RangeExactly(len: nat, start: int, end: Option<int>) returns (from: nat, to: nat)
    ensures Closest(len, if start < 0 then len + start else start, from)
    ensures Closest(len, match end case None => len case Some(e) => if e < 0 then len + e else e, to)
    ensures ClampedStart(len, start, end) <= ClampedEnd(len, start, end)
    ensures {ClampedStart(len, start, end), ClampedEnd(len, start, end)} == {from, to}
  {
    from, to := Clamp(len, start), match end case None => len case Some(e) => Clamp(len, e);
  }
}
