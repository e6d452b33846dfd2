/** `buildTranslationBatches` (scripts/control-ui-i18n.ts): greedy batching under an item
    limit and a character budget. */
module TranslationBatches {
  import opened JsText

  const MAX_BATCH_ITEMS: nat := 20

  datatype BatchItem = BatchItem(cacheKey: string, key: string, text: string, textHash: string)

  function SumChars(items: seq<BatchItem>): nat {
    if items == [] then 0 else |items[0].key| + |items[0].text| + 8 + SumChars(items[1..])
  }

  function EstimateBatchChars(items: seq<BatchItem>): nat {
    2 + SumChars(items)
  }

  /** What the loop counts for a batch: every item is estimated as a batch of its own,
      so its constant 2 is added again. */
  function Accounted(items: seq<BatchItem>): nat {
    EstimateBatchChars(items) + 2 * |items|
  }

  function Concat(batches: seq<seq<BatchItem>>): seq<BatchItem> {
    if batches == [] then [] else batches[0] + Concat(batches[1..])
  }

  /** The limits on one batch; a single item may exceed the budget. */
  predicate Fits(b: seq<BatchItem>, budget: int) {
    1 <= |b| <= MAX_BATCH_ITEMS && (|b| == 1 || Accounted(b) <= budget)
  }

  ghost predicate IsSplit(batches: seq<seq<BatchItem>>, items: seq<BatchItem>, budget: int) {
    Concat(batches) == items && forall b :: b in batches ==> Fits(b, budget)
  }

  /** A split within the limits, and none has fewer batches. */
  ghost predicate IsLeastSplit(batches: seq<seq<BatchItem>>, items: seq<BatchItem>, budget: int) {
    IsSplit(batches, items, budget) && forall other :: IsSplit(other, items, budget) ==> |batches| <= |other|
  }

  /** No batch could have taken the first item of the next one. */
  ghost predicate Greedy(batches: seq<seq<BatchItem>>, budget: int) {
    forall i, j :: 0 <= i < j < |batches| && j == i + 1 && batches[j] != [] ==>
      !Fits(batches[i] + [batches[j][0]], budget)
  }

  lemma GreedyGrows(batches: seq<seq<BatchItem>>, b: seq<BatchItem>, x: BatchItem, budget: int)
    requires Greedy(batches + [b], budget) && b != []
    ensures Greedy(batches + [b + [x]], budget)
    ensures !Fits(b + [x], budget) ==> Greedy(batches + [b] + [[x]], budget)
  {
    var before, grown, next := batches + [b], batches + [b + [x]], batches + [b] + [[x]];
    forall i, j | 0 <= i < j < |grown| && j == i + 1 && grown[j] != []
      ensures !Fits(grown[i] + [grown[j][0]], budget)
    {
      assert grown[i] == before[i] && before[j] != [] && grown[j][0] == before[j][0];
    }
    forall i, j | !Fits(b + [x], budget) && 0 <= i < j < |next| && j == i + 1 && next[j] != []
      ensures !Fits(next[i] + [next[j][0]], budget)
    {
      if j < |before| {
        assert next[i] == before[i] && next[j] == before[j];
      }
    }
  }

  lemma {:induction false} SumCharsConcat(a: seq<BatchItem>, b: seq<BatchItem>)
    ensures SumChars(a + b) == SumChars(a) + SumChars(b)
  {
    if a == [] {
      assert a + b == b;
    } else {
      SumCharsConcat(a[1..], b);
      assert (a + b)[1..] == a[1..] + b;
    }
  }

  lemma {:induction false} ConcatAppend(batches: seq<seq<BatchItem>>, b: seq<BatchItem>)
    ensures Concat(batches + [b]) == Concat(batches) + b
  {
    if batches == [] {
      assert batches + [b] == [b];
      assert Concat([b]) == b + Concat([]);
    } else {
      ConcatAppend(batches[1..], b);
      assert (batches + [b])[1..] == batches[1..] + [b];
    }
  }

  /** Limits pass to every contiguous non-empty part of a batch. */
  lemma PartFits(before: seq<BatchItem>, part: seq<BatchItem>, after: seq<BatchItem>, budget: int)
    requires part != [] && Fits(before + part + after, budget)
    ensures Fits(part, budget)
  {
    SumCharsConcat(before + part, after);
    SumCharsConcat(before, part);
  }

  /** Two ways to split a list in two. */
  lemma SameList(a: seq<BatchItem>, r: seq<BatchItem>, h: seq<BatchItem>, t: seq<BatchItem>)
    requires a + r == h + t && |a| <= |h|
    ensures r == h[|a|..] + t
  {
    assert r == (a + r)[|a|..];
    assert (h + t)[|a|..] == h[|a|..] + t;
  }

  lemma GreedyTail(greedy: seq<seq<BatchItem>>, budget: int)
    requires greedy != [] && Greedy(greedy, budget) && forall b :: b in greedy ==> Fits(b, budget)
    ensures Greedy(greedy[1..], budget) && forall b :: b in greedy[1..] ==> Fits(b, budget)
  {
  }

  /** No batch of another split that starts `lag` early reaches past the first greedy batch. */
  lemma FirstReaches(greedy: seq<seq<BatchItem>>, a: seq<BatchItem>, rest: seq<BatchItem>, lag: seq<BatchItem>, budget: int)
    requires greedy != [] && Greedy(greedy, budget) && forall b :: b in greedy ==> Fits(b, budget)
    requires Fits(a, budget) && a + rest == (lag + greedy[0]) + Concat(greedy[1..])
    ensures |a| <= |lag + greedy[0]|
  {
    if |a| > |lag + greedy[0]| {
      var g, gs, all := greedy[0], greedy[1..], a + rest;
      assert Concat(gs) != [];
      var next := gs[0];
      assert next == greedy[1] && greedy[1] in greedy && Concat(gs)[0] == next[0];
      assert a == all[..|a|] && lag + g + [next[0]] == all[..|lag + g| + 1];
      TakesNext(all, a, lag, g, next[0], budget);
      assert false;
    }
  }

  /** The first batch of another split covers no more than `lag` and the first greedy batch. */
  lemma GreedyFirst(greedy: seq<seq<BatchItem>>, other: seq<seq<BatchItem>>, lag: seq<BatchItem>, budget: int)
    requires greedy != [] && forall b :: b in greedy ==> Fits(b, budget)
    requires Greedy(greedy, budget)
    requires IsSplit(other, lag + Concat(greedy), budget)
    ensures other != [] && |other[0]| <= |lag + greedy[0]|
    ensures IsSplit(other[1..], (lag + greedy[0])[|other[0]|..] + Concat(greedy[1..]), budget)
  {
    var g := greedy[0];
    assert g in greedy;
    assert lag + Concat(greedy) == (lag + g) + Concat(greedy[1..]);
    assert other != [];
    var a, rest := other[0], Concat(other[1..]);
    assert a in other;
    FirstReaches(greedy, a, rest, lag, budget);
    SameList(a, rest, lag + g, Concat(greedy[1..]));
  }

  /** A greedy split stays ahead: a split that has the items `lag` still to cover in
      addition needs at least as many batches. */
  lemma {:induction false} GreedyAhead(greedy: seq<seq<BatchItem>>, other: seq<seq<BatchItem>>,
                                       lag: seq<BatchItem>, budget: int)
    requires forall b :: b in greedy ==> Fits(b, budget)
    requires Greedy(greedy, budget)
    requires IsSplit(other, lag + Concat(greedy), budget)
    ensures |greedy| <= |other|
    decreases |greedy|
  {
    if greedy != [] {
      GreedyFirst(greedy, other, lag, budget);
      GreedyTail(greedy, budget);
      GreedyAhead(greedy[1..], other[1..], (lag + greedy[0])[|other[0]|..], budget);
    }
  }

  /** After any number of batches the greedy split has covered at least as many items. */
  lemma {:induction false} GreedyCovers(greedy: seq<seq<BatchItem>>, other: seq<seq<BatchItem>>,
                                        lag: seq<BatchItem>, budget: int, n: nat)
    requires forall b :: b in greedy ==> Fits(b, budget)
    requires Greedy(greedy, budget)
    requires IsSplit(other, lag + Concat(greedy), budget)
    requires n <= |greedy| && n <= |other|
    ensures |Concat(other[..n])| <= |lag| + |Concat(greedy[..n])|
    decreases n
  {
    if n > 0 {
      var g, a := greedy[0], other[0];
      GreedyFirst(greedy, other, lag, budget);
      GreedyTail(greedy, budget);
      GreedyCovers(greedy[1..], other[1..], (lag + g)[|a|..], budget, n - 1);
      assert other[..n][1..] == other[1..][..n - 1] && greedy[..n][1..] == greedy[1..][..n - 1];
    }
  }

  /** A batch that reaches past `lag + g` holds `g` and the item after it. */
  lemma TakesNext(all: seq<BatchItem>, a: seq<BatchItem>, lag: seq<BatchItem>, g: seq<BatchItem>, x: BatchItem, budget: int)
    requires |lag + g| < |a| <= |all| && a == all[..|a|] && lag + g + [x] == all[..|lag + g| + 1]
    requires Fits(a, budget)
    ensures Fits(g + [x], budget)
  {
    var n := |lag + g| + 1;
    assert a == lag + (g + [x]) + a[n..] by {
      assert a[..n] == all[..n];
      assert a == a[..n] + a[n..];
    }
    PartFits(lag, g + [x], a[n..], budget);
  }

  method BuildTranslationBatches(items: seq<BatchItem>, budget: int) returns (batches: seq<seq<BatchItem>>)
    ensures IsLeastSplit(batches, items, budget)
  {
    batches := [];
    var current: seq<BatchItem> := [];
    var currentChars := 2;
    for i := 0 to |items|
      invariant currentChars == Accounted(current)
      invariant Concat(batches) + current == items[..i]
      invariant forall b :: b in batches ==> Fits(b, budget)
      invariant current == [] ==> batches == []
      invariant current != [] ==> Fits(current, budget) && Greedy(batches + [current], budget)
    {
      var item := items[i];
      var itemChars := EstimateBatchChars([item]);
      var wouldOverflow := |current| > 0 && currentChars + itemChars > budget;
      var reachedMaxItems := |current| >= MAX_BATCH_ITEMS;
      SumCharsConcat(current, [item]);
      assert items[..i + 1] == items[..i] + [item];
      if current != [] {
        GreedyGrows(batches, current, item, budget);
      }
      if wouldOverflow || reachedMaxItems {
        assert !Fits(current + [item], budget);
        ConcatAppend(batches, current);
        batches := batches + [current];
        current := [];
        currentChars := 2;
      }
      assert current == [] ==> current + [item] == [item];
      current := current + [item];
      currentChars := currentChars + itemChars;
    }
    assert items[..|items|] == items;
    if |current| > 0 {
      ConcatAppend(batches, current);
      batches := batches + [current];
    }
    forall other | IsSplit(other, items, budget) ensures |batches| <= |other| {
      assert [] + items == items;
      GreedyAhead(batches, other, [], budget);
    }
  }

  // ---------------------------------------------------------------- the JSON that is sent

  function HexDigit(n: nat): char
    requires n < 16
  {
    "0123456789abcdef"[n]
  }

  /** `QuoteJSONString` of ECMA-262, section 25.5.2.3, for one character. */
  function EscapedChar(c: char): string {
    if c == '"' || c == '\\' then ['\\', c]
    else if c == '\U{8}' then "\\b"
    else if c == '\t' then "\\t"
    else if c == '\n' then "\\n"
    else if c == '\U{C}' then "\\f"
    else if c == '\r' then "\\r"
    else if c < ' ' then "\\u00" + [HexDigit(c as int / 16), HexDigit(c as int % 16)]
    else [c]
  }

  function EscapedText(s: string): string {
    if s == [] then [] else EscapedChar(s[0]) + EscapedText(s[1..])
  }

  function Quote(s: string): string {
    "\"" + EscapedText(s) + "\""
  }

  function Members(b: seq<BatchItem>): seq<string> {
    if b == [] then [] else [Quote(b[0].key) + ": " + Quote(b[0].text)] + Members(b[1..])
  }

  /** `JSON.stringify(payload, null, 2)` for the object of keys and texts of a batch. */
  function Payload(b: seq<BatchItem>): string {
    if b == [] then "{}" else "{\n  " + Join(Members(b), ",\n  ") + "\n}"
  }

  /** No character of the text needs an escape. */
  predicate Plain(s: string) {
    forall c :: c in s ==> c >= ' ' && c != '"' && c != '\\'
  }

  predicate PlainItems(b: seq<BatchItem>) {
    forall item :: item in b ==> Plain(item.key) && Plain(item.text)
  }

  lemma EscapedCharLength(c: char)
    ensures |EscapedChar(c)| >= 1
    ensures |EscapedChar(c)| == 1 <==> c >= ' ' && c != '"' && c != '\\'
  {
  }

  lemma PlainText(c: char, rest: string)
    ensures Plain([c] + rest) <==> c >= ' ' && c != '"' && c != '\\' && Plain(rest)
  {
    assert c in [c] + rest && forall d :: d in rest ==> d in [c] + rest;
  }

  lemma {:induction false} EscapedLength(s: string)
    ensures |EscapedText(s)| >= |s|
    ensures |EscapedText(s)| == |s| <==> Plain(s)
  {
    if s != [] {
      EscapedLength(s[1..]);
      EscapedCharLength(s[0]);
      PlainText(s[0], s[1..]);
      assert s == [s[0]] + s[1..];
    }
  }

  lemma JoinedLength(m: string, rest: seq<string>, sep: string)
    ensures |Join([m] + rest, sep)| == |m| + if rest == [] then 0 else |sep| + |Join(rest, sep)|
  {
    assert ([m] + rest)[1..] == rest;
  }

  lemma MemberLength(item: BatchItem)
    ensures var n := |Quote(item.key) + ": " + Quote(item.text)|;
            && n >= |item.key| + |item.text| + 6
            && (n == |item.key| + |item.text| + 6 <==> Plain(item.key) && Plain(item.text))
  {
    EscapedLength(item.key);
    EscapedLength(item.text);
  }

  lemma PlainCons(item: BatchItem, rest: seq<BatchItem>)
    ensures PlainItems([item] + rest) <==> Plain(item.key) && Plain(item.text) && PlainItems(rest)
  {
    var all := [item] + rest;
    assert item in all && forall i :: i in rest ==> i in all;
  }

  lemma {:induction false} MembersLength(b: seq<BatchItem>, sep: string)
    requires b != [] && |sep| == 4
    ensures |Join(Members(b), sep)| + 4 >= SumChars(b) + 2 * |b|
    ensures |Join(Members(b), sep)| + 4 == SumChars(b) + 2 * |b| <==> PlainItems(b)
  {
    var item, rest := b[0], b[1..];
    assert b == [item] + rest;
    MemberLength(item);
    JoinedLength(Quote(item.key) + ": " + Quote(item.text), Members(rest), sep);
    PlainCons(item, rest);
    if rest != [] {
      MembersLength(rest, sep);
    }
  }

  /** What the loop counts for a batch is the length of the JSON that is sent for it, exactly
      when no character of it needs an escape; else the JSON is longer. */
  lemma AccountedIsPayload(b: seq<BatchItem>)
    ensures |Payload(b)| >= Accounted(b)
    ensures |Payload(b)| == Accounted(b) <==> PlainItems(b)
  {
    if b != [] {
      MembersLength(b, ",\n  ");
    }
  }

  /** Every batch has 1 to 20 items, and its JSON is within the budget unless it is a single
      item or has characters to escape. */
  lemma PayloadWithinBudget(batches: seq<seq<BatchItem>>, items: seq<BatchItem>, budget: int, b: seq<BatchItem>)
    requires IsSplit(batches, items, budget) && b in batches
    ensures 1 <= |b| <= 20
    ensures |b| > 1 && PlainItems(b) ==> |Payload(b)| <= budget
  {
    assert Fits(b, budget);
    AccountedIsPayload(b);
  }

  /** The budget holds for the estimate itself, with two characters per item to spare. */
  lemma EstimateWithinBudget(batches: seq<seq<BatchItem>>, items: seq<BatchItem>, budget: int, b: seq<BatchItem>)
    requires IsSplit(batches, items, budget) && b in batches && |b| > 1
    ensures EstimateBatchChars(b) <= budget - 2 * |b|
  {
    assert Fits(b, budget);
  }
}
