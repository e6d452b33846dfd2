/** What one attempt of `translateBatch` (scripts/control-ui-i18n.ts) leads to, said of the
    reply and of the text of the error. */
module BatchAttempts {
  import opened JsText
  import opened JsTextLaws
  import opened TranslationBatches
  import opened BatchTranslation

  /** The reply has a text with a visible character for the key. */
  ghost predicate HasText(values: map<string, JsonValue>, key: string) {
    key in values && values[key].Text? && exists c :: c in values[key].text && !IsWhitespace(c)
  }

  /** The attempt ends with the error `e`: its own, or that of the first item without a text. */
  ghost predicate FailsWith(items: seq<BatchItem>, a: Attempt, e: string) {
    match a
    case NoClient(m) => e == m
    case Threw(m) => e == m
    case Parsed(values) =>
      exists j :: 0 <= j < |items| && !HasText(values, items[j].key) && e == "missing translation for " + items[j].key
        && forall i :: 0 <= i < j ==> HasText(values, items[i].key)
  }

  /** The text "timed out" stands in the error, in letters of any case. */
  ghost predicate SaysTimedOut(e: string) {
    exists i: nat :: LowerOccursAt("timed out", e, i)
  }

  lemma UsableHasText(values: map<string, JsonValue>, key: string)
    ensures Usable(values, key) <==> HasText(values, key)
  {
    if key in values && values[key].Text? {
      BlankExactly(values[key].text);
    }
  }

  lemma FailsExactly(items: seq<BatchItem>, a: Attempt, e: string)
    ensures FailsWith(items, a, e) <==> Outcome(items, a) == Failure(e)
  {
    if a.Parsed? {
      ReadReplyCorrect(items, a.values);
      forall i | 0 <= i < |items| ensures Usable(a.values, items[i].key) <==> HasText(a.values, items[i].key) {
        UsableHasText(a.values, items[i].key);
      }
      if ReadReply(items, a.values).Failure? {
        var j := ReadReplyError(items, a.values);
        assert FailsWith(items, a, "missing translation for " + items[j].key);
      }
    }
  }

  /** The run goes on with `left`, and with `right` only if that succeeded. */
  ghost predicate InTurn(first: seq<Entry>, left: Run, right: Run, r: Run) {
    if left.result.Failure? then r == Run(left.result, first + left.log)
    else
      && r.log == first + (left.log + right.log)
      && r.result == if right.result.Failure? then right.result else Success(left.result.value + right.result.value)
  }

  lemma TogetherInTurn(first: seq<Entry>, left: Run, right: Run)
    ensures InTurn(first, left, right, Prefixed(first, Together(left, right)))
  {
  }

  lemma SplitsExactly(oracle: Oracle, n: nat, items: seq<BatchItem>, e: string)
    requires FailsWith(items, oracle(n, items), e)
    ensures Outcome(items, oracle(n, items)) == Failure(e)
    ensures IsPromptTimeoutError(e) <==> SaysTimedOut(e)
    ensures SplitsAt(oracle, n, items) <==> |items| > 1 && SaysTimedOut(e)
  {
    FailsExactly(items, oracle(n, items), e);
    LowerOccurs("timed out", e);
  }

  lemma SplitRun(oracle: Oracle, n: nat, items: seq<BatchItem>, attempt: nat)
    requires SplitsAt(oracle, n, items)
    ensures Translate(oracle, n, items, attempt) == Prefixed([Entry(items, oracle(n, items))], Halves(oracle, n + 1, items))
  {
  }

  /** From attempt `n` on both parts of the batch are run in turn. */
  ghost predicate PartsFollow(oracle: Oracle, n: nat, items: seq<BatchItem>, mid: nat, first: seq<Entry>, r: Run)
    requires mid <= |items|
  {
    var left := Translate(oracle, n, items[..mid], 0);
    InTurn(first, left, Translate(oracle, n + |left.log|, items[mid..], 0), r)
  }

  lemma HalvesInTurn(oracle: Oracle, n: nat, items: seq<BatchItem>, first: seq<Entry>)
    requires |items| > 1
    ensures PartsFollow(oracle, n, items, Midpoint(|items|), first, Prefixed(first, Halves(oracle, n, items)))
  {
    HalvesUnfold(oracle, n, items);
    var mid := Midpoint(|items|);
    var left := Translate(oracle, n, items[..mid], 0);
    TogetherInTurn(first, left, Translate(oracle, n + |left.log|, items[mid..], 0));
  }

  /** Attempt `n` times out on a batch that can be split: its halves follow, the left one at
      most one item longer. */
  lemma TimedOutAttempt(oracle: Oracle, n: nat, items: seq<BatchItem>, attempt: nat, e: string) returns (mid: nat)
    requires FailsWith(items, oracle(n, items), e) && SaysTimedOut(e) && |items| > 1
    ensures mid < |items| <= 2 * mid <= |items| + 1
    ensures PartsFollow(oracle, n + 1, items, mid, [Entry(items, oracle(n, items))], Translate(oracle, n, items, attempt))
  {
    SplitsExactly(oracle, n, items, e);
    SplitRunInTurn(oracle, n, items, attempt);
    mid := Midpoint(|items|);
  }

  lemma SplitRunInTurn(oracle: Oracle, n: nat, items: seq<BatchItem>, attempt: nat)
    requires SplitsAt(oracle, n, items)
    ensures PartsFollow(oracle, n + 1, items, Midpoint(|items|), [Entry(items, oracle(n, items))], Translate(oracle, n, items, attempt))
  {
    SplitRun(oracle, n, items, attempt);
    HalvesInTurn(oracle, n + 1, items, [Entry(items, oracle(n, items))]);
  }

  /** Any other failed attempt: a timeout ends the run, and after another error the batch is
      tried once more. */
  lemma FailedAttempt(oracle: Oracle, n: nat, items: seq<BatchItem>, attempt: nat, e: string)
    requires FailsWith(items, oracle(n, items), e) && (!SaysTimedOut(e) || |items| <= 1)
    ensures var first, r := [Entry(items, oracle(n, items))], Translate(oracle, n, items, attempt);
            r == if SaysTimedOut(e) || attempt > 0 then Run(Failure(e), first)
                 else Prefixed(first, Translate(oracle, n + 1, items, 1))
  {
    SplitsExactly(oracle, n, items, e);
  }

  /** An attempt whose reply has a text for every item ends the run with these texts. */
  lemma GoodAttempt(oracle: Oracle, n: nat, items: seq<BatchItem>, attempt: nat, values: map<string, JsonValue>)
    requires oracle(n, items) == Parsed(values) && forall i :: 0 <= i < |items| ==> HasText(values, items[i].key)
    ensures var r := Translate(oracle, n, items, attempt);
            && r.log == [Entry(items, Parsed(values))] && r.result.Success?
            && r.result.value.Keys == KeysOf(items)
            && forall i :: 0 <= i < |items| ==>
                 && items[i].key in r.result.value && items[i].key in values
                 && Text(r.result.value[items[i].key]) == values[items[i].key]
  {
    forall i | 0 <= i < |items| ensures Usable(values, items[i].key) {
      UsableHasText(values, items[i].key);
    }
    ReadReplyCorrect(items, values);
    forall i | 0 <= i < |items| ensures items[i].key in KeysOf(items) {
    }
  }

  /** The message of the client's own timeout, whatever its label and its details. */
  lemma TimeoutIsSplit(oracle: Oracle, n: nat, items: seq<BatchItem>, attempt: nat, before: string, after: string)
    requires |items| > 1 && oracle(n, items) == Threw(before + "timed out" + after)
    ensures Translate(oracle, n, items, attempt) == Prefixed([Entry(items, oracle(n, items))], Halves(oracle, n + 1, items))
  {
    TimedOutInside("timed out", before, after);
  }

  lemma TimedOutInside(timedOut: string, before: string, after: string)
    requires timedOut == "timed out"
    ensures IsPromptTimeoutError(before + timedOut + after)
  {
    var e := before + timedOut + after;
    ToLowerFixes(timedOut);
    assert e[|before|..|before| + |timedOut|] == timedOut;
    assert LowerOccursAt(timedOut, e, |before|);
    LowerOccurs(timedOut, e);
  }
}
