/** `translateBatch` (scripts/control-ui-i18n.ts): retry once, split a timed-out batch.

    The model and its process are an oracle: what attempt number `n` of the run yields
    when it sends `items`.  An attempt sends at most one prompt. */
module BatchTranslation {
  import opened JsText
  import opened TranslationBatches

  const TRANSLATE_MAX_ATTEMPTS: nat := 2

  datatype JsonValue = Text(text: string) | NotText

  /** One attempt: no client could be made, the prompt or the parse threw, or a JSON
      object came back.  `message` is the text of the thrown error. */
  datatype Attempt = NoClient(message: string) | Threw(message: string) | Parsed(values: map<string, JsonValue>)

  datatype Result<T> = Success(value: T) | Failure(message: string)

  type Oracle = (nat, seq<BatchItem>) -> Attempt

  predicate IsPromptTimeoutError(message: string) {
    Includes(ToLower(message), "timed out")
  }

  predicate Usable(values: map<string, JsonValue>, key: string) {
    key in values && values[key].Text? && !IsBlank(values[key].text)
  }

  function KeysOf(items: seq<BatchItem>): set<string> {
    set i | 0 <= i < |items| :: items[i].key
  }

  /** The reply's translations, or the error for the first key without one. */
  function ReadReply(items: seq<BatchItem>, values: map<string, JsonValue>): Result<map<string, string>> {
    if items == [] then Success(map[])
    else
      var last := items[|items| - 1];
      match ReadReply(items[..|items| - 1], values)
      case Failure(m) => Failure(m)
      case Success(translated) =>
        if Usable(values, last.key) then Success(translated[last.key := values[last.key].text])
        else Failure("missing translation for " + last.key)
  }

  function Outcome(items: seq<BatchItem>, a: Attempt): Result<map<string, string>> {
    match a
    case NoClient(m) => Failure(m)
    case Threw(m) => Failure(m)
    case Parsed(values) => ReadReply(items, values)
  }

  datatype Entry = Entry(items: seq<BatchItem>, attempt: Attempt)

  /** A result together with every attempt made on the way, in order. */
  datatype Run = Run(result: Result<map<string, string>>, log: seq<Entry>)

  function Prefixed(log: seq<Entry>, r: Run): Run {
    Run(r.result, log + r.log)
  }

  function Midpoint(n: nat): nat {
    (n + 1) / 2
  }

  /** The run from attempt index `attempt` on, when `n` attempts were made before it. */
  function Translate(oracle: Oracle, n: nat, items: seq<BatchItem>, attempt: nat): Run
    decreases |items|, 1, TRANSLATE_MAX_ATTEMPTS - attempt
  {
    var a := oracle(n, items);
    var log := [Entry(items, a)];
    match Outcome(items, a)
    case Success(translated) => Run(Success(translated), log)
    case Failure(message) =>
      if IsPromptTimeoutError(message) && |items| > 1 then
        Prefixed(log, Halves(oracle, n + 1, items))
      else if IsPromptTimeoutError(message) || attempt + 1 >= TRANSLATE_MAX_ATTEMPTS then
        Run(Failure(message), log)
      else
        Prefixed(log, Translate(oracle, n + 1, items, attempt + 1))
  }

  /** Both halves of a batch in turn; the right one only after the left one succeeded. */
  function Halves(oracle: Oracle, n: nat, items: seq<BatchItem>): Run
    requires |items| > 1
    decreases |items|, 0
  {
    var mid := Midpoint(|items|);
    var left := Translate(oracle, n, items[..mid], 0);
    if left.result.Failure? then left
    else
      JoinRuns(left, Translate(oracle, n + |left.log|, items[mid..], 0))
  }

  function JoinRuns(left: Run, right: Run): (r: Run)
    requires left.result.Success?
    ensures r.log == left.log + right.log
  {
    if right.result.Failure? then Prefixed(left.log, right)
    else Run(Success(left.result.value + right.result.value), left.log + right.log)
  }

  /** The two recursive calls together. */
  function Together(left: Run, right: Run): Run {
    if left.result.Failure? then left else JoinRuns(left, right)
  }

  lemma HalvesUnfold(oracle: Oracle, n: nat, items: seq<BatchItem>)
    requires |items| > 1
    ensures var mid := Midpoint(|items|);
            var left := Translate(oracle, n, items[..mid], 0);
            Halves(oracle, n, items) == Together(left, Translate(oracle, n + |left.log|, items[mid..], 0))
  {
  }

  // ---------------------------------------------------------------- reading one reply

  lemma KeysOfSplit(a: seq<BatchItem>, b: seq<BatchItem>)
    ensures KeysOf(a + b) == KeysOf(a) + KeysOf(b)
  {
    forall k | k in KeysOf(a) ensures k in KeysOf(a + b) {
      var i :| 0 <= i < |a| && a[i].key == k;
      assert (a + b)[i].key == k;
    }
    forall k | k in KeysOf(b) ensures k in KeysOf(a + b) {
      var i :| 0 <= i < |b| && b[i].key == k;
      assert (a + b)[|a| + i].key == k;
    }
  }

  lemma {:induction false} ReadReplyKeys(items: seq<BatchItem>, values: map<string, JsonValue>)
    requires ReadReply(items, values).Success?
    ensures ReadReply(items, values).value.Keys == KeysOf(items)
  {
    if items != [] {
      var front, last := items[..|items| - 1], items[|items| - 1];
      ReadReplyKeys(front, values);
      KeysOfSplit(front, [last]);
      assert items == front + [last] && [last][0].key in KeysOf([last]) && KeysOf([last]) == {last.key};
    }
  }

  lemma {:induction false} ReadReplyValues(items: seq<BatchItem>, values: map<string, JsonValue>)
    requires ReadReply(items, values).Success?
    ensures forall k :: k in ReadReply(items, values).value ==> Usable(values, k) && ReadReply(items, values).value[k] == values[k].text
  {
    if items != [] {
      ReadReplyValues(items[..|items| - 1], values);
    }
  }

  lemma {:induction false} ReadReplyAccepts(items: seq<BatchItem>, values: map<string, JsonValue>)
    ensures ReadReply(items, values).Success? <==> forall i :: 0 <= i < |items| ==> Usable(values, items[i].key)
  {
    if items != [] {
      ReadReplyAccepts(items[..|items| - 1], values);
    }
  }

  lemma {:induction false} ReadReplyError(items: seq<BatchItem>, values: map<string, JsonValue>) returns (j: nat)
    requires ReadReply(items, values).Failure?
    ensures j < |items| && !Usable(values, items[j].key)
    ensures ReadReply(items, values).message == "missing translation for " + items[j].key
    ensures forall i :: 0 <= i < j ==> Usable(values, items[i].key)
  {
    var front := items[..|items| - 1];
    if ReadReply(front, values).Failure? {
      j := ReadReplyError(front, values);
    } else {
      j := |items| - 1;
      ReadReplyAccepts(front, values);
    }
  }

  /** All keys are usable and taken over, or the first unusable one is named. */
  lemma ReadReplyCorrect(items: seq<BatchItem>, values: map<string, JsonValue>)
    ensures ReadReply(items, values).Success? <==> forall i :: 0 <= i < |items| ==> Usable(values, items[i].key)
    ensures ReadReply(items, values).Success? ==>
              var m := ReadReply(items, values).value;
              m.Keys == KeysOf(items) && forall k :: k in m ==> Usable(values, k) && m[k] == values[k].text
    ensures ReadReply(items, values).Failure? ==>
              exists j :: 0 <= j < |items| && !Usable(values, items[j].key)
                && ReadReply(items, values).message == "missing translation for " + items[j].key
                && forall i :: 0 <= i < j ==> Usable(values, items[i].key)
  {
    ReadReplyAccepts(items, values);
    if ReadReply(items, values).Success? {
      ReadReplyKeys(items, values);
      ReadReplyValues(items, values);
    } else {
      var j := ReadReplyError(items, values);
    }
  }

  // ---------------------------------------------------------------- one step of a run

  /** Attempt `n` times out on a batch that can be split. */
  predicate SplitsAt(oracle: Oracle, n: nat, items: seq<BatchItem>) {
    && |items| > 1
    && Outcome(items, oracle(n, items)).Failure?
    && IsPromptTimeoutError(Outcome(items, oracle(n, items)).message)
  }

  /** The log lists the oracle's answers in the order of the attempts. */
  ghost predicate Faithful(oracle: Oracle, n: nat, log: seq<Entry>) {
    forall i :: 0 <= i < |log| ==> log[i].attempt == oracle(n + i, log[i].items)
  }

  lemma FaithfulConcat(oracle: Oracle, n: nat, a: seq<Entry>, b: seq<Entry>)
    requires Faithful(oracle, n, a) && Faithful(oracle, n + |a|, b)
    ensures Faithful(oracle, n, a + b)
  {
    forall i | |a| <= i < |a + b| ensures (a + b)[i].attempt == oracle(n + i, (a + b)[i].items) {
      assert b[i - |a|].attempt == oracle(n + |a| + (i - |a|), b[i - |a|].items);
    }
  }

  lemma {:induction false} LogFaithful(oracle: Oracle, n: nat, items: seq<BatchItem>, attempt: nat)
    ensures Faithful(oracle, n, Translate(oracle, n, items, attempt).log)
    decreases |items|, 1, if attempt < TRANSLATE_MAX_ATTEMPTS then TRANSLATE_MAX_ATTEMPTS - attempt else 0
  {
    var o, first := Outcome(items, oracle(n, items)), [Entry(items, oracle(n, items))];
    if SplitsAt(oracle, n, items) {
      HalvesFaithful(oracle, n + 1, items);
      FaithfulConcat(oracle, n, first, Halves(oracle, n + 1, items).log);
    } else if o.Failure? && !IsPromptTimeoutError(o.message) && attempt + 1 < TRANSLATE_MAX_ATTEMPTS {
      LogFaithful(oracle, n + 1, items, attempt + 1);
      FaithfulConcat(oracle, n, first, Translate(oracle, n + 1, items, attempt + 1).log);
    }
  }

  lemma JoinFaithful(oracle: Oracle, n: nat, left: Run, right: Run, r: Run)
    requires Faithful(oracle, n, left.log) && Faithful(oracle, n + |left.log|, right.log)
    requires r == if left.result.Failure? then left else JoinRuns(left, right)
    ensures Faithful(oracle, n, r.log)
  {
    FaithfulConcat(oracle, n, left.log, right.log);
  }

  lemma {:induction false} HalvesFaithful(oracle: Oracle, n: nat, items: seq<BatchItem>)
    requires |items| > 1
    ensures Faithful(oracle, n, Halves(oracle, n, items).log)
    decreases |items|, 0
  {
    var mid := Midpoint(|items|);
    var left := Translate(oracle, n, items[..mid], 0);
    LogFaithful(oracle, n, items[..mid], 0);
    LogFaithful(oracle, n + |left.log|, items[mid..], 0);
    HalvesUnfold(oracle, n, items);
    JoinFaithful(oracle, n, left, Translate(oracle, n + |left.log|, items[mid..], 0), Halves(oracle, n, items));
  }

  // ---------------------------------------------------------------- how many prompts

  /** The most attempts that `k` items can cost, both tries and all splits counted. */
  function PromptLimit(k: nat): nat {
    if k == 0 then 2 else 4 * k - 2
  }

  lemma {:induction false} AttemptBound(oracle: Oracle, n: nat, items: seq<BatchItem>, attempt: nat)
    requires attempt < TRANSLATE_MAX_ATTEMPTS
    ensures |Translate(oracle, n, items, attempt).log| <= PromptLimit(|items|) - attempt
    decreases |items|, 1, TRANSLATE_MAX_ATTEMPTS - attempt
  {
    var o := Outcome(items, oracle(n, items));
    if SplitsAt(oracle, n, items) {
      HalvesBound(oracle, n + 1, items);
    } else if o.Failure? && !IsPromptTimeoutError(o.message) && attempt + 1 < TRANSLATE_MAX_ATTEMPTS {
      AttemptBound(oracle, n + 1, items, attempt + 1);
    }
  }

  lemma {:induction false} HalvesBound(oracle: Oracle, n: nat, items: seq<BatchItem>)
    requires |items| > 1
    ensures |Halves(oracle, n, items).log| <= 4 * |items| - 4
    decreases |items|, 0
  {
    var mid := Midpoint(|items|);
    AttemptBound(oracle, n, items[..mid], 0);
    AttemptBound(oracle, n + |Translate(oracle, n, items[..mid], 0).log|, items[mid..], 0);
  }

  function PromptsSent(log: seq<Entry>): nat {
    if log == [] then 0 else (if log[0].attempt.NoClient? then 0 else 1) + PromptsSent(log[1..])
  }

  lemma {:induction false} PromptsAtMostAttempts(log: seq<Entry>)
    ensures PromptsSent(log) <= |log|
  {
    if log != [] {
      PromptsAtMostAttempts(log[1..]);
    }
  }

  /** The bound on prompts for a whole batch, whatever fails. */
  lemma PromptBound(oracle: Oracle, n: nat, items: seq<BatchItem>)
    requires items != []
    ensures PromptsSent(Translate(oracle, n, items, 0).log) <= 4 * |items| - 2
  {
    AttemptBound(oracle, n, items, 0);
    PromptsAtMostAttempts(Translate(oracle, n, items, 0).log);
  }

  /** A model that fails each batch at first with `quick`; then a single item is translated
      and anything longer fails with `slow`. */
  datatype Adversary = Adversary(quick: string, slow: string, word: string)

  function Worst(a: Adversary): Oracle {
    (n: nat, items: seq<BatchItem>) =>
      if n % 2 == 0 || items == [] then Threw(a.quick)
      else if |items| > 1 then Threw(a.slow)
      else Parsed(map[items[0].key := Text(a.word)])
  }

  /** Only the second failure is a timeout. */
  predicate Effective(a: Adversary) {
    !IsPromptTimeoutError(a.quick) && IsPromptTimeoutError(a.slow) && !IsBlank(a.word)
  }

  lemma SlowTimesOut(slow: string)
    requires slow == "timed out"
    ensures IsPromptTimeoutError(slow)
  {
    assert forall i :: 0 <= i < |slow| ==> slow[i] == ' ' || 'a' <= slow[i];
    ToLowerFixes(slow);
    assert slow <= ToLower(slow);
  }

  lemma WordIsNotBlank(word: string)
    requires word == "x"
    ensures !IsBlank(word)
  {
    assert TrimStart(word) == word && TrimEnd(word) == word;
  }

  ghost predicate MeetsBound(r: Run, k: nat) {
    r.result.Success? && |r.log| == k && PromptsSent(r.log) == k
  }

  lemma OneMorePrompt(e: Entry, r: Run, k: nat)
    requires MeetsBound(r, k) && !e.attempt.NoClient?
    ensures MeetsBound(Prefixed([e], r), k + 1)
  {
    assert ([e] + r.log)[1..] == r.log;
  }

  lemma WorstSecond(a: Adversary, n: nat, items: seq<BatchItem>)
    requires Effective(a)
    requires |items| == 1 && n % 2 == 1
    ensures MeetsBound(Translate(Worst(a), n, items, 1), 1)
  {
    ReadReplyCorrect(items, map[items[0].key := Text(a.word)]);
  }

  lemma WorstFirst(a: Adversary, n: nat, items: seq<BatchItem>)
    requires Effective(a)
    requires items != [] && n % 2 == 0
    ensures Translate(Worst(a), n, items, 0)
         == Prefixed([Entry(items, Threw(a.quick))], Translate(Worst(a), n + 1, items, 1))
  {
  }

  lemma {:induction false} PromptsConcat(a: seq<Entry>, b: seq<Entry>)
    ensures PromptsSent(a + b) == PromptsSent(a) + PromptsSent(b)
  {
    if a == [] {
      assert a + b == b;
    } else {
      PromptsConcat(a[1..], b);
      assert (a + b)[1..] == a[1..] + b;
    }
  }

  lemma WorstSplits(a: Adversary, n: nat, items: seq<BatchItem>)
    requires Effective(a)
    requires |items| > 1 && n % 2 == 1
    ensures Translate(Worst(a), n, items, 1)
         == Prefixed([Entry(items, Threw(a.slow))], Halves(Worst(a), n + 1, items))
  {
    assert Outcome(items, Worst(a)(n, items)) == Failure(a.slow);
  }

  lemma BoundsAdd(left: Run, right: Run, a: nat, b: nat)
    requires MeetsBound(left, a) && MeetsBound(right, b)
    ensures MeetsBound(JoinRuns(left, right), a + b)
  {
    PromptsConcat(left.log, right.log);
  }

  lemma HalvesMeet(oracle: Oracle, n: nat, items: seq<BatchItem>, a: nat, b: nat)
    requires |items| > 1
    requires var left := Translate(oracle, n, items[..Midpoint(|items|)], 0);
             MeetsBound(left, a) && MeetsBound(Translate(oracle, n + |left.log|, items[Midpoint(|items|)..], 0), b)
    ensures MeetsBound(Halves(oracle, n, items), a + b)
  {
    var left := Translate(oracle, n, items[..Midpoint(|items|)], 0);
    HalvesUnfold(oracle, n, items);
    BoundsAdd(left, Translate(oracle, n + |left.log|, items[Midpoint(|items|)..], 0), a, b);
  }

  lemma {:induction false} WorstHalves(a: Adversary, n: nat, items: seq<BatchItem>)
    requires Effective(a)
    requires |items| > 1 && n % 2 == 0
    ensures MeetsBound(Halves(Worst(a), n, items), 4 * |items| - 4)
    decreases |items|, 0
  {
    var mid := Midpoint(|items|);
    BoundAttained(a, n, items[..mid]);
    var left := Translate(Worst(a), n, items[..mid], 0);
    BoundAttained(a, n + |left.log|, items[mid..]);
    HalvesMeet(Worst(a), n, items, 4 * |items[..mid]| - 2, 4 * |items[mid..]| - 2);
  }

  /** The bound is met with equality, by a run that succeeds. */
  lemma {:induction false} BoundAttained(a: Adversary, n: nat, items: seq<BatchItem>)
    requires Effective(a)
    requires items != [] && n % 2 == 0
    ensures MeetsBound(Translate(Worst(a), n, items, 0), 4 * |items| - 2)
    decreases |items|, 1
  {
    if |items| == 1 {
      WorstSecond(a, n + 1, items);
    } else {
      WorstSplits(a, n + 1, items);
      WorstHalves(a, n + 2, items);
      OneMorePrompt(Entry(items, Threw(a.slow)), Halves(Worst(a), n + 2, items), 4 * |items| - 4);
    }
    WorstFirst(a, n, items);
    OneMorePrompt(Entry(items, Threw(a.quick)), Translate(Worst(a), n + 1, items, 1), 4 * |items| - 3);
  }

  /** For every batch there is a model on which the bound is met with equality. */
  lemma PromptBoundIsTight(items: seq<BatchItem>) returns (oracle: Oracle)
    requires items != []
    ensures Translate(oracle, 0, items, 0).result.Success?
    ensures PromptsSent(Translate(oracle, 0, items, 0).log) == 4 * |items| - 2
  {
    var slow, word := "timed out", "x";
    var a := Adversary("", slow, word);
    SlowTimesOut(slow);
    WordIsNotBlank(word);
    BoundAttained(a, 0, items);
    oracle := Worst(a);
  }

  // ---------------------------------------------------------------- what a run returns

  /** Entry `e` supplied the translation of `key`. */
  predicate Supplies(e: Entry, key: string, value: string) {
    && e.attempt.Parsed?
    && key in KeysOf(e.items)
    && key in e.attempt.values && e.attempt.values[key] == Text(value)
  }

  ghost predicate Supplied(log: seq<Entry>, key: string, value: string) {
    exists e :: e in log && Supplies(e, key, value)
  }

  /** A success has exactly the batch's keys, none blank, and each value is taken from a
      reply to a prompt of the run that asked for that key. */
  ghost predicate Complete(items: seq<BatchItem>, r: Run)
    requires r.result.Success?
  {
    && r.result.value.Keys == KeysOf(items)
    && (forall k :: k in r.result.value ==> !IsBlank(r.result.value[k]))
    && (forall k :: k in r.result.value ==> Supplied(r.log, k, r.result.value[k]))
  }

  lemma SuppliedLonger(a: seq<Entry>, b: seq<Entry>, key: string, value: string)
    requires Supplied(a, key, value) || Supplied(b, key, value)
    ensures Supplied(a + b, key, value)
  {
    var e :| (e in a || e in b) && Supplies(e, key, value);
    assert e in a + b;
  }

  lemma CompleteMerged(items: seq<BatchItem>, mid: nat, left: Run, right: Run)
    requires mid <= |items| && left.result.Success? && right.result.Success?
    requires Complete(items[..mid], left) && Complete(items[mid..], right)
    ensures Complete(items, Run(Success(left.result.value + right.result.value), left.log + right.log))
  {
    assert items == items[..mid] + items[mid..];
    KeysOfSplit(items[..mid], items[mid..]);
    var m := left.result.value + right.result.value;
    forall k | k in m ensures Supplied(left.log + right.log, k, m[k]) {
      SuppliedLonger(left.log, right.log, k, m[k]);
    }
  }

  lemma CompleteLater(items: seq<BatchItem>, e: Entry, later: Run)
    requires later.result.Success? && Complete(items, later)
    ensures Complete(items, Prefixed([e], later))
  {
    forall k | k in later.result.value ensures Supplied([e] + later.log, k, later.result.value[k]) {
      SuppliedLonger([e], later.log, k, later.result.value[k]);
    }
  }

  lemma CompleteAtOnce(items: seq<BatchItem>, values: map<string, JsonValue>)
    requires ReadReply(items, values).Success?
    ensures Complete(items, Run(ReadReply(items, values), [Entry(items, Parsed(values))]))
  {
    ReadReplyCorrect(items, values);
    var m, e := ReadReply(items, values).value, Entry(items, Parsed(values));
    forall k | k in m ensures Supplied([e], k, m[k]) {
      assert e in [e] && Supplies(e, k, m[k]);
    }
  }

  lemma {:induction false} SuccessCorrect(oracle: Oracle, n: nat, items: seq<BatchItem>, attempt: nat)
    requires Translate(oracle, n, items, attempt).result.Success?
    ensures Complete(items, Translate(oracle, n, items, attempt))
    decreases |items|, 1, if attempt < TRANSLATE_MAX_ATTEMPTS then TRANSLATE_MAX_ATTEMPTS - attempt else 0
  {
    var a := oracle(n, items);
    if Outcome(items, a).Success? {
      CompleteAtOnce(items, a.values);
    } else if SplitsAt(oracle, n, items) {
      HalvesComplete(oracle, n + 1, items);
      CompleteLater(items, Entry(items, a), Halves(oracle, n + 1, items));
    } else {
      SuccessCorrect(oracle, n + 1, items, attempt + 1);
      CompleteLater(items, Entry(items, a), Translate(oracle, n + 1, items, attempt + 1));
    }
  }

  lemma {:induction false} HalvesComplete(oracle: Oracle, n: nat, items: seq<BatchItem>)
    requires |items| > 1 && Halves(oracle, n, items).result.Success?
    ensures Complete(items, Halves(oracle, n, items))
    decreases |items|, 0
  {
    var mid := Midpoint(|items|);
    var left := Translate(oracle, n, items[..mid], 0);
    SuccessCorrect(oracle, n, items[..mid], 0);
    SuccessCorrect(oracle, n + |left.log|, items[mid..], 0);
    CompleteMerged(items, mid, left, Translate(oracle, n + |left.log|, items[mid..], 0));
  }

  /** Why a batch is given up: its last attempt failed, and that attempt either timed out
      with nothing left to split, or was the second failure in a row for the same items. */
  ghost predicate GaveUp(log: seq<Entry>, message: string) {
    && log != []
    && var last := log[|log| - 1];
       && Outcome(last.items, last.attempt) == Failure(message)
       && if IsPromptTimeoutError(message) then |last.items| <= 1
          else
            && |log| >= 2
            && var before := log[|log| - 2];
               && before.items == last.items
               && Outcome(before.items, before.attempt).Failure?
               && !IsPromptTimeoutError(Outcome(before.items, before.attempt).message)
  }

  lemma GaveUpLater(log: seq<Entry>, more: seq<Entry>, message: string)
    requires GaveUp(more, message)
    ensures GaveUp(log + more, message)
  {
    var all := log + more;
    assert all[|all| - 1] == more[|more| - 1];
    if |more| >= 2 {
      assert all[|all| - 2] == more[|more| - 2];
    }
  }

  lemma {:induction false} FailureExplained(oracle: Oracle, n: nat, items: seq<BatchItem>)
    requires Translate(oracle, n, items, 0).result.Failure?
    ensures GaveUp(Translate(oracle, n, items, 0).log, Translate(oracle, n, items, 0).result.message)
    decreases |items|, 1
  {
    var first := [Entry(items, oracle(n, items))];
    if SplitsAt(oracle, n, items) {
      HalvesFailure(oracle, n + 1, items);
      GaveUpLater(first, Halves(oracle, n + 1, items).log, Halves(oracle, n + 1, items).result.message);
    } else if !IsPromptTimeoutError(Outcome(items, oracle(n, items)).message) {
      var second := Translate(oracle, n + 1, items, 1);
      if SplitsAt(oracle, n + 1, items) {
        var halves := Halves(oracle, n + 2, items);
        HalvesFailure(oracle, n + 2, items);
        GaveUpLater([Entry(items, oracle(n + 1, items))], halves.log, halves.result.message);
        GaveUpLater(first, second.log, second.result.message);
      } else {
        assert second.log == [Entry(items, oracle(n + 1, items))];
        assert (first + second.log)[0] == first[0] && (first + second.log)[1] == second.log[0];
      }
    }
  }

  lemma {:induction false} HalvesFailure(oracle: Oracle, n: nat, items: seq<BatchItem>)
    requires |items| > 1 && Halves(oracle, n, items).result.Failure?
    ensures GaveUp(Halves(oracle, n, items).log, Halves(oracle, n, items).result.message)
    decreases |items|, 0
  {
    var mid := Midpoint(|items|);
    var left := Translate(oracle, n, items[..mid], 0);
    if left.result.Failure? {
      FailureExplained(oracle, n, items[..mid]);
    } else {
      var right := Translate(oracle, n + |left.log|, items[mid..], 0);
      FailureExplained(oracle, n + |left.log|, items[mid..]);
      GaveUpLater(left.log, right.log, right.result.message);
    }
  }

  // ---------------------------------------------------------------- the script's loop

  class Translator {
    const oracle: Oracle
    var attempts: nat

    constructor (oracle: Oracle)
      ensures this.oracle == oracle && attempts == 0
    {
      this.oracle, attempts := oracle, 0;
    }

    /** The `for` loop over one parsed reply. */
    static method ReadValues(items: seq<BatchItem>, values: map<string, JsonValue>)
      returns (r: Result<map<string, string>>)
      ensures r == ReadReply(items, values)
    {
      var translated := map[];
      for i := 0 to |items|
        invariant ReadReply(items[..i], values) == Success(translated)
      {
        assert items[..i + 1][..i] == items[..i];
        if !Usable(values, items[i].key) {
          ReadReplyCorrect(items[..i + 1], values);
          FailureStays(items, values, i + 1);
          return Failure("missing translation for " + items[i].key);
        }
        translated := translated[items[i].key := values[items[i].key].text];
      }
      assert items[..|items|] == items;
      return Success(translated);
    }

    /** One attempt: ask the oracle and read the reply. */
    method Try(items: seq<BatchItem>) returns (r: Result<map<string, string>>)
      modifies this
      ensures attempts == old(attempts) + 1
      ensures r == Outcome(items, oracle(old(attempts), items))
    {
      var a := oracle(attempts, items);
      attempts := attempts + 1;
      match a {
        case NoClient(m) => return Failure(m);
        case Threw(m) => return Failure(m);
        case Parsed(values) => r := ReadValues(items, values);
      }
    }

    /** The two recursive calls for a timed-out batch. */
    method TranslateHalves(items: seq<BatchItem>) returns (r: Result<map<string, string>>)
      requires |items| > 1
      modifies this
      ensures r == Halves(oracle, old(attempts), items).result
      ensures attempts == old(attempts) + |Halves(oracle, old(attempts), items).log|
      decreases |items|, 0
    {
      var midpoint := Midpoint(|items|);
      var left := TranslateBatch(items[..midpoint]);
      if left.Failure? {
        return left;
      }
      var right := TranslateBatch(items[midpoint..]);
      if right.Failure? {
        return right;
      }
      return Success(left.value + right.value);
    }

    method TranslateBatch(items: seq<BatchItem>) returns (r: Result<map<string, string>>)
      modifies this
      ensures r == Translate(oracle, old(attempts), items, 0).result
      ensures attempts == old(attempts) + |Translate(oracle, old(attempts), items, 0).log|
      decreases |items|, 1
    {
      ghost var all, n0 := Translate(oracle, attempts, items, 0), attempts;
      var lastError := "translation failed";
      var attempt := 0;
      while attempt < TRANSLATE_MAX_ATTEMPTS
        invariant attempt <= TRANSLATE_MAX_ATTEMPTS
        invariant attempt < TRANSLATE_MAX_ATTEMPTS ==>
                    var rest := Translate(oracle, attempts, items, attempt);
                    all.result == rest.result && n0 + |all.log| == attempts + |rest.log|
        invariant attempt == TRANSLATE_MAX_ATTEMPTS ==>
                    all.result == Failure(lastError) && n0 + |all.log| == attempts
      {
        var o := Try(items);
        if o.Success? {
          return o;
        }
        lastError := o.message;
        if IsPromptTimeoutError(lastError) && |items| > 1 {
          r := TranslateHalves(items);
          return r;
        }
        if IsPromptTimeoutError(lastError) {
          break;
        }
        attempt := attempt + 1;
      }
      return Failure(lastError);
    }
  }

  lemma {:induction false} FailureStays(items: seq<BatchItem>, values: map<string, JsonValue>, n: nat)
    requires n <= |items| && ReadReply(items[..n], values).Failure?
    ensures ReadReply(items, values) == ReadReply(items[..n], values)
    decreases |items|
  {
    if n < |items| {
      var front := items[..|items| - 1];
      assert front[..n] == items[..n];
      FailureStays(front, values, n);
    } else {
      assert items[..n] == items;
    }
  }
}
