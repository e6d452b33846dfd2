/** Which foundation models and inference profiles the discovery lists
    (extensions/amazon-bedrock/discovery.ts), and with what values, said of the summaries
    themselves. */
module BedrockCatalog {
  import opened Wrappers
  import opened JsText
  import opened JsTextLaws
  import opened StableSort
  import opened BedrockModels

  /** The text without white space at its ends, in lower case. */
  ghost predicate Says(s: string, word: string) {
    ToLower(Trim(s)) == word
  }

  ghost predicate Visible(s: string) {
    exists c :: c in s && !IsWhitespace(c)
  }

  /** `s` up to its first `c`. */
  ghost predicate UpTo(s: string, c: char, head: string) {
    head <= s && c !in head && (head == s || s[|head|] == c)
  }

  lemma VisibleExactly(s: string)
    ensures Visible(s) <==> !IsBlank(s)
  {
    BlankExactly(s);
  }

  lemma {:induction false} FirstPart(s: string, c: char)
    ensures UpTo(s, c, Split(s, c)[0])
  {
    if s != [] && s[0] != c {
      FirstPart(s[1..], c);
      assert s == [s[0]] + s[1..];
    }
  }

  lemma OneFirstPart(s: string, c: char, a: string, b: string)
    requires UpTo(s, c, a) && UpTo(s, c, b)
    ensures a == b
  {
    ShorterFirst(s, c, a, b);
    ShorterFirst(s, c, b, a);
  }

  lemma ShorterFirst(s: string, c: char, a: string, b: string)
    requires UpTo(s, c, a) && UpTo(s, c, b)
    ensures |a| >= |b|
  {
    assert forall i :: 0 <= i < |b| ==> s[i] == b[i];
    assert forall i :: 0 <= i < |b| ==> s[i] != c;
  }

  // ---------------------------------------------------------------- foundation models

  /** The provider's name, or what stands before the first dot of the id. */
  ghost predicate HasProvider(m: Summary, provider: string) {
    || m.providerName == Some(provider)
    || (m.providerName == None && m.modelId.Some? && UpTo(m.modelId.value, '.', provider))
  }

  /** An active streaming model with an id and text output, of a wanted provider. */
  ghost predicate Wanted(m: Summary, filter: seq<string>) {
    && m.modelId.Some? && Visible(m.modelId.value)
    && m.streaming
    && (exists o :: o in m.outputModalities && Says(o, "text"))
    && m.status.Some? && ToLower(m.status.value) == "active"
    && (filter == [] || exists p, word :: HasProvider(m, p) && Says(p, word) && word != "" && word in filter)
  }

  lemma ProviderWanted(m: Summary, filter: seq<string>)
    requires m.modelId.Some? && filter != []
    ensures MatchesProviderFilter(m, filter) <==>
            exists p, word :: HasProvider(m, p) && Says(p, word) && word != "" && word in filter
  {
    var provider := if m.providerName.Some? then m.providerName.value else Split(m.modelId.value, '.')[0];
    FirstPart(m.modelId.value, '.');
    assert HasProvider(m, provider) && Says(provider, Normalize(provider));
    forall p | HasProvider(m, p) ensures p == provider {
      if m.providerName.None? {
        OneFirstPart(m.modelId.value, '.', p, provider);
      }
    }
  }

  lemma WantedExactly(m: Summary, filter: seq<string>)
    ensures ShouldIncludeSummary(m, filter) <==> Wanted(m, filter)
  {
    if m.modelId.Some? {
      VisibleExactly(m.modelId.value);
      if filter != [] {
        ProviderWanted(m, filter);
      }
      assert forall o :: Normalize(o) == "text" <==> Says(o, "text");
    }
  }

  ghost predicate Mentions(inputs: seq<string>, word: string) {
    exists i :: 0 <= i < |inputs| && Says(inputs[i], word)
  }

  /** Some input says "image" before any says "text". */
  ghost predicate ImageLeads(inputs: seq<string>) {
    exists i :: 0 <= i < |inputs| && Says(inputs[i], "image") && !Mentions(inputs[..i], "text")
  }

  /** Text and image, each if it is mentioned, in the order of their first mention. */
  ghost function InMentionOrder(text: bool, image: bool, imageLeads: bool): seq<Modality> {
    if text && image then (if imageLeads then [ImageInput, TextInput] else [TextInput, ImageInput])
    else if text then [TextInput]
    else if image then [ImageInput]
    else []
  }

  /** What the listed definition of a summary holds. */
  ghost predicate Describes(m: Summary, defaults: Defaults, d: Model) {
    && m.modelId.Some? && d.id == Trim(m.modelId.value)
    && d.name == (if m.modelName.Some? && Visible(m.modelName.value) then Trim(m.modelName.value) else d.id)
    && (d.reasoning <==> MentionsReasoning(m.modelId.value + " " + OrEmpty(m.modelName)))
    && (if Mentions(m.inputModalities, "text") || Mentions(m.inputModalities, "image")
        then d.input == InMentionOrder(Mentions(m.inputModalities, "text"), Mentions(m.inputModalities, "image"), ImageLeads(m.inputModalities))
        else d.input == [TextInput])
    && d.contextWindow == defaults.contextWindow && d.maxTokens == defaults.maxTokens
  }

  /** One of the two words stands in the text, in letters of any case. */
  ghost predicate MentionsReasoning(s: string) {
    exists i: nat :: LowerOccursAt("reasoning", s, i) || LowerOccursAt("thinking", s, i)
  }

  lemma MentionGrows(front: seq<string>, last: string, word: string)
    ensures Mentions(front + [last], word) <==> Mentions(front, word) || Says(last, word)
  {
    var inputs := front + [last];
    if i :| 0 <= i < |front| && Says(front[i], word) {
      assert Says(inputs[i], word);
    }
    if Says(last, word) {
      assert Says(inputs[|front|], word);
    }
  }

  lemma LeadGrows(front: seq<string>, last: string)
    ensures ImageLeads(front + [last]) <==> ImageLeads(front) || (Says(last, "image") && !Mentions(front, "text"))
  {
    var inputs := front + [last];
    assert forall i :: 0 <= i <= |front| ==> inputs[..i] == front[..i];
    assert front[..|front|] == front;
    if i :| 0 <= i < |front| && Says(front[i], "image") && !Mentions(front[..i], "text") {
      assert Says(inputs[i], "image") && !Mentions(inputs[..i], "text");
    }
    if Says(last, "image") && !Mentions(front, "text") {
      assert Says(inputs[|front|], "image") && !Mentions(inputs[..|front|], "text");
    }
    if i :| 0 <= i < |inputs| && Says(inputs[i], "image") && !Mentions(inputs[..i], "text") {
      assert i < |front| ==> Says(front[i], "image") && !Mentions(front[..i], "text");
    }
  }

  lemma OnlyImageLeads(inputs: seq<string>)
    ensures Mentions(inputs, "image") && !Mentions(inputs, "text") ==> ImageLeads(inputs)
    ensures ImageLeads(inputs) ==> Mentions(inputs, "image")
  {
    if Mentions(inputs, "image") && !Mentions(inputs, "text") {
      var i :| 0 <= i < |inputs| && Says(inputs[i], "image");
      assert forall j :: 0 <= j < i ==> inputs[..i][j] == inputs[j];
    }
  }

  lemma OneMoreInput(text: bool, image: bool, leads: bool, saysText: bool, saysImage: bool)
    requires !(saysText && saysImage) && (leads ==> image) && (image && !text ==> leads)
    ensures var before := InMentionOrder(text, image, leads);
            (if saysText && TextInput !in before then before + [TextInput]
             else if saysImage && ImageInput !in before then before + [ImageInput]
             else before)
            == InMentionOrder(text || saysText, image || saysImage, leads || (saysImage && !text))
  {
  }

  lemma {:induction false} MentionedExactly(inputs: seq<string>)
    ensures MentionedModalities(inputs) ==
            InMentionOrder(Mentions(inputs, "text"), Mentions(inputs, "image"), ImageLeads(inputs))
  {
    if inputs != [] {
      var front, last := inputs[..|inputs| - 1], inputs[|inputs| - 1];
      MentionedExactly(front);
      assert inputs == front + [last];
      MentionGrows(front, last, "text");
      MentionGrows(front, last, "image");
      LeadGrows(front, last);
      OnlyImageLeads(front);
      var saysText, saysImage := Normalize(last) == "text", Normalize(last) == "image";
      OneMoreInput(Mentions(front, "text"), Mentions(front, "image"), ImageLeads(front), saysText, saysImage);
    }
  }

  lemma WordTrimmed(word: string, s: string)
    requires word != "" && !IsWhitespace(word[0]) && !IsWhitespace(word[|word| - 1])
    ensures Includes(ToLower(Trim(s)), word) <==> exists i: nat :: LowerOccursAt(word, s, i)
  {
    var t := Trim(s);
    var before, after := TrimExactly(s);
    LowerOccurs(word, t);
    if i: nat :| LowerOccursAt(word, t, i) {
      WordBehind(word, before, t, after, i);
    }
    if i: nat :| LowerOccursAt(word, s, i) {
      WordWithin(word, s, before, t, after, i);
    }
  }

  lemma WordBehind(word: string, before: string, t: string, after: string, i: nat)
    requires LowerOccursAt(word, t, i)
    ensures LowerOccursAt(word, before + t + after, |before| + i)
  {
    var s := before + t + after;
    assert s[|before| + i..|before| + i + |word|] == t[i..i + |word|];
  }

  /** A word without white space at its ends cannot reach into the white space around a text. */
  lemma WordWithin(word: string, s: string, before: string, t: string, after: string, i: nat)
    requires word != "" && !IsWhitespace(word[0]) && !IsWhitespace(word[|word| - 1])
    requires s == before + t + after && AllWhitespace(before) && AllWhitespace(after) && LowerOccursAt(word, s, i)
    ensures |before| <= i && LowerOccursAt(word, t, i - |before|)
  {
    var j := i + |word| - 1;
    ToLowerAt(s[i..i + |word|]);
    assert !IsWhitespace(s[i]) && !IsWhitespace(s[j]);
    forall k | 0 <= k < |before| ensures IsWhitespace(s[k]) {
      assert s[k] == before[k];
    }
    forall k | |before| + |t| <= k < |s| ensures IsWhitespace(s[k]) {
      assert s[k] == after[k - |before| - |t|];
    }
    assert s[i..i + |word|] == t[i - |before|..i - |before| + |word|];
  }

  lemma ReasoningExactly(m: Summary)
    requires m.modelId.Some?
    ensures InferReasoningSupport(m) <==> MentionsReasoning(m.modelId.value + " " + OrEmpty(m.modelName))
  {
    var haystack := m.modelId.value + " " + OrEmpty(m.modelName);
    WordTrimmed("reasoning", haystack);
    WordTrimmed("thinking", haystack);
  }

  lemma DefinitionExactly(m: Summary, defaults: Defaults)
    requires m.modelId.Some?
    ensures Describes(m, defaults, ToModelDefinition(m, defaults))
  {
    ReasoningExactly(m);
    MentionedExactly(m.inputModalities);
    VisibleExactly(OrEmpty(m.modelName));
  }

  /** `ys` holds one match for each good element of `xs` and no other, in order. */
  ghost predicate Picks<A, B>(xs: seq<A>, good: A -> bool, matching: (A, B) -> bool, ys: seq<B>, at: seq<nat>) {
    && |at| == |ys|
    && (forall i, j :: 0 <= i < j < |at| ==> at[i] < at[j])
    && (forall i :: 0 <= i < |at| ==> at[i] < |xs| && good(xs[at[i]]) && matching(xs[at[i]], ys[i]))
    && (forall k :: 0 <= k < |xs| && good(xs[k]) ==> k in at)
  }

  lemma PicksSkip<A, B>(xs: seq<A>, x: A, good: A -> bool, matching: (A, B) -> bool, ys: seq<B>, at: seq<nat>)
    requires Picks(xs, good, matching, ys, at) && !good(x)
    ensures Picks(xs + [x], good, matching, ys, at)
  {
  }

  lemma PicksGrow<A, B>(xs: seq<A>, x: A, good: A -> bool, matching: (A, B) -> bool, ys: seq<B>, y: B, at: seq<nat>)
    requires Picks(xs, good, matching, ys, at) && good(x) && matching(x, y)
    ensures Picks(xs + [x], good, matching, ys + [y], at + [|xs|])
  {
    var all := xs + [x];
    forall k | 0 <= k < |all| && good(all[k]) ensures k in at + [|xs|] {
      assert k < |xs| ==> k in at;
    }
  }

  /** The list holds one definition for each wanted summary and no other, in order. */
  ghost predicate Catalogued(summaries: seq<Summary>, filter: seq<string>, defaults: Defaults, models: seq<Model>, at: seq<nat>) {
    Picks(summaries, m => Wanted(m, filter), (m, d) => Describes(m, defaults, d), models, at)
  }

  /** The foundation models of the list: the wanted summaries in order, with these values. */
  lemma {:induction false} FoundationExactly(summaries: seq<Summary>, filter: seq<string>, defaults: Defaults) returns (at: seq<nat>)
    ensures Catalogued(summaries, filter, defaults, FoundationModels(summaries, filter, defaults), at)
  {
    if summaries == [] {
      at := [];
    } else {
      var front, last := summaries[..|summaries| - 1], summaries[|summaries| - 1];
      at := FoundationExactly(front, filter, defaults);
      var models, d := FoundationModels(front, filter, defaults), ToModelDefinition(last, defaults);
      assert summaries == front + [last];
      WantedExactly(last, filter);
      if Wanted(last, filter) {
        DefinitionExactly(last, defaults);
        PicksGrow(front, last, m => Wanted(m, filter), (m, d) => Describes(m, defaults, d), models, d, at);
        at := at + [|front|];
      } else {
        PicksSkip(front, last, m => Wanted(m, filter), (m, d) => Describes(m, defaults, d), models, at);
        assert models + [] == models;
      }
    }
  }

  // ---------------------------------------------------------------- inference profiles

  /** The provider in an ARN: the second of its parts between slashes, up to a dot. */
  ghost predicate ArnProvider(arn: string, provider: string) {
    exists prefix, part :: UpTo(arn, '/', prefix) && prefix != arn && UpTo(arn[|prefix| + 1..], '/', part) && UpTo(part, '.', provider)
  }

  /** An active profile with an id, and with a model of a wanted provider. */
  ghost predicate WantedProfile(p: Profile, filter: seq<string>) {
    && p.id.Some? && Visible(p.id.value) && p.active
    && (filter == [] ||
        exists arn, provider, word ::
          Some(arn) in p.modelArns && ArnProvider(arn, provider) && provider != "" && Says(provider, word) && word in filter)
  }

  lemma {:induction false} PartsAfter(s: string, c: char)
    ensures var head := Split(s, c)[0];
            && |head| <= |s| && (head != s <==> |Split(s, c)| > 1)
            && (head != s ==> |head| < |s| && Split(s, c)[1..] == Split(s[|head| + 1..], c))
  {
    FirstPart(s, c);
    var head := Split(s, c)[0];
    if head == s {
      SplitSingle(s, c);
    } else {
      var rest := s[|head| + 1..];
      assert s == head + [c] + rest;
      SplitJoined(head, rest, c);
    }
  }

  lemma ArnExactly(arn: string, filter: seq<string>)
    ensures ArnMatches(Some(arn), filter) <==>
            exists provider, word :: ArnProvider(arn, provider) && provider != "" && Says(provider, word) && word in filter
  {
    var parts := Split(arn, '/');
    PartsAfter(arn, '/');
    FirstPart(arn, '/');
    var head := parts[0];
    if head != arn {
      var rest := arn[|head| + 1..];
      var part := Split(rest, '/')[0];
      var provider := Split(part, '.')[0];
      FirstPart(rest, '/');
      FirstPart(part, '.');
      assert parts[1] == part;
      assert ArnProvider(arn, provider) && Says(provider, Normalize(provider));
    }
    forall provider | ArnProvider(arn, provider) ensures |parts| > 1 && provider == Split(parts[1], '.')[0] {
      ArnProviderIs(arn, provider);
    }
  }

  lemma ArnProviderIs(arn: string, provider: string)
    requires ArnProvider(arn, provider)
    ensures |Split(arn, '/')| > 1 && provider == Split(Split(arn, '/')[1], '.')[0]
  {
    var prefix, part :| UpTo(arn, '/', prefix) && prefix != arn && UpTo(arn[|prefix| + 1..], '/', part) && UpTo(part, '.', provider);
    PartsAfter(arn, '/');
    FirstPart(arn, '/');
    OneFirstPart(arn, '/', prefix, Split(arn, '/')[0]);
    var rest := arn[|prefix| + 1..];
    FirstPart(rest, '/');
    OneFirstPart(rest, '/', part, Split(rest, '/')[0]);
    assert Split(arn, '/')[1] == part;
    FirstPart(part, '.');
    OneFirstPart(part, '.', provider, Split(part, '.')[0]);
  }

  lemma WantedProfileExactly(p: Profile, filter: seq<string>)
    ensures Eligible(p, filter) <==> WantedProfile(p, filter)
  {
    if p.id.Some? {
      VisibleExactly(p.id.value);
    }
    forall arn ensures ArnMatches(Some(arn), filter) <==>
                       exists provider, word :: ArnProvider(arn, provider) && provider != "" && Says(provider, word) && word in filter
    {
      ArnExactly(arn, filter);
    }
    if arn :| arn in p.modelArns && ArnMatches(arn, filter) {
      assert arn == Some(arn.value);
    }
  }

  // ---------------------------------------------------------------- the base model of a profile

  ghost predicate OneLineText(s: string) {
    s != "" && forall c :: c in s ==> c != '\n' && c != '\r' && c != '\U{2028}' && c != '\U{2029}'
  }

  /** "foundation-model/" stands at position `i`, and text on one line follows up to the end. */
  ghost predicate NamesModelAt(arn: string, i: nat) {
    OccursAt("foundation-model/", arn, i) && OneLineText(arn[i + 17..])
  }

  /** The model named by the profile's first ARN. */
  ghost predicate NamedByArn(p: Profile, base: string) {
    p.modelArns != [] && p.modelArns[0].Some? &&
    exists i: nat :: FirstModelAt(p.modelArns[0].value, i) && base == p.modelArns[0].value[i + 17..]
  }

  ghost predicate FirstModelAt(arn: string, i: nat) {
    NamesModelAt(arn, i) && forall j: nat :: j < i ==> !NamesModelAt(arn, j)
  }

  /** The id is that of a region, in letters of any case, a dot and the base. */
  ghost predicate InRegion(id: string, region: string, base: string) {
    |id| > |region| && ToLower(id[..|region|]) == region && id[|region|] == '.' && base == id[|region| + 1..]
  }

  /** The id of a system profile behind its region. */
  ghost predicate NamedByRegion(p: Profile, base: string) {
    p.systemDefined && p.id.Some? && OneLineText(base) &&
    (InRegion(p.id.value, "us", base) || InRegion(p.id.value, "eu", base) || InRegion(p.id.value, "ap", base)
     || InRegion(p.id.value, "jp", base) || InRegion(p.id.value, "global", base))
  }

  ghost predicate BaseOfProfile(p: Profile, base: string) {
    NamedByArn(p, base) || ((forall other :: !NamedByArn(p, other)) && NamedByRegion(p, base))
  }

  lemma NamesShift(arn: string, i: nat)
    requires arn != []
    ensures NamesModelAt(arn[1..], i) <==> NamesModelAt(arn, i + 1)
  {
    OccursShift("foundation-model/", arn, i);
    if i + 18 <= |arn| {
      assert arn[1..][i + 17..] == arn[i + 18..];
    }
  }

  lemma FirstModelShift(arn: string, i: nat)
    requires arn != [] && !NamesModelAt(arn, 0)
    ensures FirstModelAt(arn[1..], i) <==> FirstModelAt(arn, i + 1)
  {
    NamesShift(arn, i);
    if FirstModelAt(arn[1..], i) {
      forall j: nat | j < i + 1 ensures !NamesModelAt(arn, j) {
        if j > 0 {
          NamesShift(arn, j - 1);
        }
      }
    }
    if FirstModelAt(arn, i + 1) {
      forall j: nat | j < i ensures !NamesModelAt(arn[1..], j) {
        NamesShift(arn, j);
      }
    }
  }

  lemma NamesModelFirst(arn: string, name: string)
    requires name == FOUNDATION_MODEL
    ensures NamesModelAt(arn, 0) <==> StartsWith(arn, name) && |arn| > |name| && HasNoLineEnd(arn[|name|..])
  {
    assert |name| == 17;
    if StartsWith(arn, name) {
      assert arn[0..17] == name;
    }
  }

  lemma {:induction false} ArnBaseExactly(arn: string, base: string)
    ensures AfterFoundationModel(arn) == Some(base) <==> exists i: nat :: FirstModelAt(arn, i) && base == arn[i + 17..]
  {
    if arn != [] {
      NamesModelFirst(arn, FOUNDATION_MODEL);
      if NamesModelAt(arn, 0) {
        FirstAtStart(arn, base);
      } else {
        ArnBaseExactly(arn[1..], base);
        BaseShift(arn, base);
      }
    }
  }

  lemma FirstAtStart(arn: string, base: string)
    requires NamesModelAt(arn, 0)
    ensures (exists i: nat :: FirstModelAt(arn, i) && base == arn[i + 17..]) <==> base == arn[17..]
  {
    assert FirstModelAt(arn, 0);
  }

  lemma BaseShift(arn: string, base: string)
    requires arn != [] && !NamesModelAt(arn, 0)
    ensures (exists i: nat :: FirstModelAt(arn, i) && base == arn[i + 17..]) <==>
            (exists i: nat :: FirstModelAt(arn[1..], i) && base == arn[1..][i + 17..])
  {
    if i: nat :| FirstModelAt(arn, i) && base == arn[i + 17..] {
      assert i > 0;
      FirstModelShift(arn, i - 1);
      assert arn[1..][i - 1 + 17..] == arn[i + 17..];
    }
    if i: nat :| FirstModelAt(arn[1..], i) && base == arn[1..][i + 17..] {
      FirstModelShift(arn, i);
      assert arn[1..][i + 17..] == arn[i + 1 + 17..];
    }
  }

  lemma PrefixWithDot(s: string, region: string)
    ensures region + "." <= s <==> |s| > |region| && s[..|region|] == region && s[|region|] == '.'
  {
    var whole := region + ".";
    assert whole[..|region|] == region && whole[|region|] == '.';
    if |s| > |region| && s[..|region|] == region && s[|region|] == '.' {
      assert s[..|region| + 1] == s[..|region|] + [s[|region|]];
    }
  }

  lemma LowerCut(id: string, n: nat)
    ensures |ToLower(id)| == |id|
    ensures n < |id| ==> ToLower(id[..n]) == ToLower(id)[..n] && (ToLower(id)[n] == '.' <==> id[n] == '.')
  {
    ToLowerAt(id);
    if n < |id| {
      ToLowerSlice(id, 0, n);
      assert id[0..n] == id[..n];
    }
  }

  lemma RegionPrefix(id: string, region: string)
    ensures StartsWith(ToLower(id), region + ".") <==> InRegion(id, region, if |id| > |region| then id[|region| + 1..] else "")
  {
    PrefixWithDot(ToLower(id), region);
    LowerCut(id, |region|);
  }

  lemma RegionExactly(p: Profile, base: string)
    requires p.systemDefined && p.id.Some?
    ensures AfterRegion(p.id.value) == Some(base) <==> NamedByRegion(p, base)
  {
    var id := p.id.value;
    RegionPrefix(id, "us");
    RegionPrefix(id, "eu");
    RegionPrefix(id, "ap");
    RegionPrefix(id, "jp");
    RegionPrefix(id, "global");
  }

  lemma BaseExactly(p: Profile, base: string)
    ensures ResolveBaseModelId(p) == Some(base) <==> BaseOfProfile(p, base)
  {
    if p.modelArns != [] && p.modelArns[0].Some? {
      var arn := p.modelArns[0].value;
      forall b ensures AfterFoundationModel(arn) == Some(b) <==> NamedByArn(p, b) {
        ArnBaseExactly(arn, b);
      }
      if AfterFoundationModel(arn).Some? {
        assert NamedByArn(p, AfterFoundationModel(arn).value);
      }
    }
    if p.systemDefined && p.id.Some? {
      RegionExactly(p, base);
    }
  }

  /** The profile's base model among the foundation models, if it is listed there. */
  ghost predicate Inherits(p: Profile, foundation: seq<Model>, i: int) {
    exists base :: BaseOfProfile(p, base) && LastWithId(foundation, ToLower(Trim(base)), i)
  }

  /** What the listed definition of a profile holds. */
  ghost predicate DescribesProfile(p: Profile, defaults: Defaults, foundation: seq<Model>, d: Model) {
    && p.id == Some(d.id)
    && d.name == (if p.name.Some? && Visible(p.name.value) then Trim(p.name.value) else d.id)
    && (forall i :: Inherits(p, foundation, i) ==> 0 <= i < |foundation| && d == foundation[i].(id := d.id, name := d.name))
    && ((forall i :: !Inherits(p, foundation, i)) ==>
          d == Model(d.id, d.name, false, [TextInput], defaults.contextWindow, defaults.maxTokens))
  }

  lemma OneLast(models: seq<Model>, id: string, i: int, j: int)
    requires LastWithId(models, id, i) && LastWithId(models, id, j)
    ensures i == j
  {
  }

  lemma InheritsExactly(p: Profile, foundation: seq<Model>, base: string, i: int)
    requires BaseOfProfile(p, base)
    ensures Inherits(p, foundation, i) <==> LastWithId(foundation, ToLower(Trim(base)), i)
  {
    BaseExactly(p, base);
    if Inherits(p, foundation, i) {
      var other :| BaseOfProfile(p, other) && LastWithId(foundation, ToLower(Trim(other)), i);
      BaseExactly(p, other);
    }
  }

  lemma ProfileExactly(p: Profile, defaults: Defaults, foundation: seq<Model>)
    requires p.id.Some?
    ensures DescribesProfile(p, defaults, foundation, ProfileModel(p, defaults, ById(foundation)))
  {
    VisibleExactly(OrEmpty(p.name));
    match ResolveBaseModelId(p) {
      case None =>
        forall i ensures !Inherits(p, foundation, i) {
          if Inherits(p, foundation, i) {
            var base :| BaseOfProfile(p, base) && LastWithId(foundation, ToLower(Trim(base)), i);
            BaseExactly(p, base);
            assert false;
          }
        }
      case Some(base) =>
        BaseExactly(p, base);
        ProfileInherits(p, base, foundation, defaults);
        ByIdIsLast(foundation, Normalize(base));
        var id := ToLower(Trim(base));
        forall i ensures Inherits(p, foundation, i) <==> LastWithId(foundation, id, i) {
          InheritsExactly(p, foundation, base, i);
        }
        if k :| LastWithId(foundation, id, k) {
          forall i | LastWithId(foundation, id, i) ensures i == k {
            OneLast(foundation, id, i, k);
          }
        }
    }
  }

  // ---------------------------------------------------------------- the whole list

  /** A definition of a wanted summary is in the list. */
  ghost predicate SummaryListed(m: Summary, defaults: Defaults, list: seq<Model>) {
    exists d :: d in list && Describes(m, defaults, d)
  }

  ghost predicate OfSummary(summaries: seq<Summary>, filter: seq<string>, defaults: Defaults, d: Model) {
    exists m :: m in summaries && Wanted(m, filter) && Describes(m, defaults, d)
  }

  ghost predicate OfProfile(profiles: seq<Profile>, filter: seq<string>, defaults: Defaults, foundation: seq<Model>, d: Model) {
    exists p :: p in profiles && WantedProfile(p, filter) && DescribesProfile(p, defaults, foundation, d)
  }

  lemma OfFewerProfiles(front: seq<Profile>, last: Profile, filter: seq<string>, defaults: Defaults, foundation: seq<Model>, d: Model)
    requires OfProfile(front, filter, defaults, foundation, d)
    ensures OfProfile(front + [last], filter, defaults, foundation, d)
  {
    var p :| p in front && WantedProfile(p, filter) && DescribesProfile(p, defaults, foundation, d);
    assert p in front + [last];
  }

  lemma OfLastProfile(front: seq<Profile>, last: Profile, filter: seq<string>, defaults: Defaults, foundation: seq<Model>)
    requires Eligible(last, filter)
    ensures OfProfile(front + [last], filter, defaults, foundation, ProfileModel(last, defaults, ById(foundation)))
  {
    WantedProfileExactly(last, filter);
    ProfileExactly(last, defaults, foundation);
    assert last in front + [last];
  }

  lemma {:induction false} ProfileFrom(profiles: seq<Profile>, filter: seq<string>, defaults: Defaults, foundation: seq<Model>, d: Model)
    requires d in ProfileModels(profiles, defaults, filter, ById(foundation))
    ensures OfProfile(profiles, filter, defaults, foundation, d)
  {
    if profiles != [] {
      var front, last := profiles[..|profiles| - 1], profiles[|profiles| - 1];
      assert profiles == front + [last];
      if d in ProfileModels(front, defaults, filter, ById(foundation)) {
        ProfileFrom(front, filter, defaults, foundation, d);
        OfFewerProfiles(front, last, filter, defaults, foundation, d);
      } else {
        OfLastProfile(front, last, filter, defaults, foundation);
      }
    }
  }

  lemma {:induction false} ProfileListed(profiles: seq<Profile>, filter: seq<string>, defaults: Defaults, foundation: seq<Model>, p: Profile)
    requires p in profiles && WantedProfile(p, filter)
    ensures ProfileModel(p, defaults, ById(foundation)) in ProfileModels(profiles, defaults, filter, ById(foundation))
  {
    var front, last := profiles[..|profiles| - 1], profiles[|profiles| - 1];
    assert profiles == front + [last];
    if p in front {
      ProfileListed(front, filter, defaults, foundation, p);
    } else {
      WantedProfileExactly(p, filter);
    }
  }

  lemma FoundationMembers(summaries: seq<Summary>, filter: seq<string>, defaults: Defaults)
    ensures var foundation := FoundationModels(summaries, filter, defaults);
            && (forall d :: d in foundation ==> OfSummary(summaries, filter, defaults, d))
            && (forall m :: m in summaries && Wanted(m, filter) ==> SummaryListed(m, defaults, foundation))
  {
    var foundation := FoundationModels(summaries, filter, defaults);
    var at := FoundationExactly(summaries, filter, defaults);
    forall d | d in foundation ensures OfSummary(summaries, filter, defaults, d) {
      var i :| 0 <= i < |foundation| && foundation[i] == d;
      assert summaries[at[i]] in summaries;
    }
    forall m | m in summaries && Wanted(m, filter) ensures SummaryListed(m, defaults, foundation) {
      var k :| 0 <= k < |summaries| && summaries[k] == m;
      var i :| 0 <= i < |at| && at[i] == k;
      assert foundation[i] in foundation;
    }
  }

  /** Every wanted summary is listed with its values. */
  lemma SummariesListed(summaries: seq<Summary>, profiles: seq<Profile>, filter: seq<string>, defaults: Defaults,
                        leq: (string, string) -> bool, m: Summary)
    requires TotalPreorder(leq) && m in summaries && Wanted(m, filter)
    ensures SummaryListed(m, defaults, Listing(summaries, profiles, filter, defaults, leq))
  {
    var foundation := FoundationModels(summaries, filter, defaults);
    ListIsComplete(summaries, profiles, filter, defaults, leq);
    FoundationMembers(summaries, filter, defaults);
    ListedStays(m, defaults, foundation, Listing(summaries, profiles, filter, defaults, leq));
  }

  lemma ListedStays(m: Summary, defaults: Defaults, a: seq<Model>, b: seq<Model>)
    requires SummaryListed(m, defaults, a) && forall d :: d in a ==> d in b
    ensures SummaryListed(m, defaults, b)
  {
    var d :| d in a && Describes(m, defaults, d);
    assert d in b;
  }

  lemma IdListed(models: seq<Model>, m: Model)
    requires Normalize(m.id) in Ids(models)
    ensures exists d :: d in models && Says(m.id, ToLower(Trim(d.id)))
  {
    var d :| d in models && Normalize(d.id) == Normalize(m.id);
  }

  /** The id of every wanted profile is listed. */
  lemma ProfilesListed(summaries: seq<Summary>, profiles: seq<Profile>, filter: seq<string>, defaults: Defaults,
                       leq: (string, string) -> bool, p: Profile)
    requires TotalPreorder(leq) && p in profiles && WantedProfile(p, filter)
    ensures exists d :: d in Listing(summaries, profiles, filter, defaults, leq) && Says(p.id.value, ToLower(Trim(d.id)))
  {
    var foundation := FoundationModels(summaries, filter, defaults);
    var own := ProfileModel(p, defaults, ById(foundation));
    ListIsComplete(summaries, profiles, filter, defaults, leq);
    ProfileListed(profiles, filter, defaults, foundation, p);
    IdListed(Listing(summaries, profiles, filter, defaults, leq), own);
  }

  /** Nothing else is listed, and a profile's own definition only where no foundation model has
      its id. */
  lemma EntryExplained(summaries: seq<Summary>, profiles: seq<Profile>, filter: seq<string>, defaults: Defaults,
                       leq: (string, string) -> bool, d: Model)
    requires TotalPreorder(leq) && d in Listing(summaries, profiles, filter, defaults, leq)
    ensures var foundation := FoundationModels(summaries, filter, defaults);
            || OfSummary(summaries, filter, defaults, d)
            || (OfProfile(profiles, filter, defaults, foundation, d)
                && forall other :: other in foundation ==> !Says(d.id, ToLower(Trim(other.id))))
  {
    var foundation := FoundationModels(summaries, filter, defaults);
    ListIsComplete(summaries, profiles, filter, defaults, leq);
    if d in foundation {
      FoundationMembers(summaries, filter, defaults);
    } else {
      ProfileFrom(profiles, filter, defaults, foundation, d);
      assert forall other :: other in foundation ==> Normalize(other.id) in Ids(foundation);
    }
  }
}
