/** How the Bedrock extension (extensions/amazon-bedrock/discovery.ts) turns one fetch into
    a model list: foundation models, then inference profiles that are not yet listed,
    sorted.  Lower-casing is that of ASCII letters. */
module BedrockModels {
  import opened Wrappers
  import opened JsText
  import opened StableSort

  datatype Modality = TextInput | ImageInput

  datatype Summary = Summary(modelId: Option<string>, providerName: Option<string>, modelName: Option<string>,
                             streaming: bool, outputModalities: seq<string>, inputModalities: seq<string>,
                             status: Option<string>)

  datatype Profile = Profile(id: Option<string>, name: Option<string>, active: bool, systemDefined: bool,
                             modelArns: seq<Option<string>>)

  datatype Model = Model(id: string, name: string, reasoning: bool, input: seq<Modality>,
                         contextWindow: int, maxTokens: int)

  datatype Defaults = Defaults(contextWindow: int, maxTokens: int)

  /** `normalizeLowercaseStringOrEmpty` */
  function Normalize(s: string): string {
    ToLower(Trim(s))
  }

  function OrEmpty(s: Option<string>): string {
    if s.Some? then s.value else ""
  }

  // ---------------------------------------------------------------- foundation models

  predicate MatchesProviderFilter(m: Summary, filter: seq<string>) {
    filter == [] ||
    (var provider := if m.providerName.Some? then m.providerName.value
                     else if m.modelId.Some? then Split(m.modelId.value, '.')[0]
                     else "";
     Normalize(provider) != "" && Normalize(provider) in filter)
  }

  predicate ShouldIncludeSummary(m: Summary, filter: seq<string>) {
    && m.modelId.Some? && !IsBlank(m.modelId.value)
    && MatchesProviderFilter(m, filter)
    && m.streaming
    && (exists o :: o in m.outputModalities && Normalize(o) == "text")
    && m.status.Some? && ToLower(m.status.value) == "active"
  }

  /** The modalities in the order of their first mention; text if there is none. */
  function MentionedModalities(inputs: seq<string>): seq<Modality> {
    if inputs == [] then []
    else
      var before, last := MentionedModalities(inputs[..|inputs| - 1]), Normalize(inputs[|inputs| - 1]);
      if last == "text" && TextInput !in before then before + [TextInput]
      else if last == "image" && ImageInput !in before then before + [ImageInput]
      else before
  }

  function MapInputModalities(m: Summary): seq<Modality> {
    if MentionedModalities(m.inputModalities) == [] then [TextInput] else MentionedModalities(m.inputModalities)
  }

  predicate InferReasoningSupport(m: Summary) {
    var haystack := Normalize(OrEmpty(m.modelId) + " " + OrEmpty(m.modelName));
    Includes(haystack, "reasoning") || Includes(haystack, "thinking")
  }

  function ToModelDefinition(m: Summary, defaults: Defaults): Model {
    var id := Trim(OrEmpty(m.modelId));
    Model(id, if IsBlank(OrEmpty(m.modelName)) then id else Trim(OrEmpty(m.modelName)),
          InferReasoningSupport(m), MapInputModalities(m), defaults.contextWindow, defaults.maxTokens)
  }

  /** The definitions of the included summaries, in order. */
  function FoundationModels(summaries: seq<Summary>, filter: seq<string>, defaults: Defaults): seq<Model> {
    if summaries == [] then []
    else
      var last := summaries[|summaries| - 1];
      FoundationModels(summaries[..|summaries| - 1], filter, defaults) +
      (if ShouldIncludeSummary(last, filter) then [ToModelDefinition(last, defaults)] else [])
  }

  /** The lookup map: normalised ids, where a later model replaces an earlier one. */
  function ById(models: seq<Model>): map<string, Model> {
    if models == [] then map[]
    else ById(models[..|models| - 1])[Normalize(models[|models| - 1].id) := models[|models| - 1]]
  }

  function Ids(models: seq<Model>): set<string> {
    set m | m in models :: Normalize(m.id)
  }

  // ---------------------------------------------------------------- inference profiles

  const FOUNDATION_MODEL := "foundation-model/"

  predicate HasNoLineEnd(s: string) {
    forall c :: c in s ==> c !in {'\n', '\r', '\U{2028}', '\U{2029}'}
  }

  /** `/foundation-model\/(.+)$/` */
  function AfterFoundationModel(arn: string): Option<string> {
    if arn == [] then None
    else if StartsWith(arn, FOUNDATION_MODEL) && |arn| > |FOUNDATION_MODEL| && HasNoLineEnd(arn[|FOUNDATION_MODEL|..])
    then Some(arn[|FOUNDATION_MODEL|..])
    else AfterFoundationModel(arn[1..])
  }

  /** `/^(?:us|eu|ap|jp|global)\.(.+)$/i` */
  function AfterRegion(id: string): Option<string> {
    var lower := ToLower(id);
    var n := if StartsWith(lower, "us.") || StartsWith(lower, "eu.") || StartsWith(lower, "ap.") || StartsWith(lower, "jp.")
             then 3 else if StartsWith(lower, "global.") then 7 else 0;
    if 0 < n < |id| && HasNoLineEnd(id[n..]) then Some(id[n..]) else None
  }

  function ResolveBaseModelId(p: Profile): Option<string> {
    var byArn := if p.modelArns != [] && p.modelArns[0].Some? then AfterFoundationModel(p.modelArns[0].value) else None;
    if byArn.Some? then byArn else if p.systemDefined then AfterRegion(OrEmpty(p.id)) else None
  }

  /** The provider named by the second segment of an ARN, if any. */
  predicate ArnMatches(arn: Option<string>, filter: seq<string>) {
    arn.Some? &&
    (var segments := Split(arn.value, '/');
     |segments| > 1 && Split(segments[1], '.')[0] != "" && Normalize(Split(segments[1], '.')[0]) in filter)
  }

  predicate Eligible(p: Profile, filter: seq<string>) {
    && p.id.Some? && !IsBlank(p.id.value)
    && p.active
    && (filter == [] || exists arn :: arn in p.modelArns && ArnMatches(arn, filter))
  }

  /** The foundation model that a profile inherits from, if it is known. */
  function BaseOf(p: Profile, foundation: map<string, Model>): Option<Model> {
    match ResolveBaseModelId(p)
    case None => None
    case Some(base) => if Normalize(base) in foundation then Some(foundation[Normalize(base)]) else None
  }

  function ProfileModel(p: Profile, defaults: Defaults, foundation: map<string, Model>): Model {
    var id := OrEmpty(p.id);
    var name := if IsBlank(OrEmpty(p.name)) then id else Trim(OrEmpty(p.name));
    match BaseOf(p, foundation)
    case Some(base) => Model(id, name, base.reasoning, base.input, base.contextWindow, base.maxTokens)
    case None => Model(id, name, false, [TextInput], defaults.contextWindow, defaults.maxTokens)
  }

  function ProfileModels(profiles: seq<Profile>, defaults: Defaults, filter: seq<string>, foundation: map<string, Model>): seq<Model> {
    if profiles == [] then []
    else
      var last := profiles[|profiles| - 1];
      ProfileModels(profiles[..|profiles| - 1], defaults, filter, foundation) +
      (if Eligible(last, filter) then [ProfileModel(last, defaults, foundation)] else [])
  }

  /** Appends the models whose id has not been seen. */
  function Merge(base: seq<Model>, more: seq<Model>): seq<Model> {
    if more == [] then base
    else
      var before, last := Merge(base, more[..|more| - 1]), more[|more| - 1];
      if Normalize(last.id) in Ids(before) then before else before + [last]
  }

  // ---------------------------------------------------------------- the order

  predicate IsGlobal(m: Model) {
    StartsWith(m.id, "global.")
  }

  /** Global profiles first, then by name. */
  function ModelOrder(leq: (string, string) -> bool): (Model, Model) -> bool {
    (a: Model, b: Model) => if IsGlobal(a) != IsGlobal(b) then IsGlobal(a) else leq(a.name, b.name)
  }

  function Discovered(summaries: seq<Summary>, profiles: seq<Profile>, filter: seq<string>, defaults: Defaults): seq<Model> {
    var foundation := FoundationModels(summaries, filter, defaults);
    Merge(foundation, ProfileModels(profiles, defaults, filter, ById(foundation)))
  }

  /** The sorted list. */
  function Listing(summaries: seq<Summary>, profiles: seq<Profile>, filter: seq<string>, defaults: Defaults,
                   leq: (string, string) -> bool): seq<Model>
  {
    Sort(ModelOrder(leq), Discovered(summaries, profiles, filter, defaults))
  }

  // ---------------------------------------------------------------- the extension's loops

  method ResolveInferenceProfiles(profiles: seq<Profile>, defaults: Defaults, providerFilter: seq<string>,
                                  foundationModels: map<string, Model>) returns (discovered: seq<Model>)
    ensures discovered == ProfileModels(profiles, defaults, providerFilter, foundationModels)
  {
    discovered := [];
    for i := 0 to |profiles|
      invariant discovered == ProfileModels(profiles[..i], defaults, providerFilter, foundationModels)
    {
      var profile := profiles[i];
      assert profiles[..i + 1][..i] == profiles[..i];
      if profile.id.None? || IsBlank(profile.id.value) {
        continue;
      }
      if !profile.active {
        continue;
      }
      if |providerFilter| > 0 {
        if !(exists arn :: arn in profile.modelArns && ArnMatches(arn, providerFilter)) {
          continue;
        }
      }
      discovered := discovered + [ProfileModel(profile, defaults, foundationModels)];
    }
    assert profiles[..|profiles|] == profiles;
  }

  /** The loop over the foundation models: the list, the ids seen and the lookup map. */
  method CollectFoundationModels(summaries: seq<Summary>, providerFilter: seq<string>, defaults: Defaults)
    returns (discovered: seq<Model>, seenIds: set<string>, foundationModels: map<string, Model>)
    ensures discovered == FoundationModels(summaries, providerFilter, defaults)
    ensures seenIds == Ids(discovered) && foundationModels == ById(discovered)
  {
    discovered, seenIds, foundationModels := [], {}, map[];
    for i := 0 to |summaries|
      invariant discovered == FoundationModels(summaries[..i], providerFilter, defaults)
      invariant seenIds == Ids(discovered) && foundationModels == ById(discovered)
    {
      assert summaries[..i + 1][..i] == summaries[..i];
      if !ShouldIncludeSummary(summaries[i], providerFilter) {
        continue;
      }
      var def := ToModelDefinition(summaries[i], defaults);
      IdsAppend(discovered, def);
      assert (discovered + [def])[..|discovered|] == discovered;
      discovered := discovered + [def];
      seenIds := seenIds + {Normalize(def.id)};
      foundationModels := foundationModels[Normalize(def.id) := def];
    }
    assert summaries[..|summaries|] == summaries;
  }

  /** The loop over the inference profiles. */
  method MergeProfiles(foundation: seq<Model>, seen: set<string>, profiles: seq<Model>) returns (discovered: seq<Model>)
    requires seen == Ids(foundation)
    ensures discovered == Merge(foundation, profiles)
  {
    discovered := foundation;
    var seenIds := seen;
    for i := 0 to |profiles|
      invariant discovered == Merge(foundation, profiles[..i]) && seenIds == Ids(discovered)
    {
      var profile := profiles[i];
      assert profiles[..i + 1][..i] == profiles[..i];
      if Normalize(profile.id) !in seenIds {
        IdsAppend(discovered, profile);
        discovered := discovered + [profile];
        seenIds := seenIds + {Normalize(profile.id)};
      }
    }
    assert profiles[..|profiles|] == profiles;
  }

  method BuildModelList(summaries: seq<Summary>, profiles: seq<Profile>, providerFilter: seq<string>, defaults: Defaults,
                        leq: (string, string) -> bool) returns (r: seq<Model>)
    ensures r == Listing(summaries, profiles, providerFilter, defaults, leq)
  {
    var discovered, seenIds, foundationModels := CollectFoundationModels(summaries, providerFilter, defaults);
    var inferenceProfiles := ResolveInferenceProfiles(profiles, defaults, providerFilter, foundationModels);
    discovered := MergeProfiles(discovered, seenIds, inferenceProfiles);
    return Sort(ModelOrder(leq), discovered);
  }

  lemma IdsAppend(models: seq<Model>, m: Model)
    ensures Ids(models + [m]) == Ids(models) + {Normalize(m.id)}
  {
  }

  // ---------------------------------------------------------------- one model per id

  ghost predicate DistinctIds(models: seq<Model>) {
    forall i, j :: 0 <= i < j < |models| ==> Normalize(models[i].id) != Normalize(models[j].id)
  }

  /** Merging keeps the base in front and adds what has a new id. */
  lemma {:induction false} MergeExtends(base: seq<Model>, more: seq<Model>)
    ensures base <= Merge(base, more) && Ids(base) <= Ids(Merge(base, more))
  {
    if more != [] {
      MergeExtends(base, more[..|more| - 1]);
    }
    IdsPrefix(base, Merge(base, more));
  }

  lemma {:induction false} MergeHasIds(base: seq<Model>, more: seq<Model>)
    ensures Ids(Merge(base, more)) == Ids(base) + Ids(more)
  {
    if more != [] {
      var front, last := more[..|more| - 1], more[|more| - 1];
      MergeHasIds(base, front);
      assert more == front + [last];
      IdsAppend(front, last);
      IdsAppend(Merge(base, front), last);
    }
  }

  lemma {:induction false} MergedFrom(base: seq<Model>, more: seq<Model>, m: Model)
    requires m in Merge(base, more)
    ensures m in base || (m in more && Normalize(m.id) !in Ids(base))
  {
    if more != [] {
      var front, last := more[..|more| - 1], more[|more| - 1];
      assert more == front + [last] && last in more;
      if m in Merge(base, front) {
        MergedFrom(base, front, m);
      } else {
        MergeExtends(base, front);
      }
    }
  }

  lemma MergeAddsMissing(base: seq<Model>, more: seq<Model>)
    ensures base <= Merge(base, more)
    ensures Ids(Merge(base, more)) == Ids(base) + Ids(more)
    ensures forall m :: m in Merge(base, more) ==> m in base || (m in more && Normalize(m.id) !in Ids(base))
  {
    MergeExtends(base, more);
    MergeHasIds(base, more);
    forall m | m in Merge(base, more) ensures m in base || (m in more && Normalize(m.id) !in Ids(base)) {
      MergedFrom(base, more, m);
    }
  }

  lemma IdsPrefix(base: seq<Model>, all: seq<Model>)
    requires base <= all
    ensures Ids(base) <= Ids(all)
  {
    forall m | m in base ensures m in all {
      var i :| 0 <= i < |base| && base[i] == m;
      assert all[i] == m;
    }
  }

  lemma {:induction false} MergeKeepsDistinct(base: seq<Model>, more: seq<Model>)
    ensures DistinctIds(Merge(base, more)) <==> DistinctIds(base)
  {
    if more != [] {
      var front, last := more[..|more| - 1], more[|more| - 1];
      MergeKeepsDistinct(base, front);
      if Normalize(last.id) !in Ids(Merge(base, front)) {
        DistinctAppend(Merge(base, front), last);
      }
    }
  }

  lemma DistinctAppend(models: seq<Model>, m: Model)
    requires Normalize(m.id) !in Ids(models)
    ensures DistinctIds(models + [m]) <==> DistinctIds(models)
  {
    var all := models + [m];
    if DistinctIds(all) {
      forall i, j | 0 <= i < j < |models| ensures Normalize(models[i].id) != Normalize(models[j].id) {
        assert all[i] == models[i] && all[j] == models[j];
      }
    }
    if DistinctIds(models) {
      forall i, j | 0 <= i < j < |all| ensures Normalize(all[i].id) != Normalize(all[j].id) {
        if j == |models| {
          assert all[i] in models;
        }
      }
    }
  }

  /** The list has one model per id exactly when the included foundation models do:
      these are not checked against each other. */
  lemma OneModelPerId(summaries: seq<Summary>, profiles: seq<Profile>, filter: seq<string>, defaults: Defaults,
                      leq: (string, string) -> bool)
    ensures DistinctIds(Sort(ModelOrder(leq), Discovered(summaries, profiles, filter, defaults))) <==>
            DistinctIds(FoundationModels(summaries, filter, defaults))
  {
    var foundation := FoundationModels(summaries, filter, defaults);
    MergeKeepsDistinct(foundation, ProfileModels(profiles, defaults, filter, ById(foundation)));
    SortedIdsDistinct(leq, Discovered(summaries, profiles, filter, defaults));
  }

  function IdsOf(models: seq<Model>): seq<string> {
    if models == [] then [] else [Normalize(models[0].id)] + IdsOf(models[1..])
  }

  lemma {:induction false} IdsListed(models: seq<Model>)
    ensures |IdsOf(models)| == |models|
    ensures forall i :: 0 <= i < |models| ==> IdsOf(models)[i] == Normalize(models[i].id)
  {
    if models != [] {
      IdsListed(models[1..]);
    }
  }

  lemma IdsOfAt(models: seq<Model>)
    ensures |IdsOf(models)| == |models|
    ensures forall i :: 0 <= i < |models| ==> IdsOf(models)[i] == Normalize(models[i].id)
    ensures DistinctIds(models) <==> Distinct(IdsOf(models))
  {
    IdsListed(models);
  }

  lemma {:induction false} IdsOfInsert(order: (Model, Model) -> bool, x: Model, s: seq<Model>)
    ensures multiset(IdsOf(Insert(order, x, s))) == multiset{Normalize(x.id)} + multiset(IdsOf(s))
  {
    if s == [] || order(x, s[0]) {
      assert ([x] + s)[1..] == s;
    } else {
      IdsOfInsert(order, x, s[1..]);
      var rest := Insert(order, x, s[1..]);
      assert ([s[0]] + rest)[1..] == rest;
    }
  }

  lemma {:induction false} IdsOfSort(order: (Model, Model) -> bool, s: seq<Model>)
    ensures multiset(IdsOf(Sort(order, s))) == multiset(IdsOf(s))
  {
    if s != [] {
      IdsOfSort(order, s[1..]);
      IdsOfInsert(order, s[0], Sort(order, s[1..]));
    }
  }

  lemma SortedIdsDistinct(leq: (string, string) -> bool, models: seq<Model>)
    ensures DistinctIds(Sort(ModelOrder(leq), models)) <==> DistinctIds(models)
  {
    IdsOfAt(models);
    IdsOfAt(Sort(ModelOrder(leq), models));
    IdsOfSort(ModelOrder(leq), models);
    DistinctIffOnce(IdsOf(models));
    DistinctIffOnce(IdsOf(Sort(ModelOrder(leq), models)));
  }

  // ---------------------------------------------------------------- what the list holds

  lemma ModelOrderIsPreorder(leq: (string, string) -> bool)
    requires TotalPreorder(leq)
    ensures TotalPreorder(ModelOrder(leq))
  {
    var order := ModelOrder(leq);
    forall a, b ensures order(a, b) || order(b, a) {
      assert leq(a.name, b.name) || leq(b.name, a.name);
    }
    forall a, b, c | order(a, b) && order(b, c) ensures order(a, c) {
      assert leq(a.name, b.name) && leq(b.name, c.name) ==> leq(a.name, c.name);
    }
  }

  lemma SortedIds(order: (Model, Model) -> bool, models: seq<Model>)
    requires TotalPreorder(order)
    ensures Ids(Sort(order, models)) == Ids(models)
  {
    SortMembers(order, models);
  }

  /** Every included foundation model is listed, every eligible profile's id is listed, and
      a profile's own definition only where no foundation model has its id. */
  lemma ListIsComplete(summaries: seq<Summary>, profiles: seq<Profile>, filter: seq<string>, defaults: Defaults,
                       leq: (string, string) -> bool)
    requires TotalPreorder(leq)
    ensures var foundation := FoundationModels(summaries, filter, defaults);
            var added := ProfileModels(profiles, defaults, filter, ById(foundation));
            var r := Sort(ModelOrder(leq), Discovered(summaries, profiles, filter, defaults));
            && (forall m :: m in foundation ==> m in r)
            && Ids(r) == Ids(foundation) + Ids(added)
            && (forall m :: m in r ==> m in foundation || (m in added && Normalize(m.id) !in Ids(foundation)))
  {
    var foundation := FoundationModels(summaries, filter, defaults);
    var added := ProfileModels(profiles, defaults, filter, ById(foundation));
    MergeAddsMissing(foundation, added);
    ModelOrderIsPreorder(leq);
    SortedIds(ModelOrder(leq), Merge(foundation, added));
    SortMembers(ModelOrder(leq), Merge(foundation, added));
  }

  /** Ids with the prefix "global." come first, each group by name, and models that compare
      equal keep their order: foundation models before profiles. */
  lemma ListIsOrdered(models: seq<Model>, leq: (string, string) -> bool, t: Model)
    requires TotalPreorder(leq)
    ensures var r := Sort(ModelOrder(leq), models);
            && (forall i, j :: 0 <= i < j < |r| && "global." <= r[j].id ==> "global." <= r[i].id)
            && (forall i, j :: 0 <= i < j < |r| && ("global." <= r[i].id <==> "global." <= r[j].id) ==> leq(r[i].name, r[j].name))
            && multiset(r) == multiset(models)
            && Ties(ModelOrder(leq), t, r) == Ties(ModelOrder(leq), t, models)
  {
    ModelOrderIsPreorder(leq);
    SortCorrect(ModelOrder(leq), models);
    SortStable(ModelOrder(leq), models, t);
    assert forall m: Model :: IsGlobal(m) <==> "global." <= m.id;
  }

  /** Model `i` is the last one with this id. */
  predicate LastWithId(models: seq<Model>, id: string, i: int) {
    && 0 <= i < |models| && Normalize(models[i].id) == id
    && forall j :: i < j < |models| ==> Normalize(models[j].id) != id
  }

  lemma LastWithIdGrows(front: seq<Model>, last: Model, id: string, i: int)
    requires LastWithId(front, id, i) && Normalize(last.id) != id
    ensures LastWithId(front + [last], id, i) && (front + [last])[i] == front[i]
  {
  }

  lemma {:induction false} ByIdIsLast(models: seq<Model>, id: string)
    ensures id in ById(models) <==> id in Ids(models)
    ensures id in ById(models) ==> exists i :: LastWithId(models, id, i) && models[i] == ById(models)[id]
  {
    if models != [] {
      var front, last := models[..|models| - 1], models[|models| - 1];
      ByIdIsLast(front, id);
      assert models == front + [last];
      IdsAppend(front, last);
      if id == Normalize(last.id) {
        assert LastWithId(models, id, |models| - 1);
      } else if id in ById(front) {
        var i :| LastWithId(front, id, i) && front[i] == ById(front)[id];
        LastWithIdGrows(front, last, id, i);
      }
    }
  }

  /** A profile takes its capabilities from the last included foundation model with its
      base id, and the defaults when there is none. */
  lemma ProfileInherits(p: Profile, base: string, models: seq<Model>, defaults: Defaults)
    requires ResolveBaseModelId(p) == Some(base)
    ensures var m := ProfileModel(p, defaults, ById(models));
            if Normalize(base) in Ids(models) then
              exists i :: LastWithId(models, Normalize(base), i) && m == models[i].(id := m.id, name := m.name)
            else m == Model(m.id, m.name, false, [TextInput], defaults.contextWindow, defaults.maxTokens)
  {
    ByIdIsLast(models, Normalize(base));
  }
}
