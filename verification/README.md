# Verified models of OpenClaw's trickiest algorithms

Dafny models of eight components of OpenClaw, with machine-checked proofs of what their
code promises. Run `dafny verify dfyconfig.toml`.

- **Import-cycle checker** (`scripts/check-import-cycles.ts`): Tarjan's pass as a class with
  the script's fields, over any finite graph, open or closed; the witness search.
  Modules `Digraph`, `ImportCycles`, `ImportCyclePass`, `CycleWitness`.
- **Translation sync** (`scripts/control-ui-i18n.ts`): the greedy batcher, the retry-and-split
  recursion, flattening and rebuilding locale objects, the reuse/translate/fallback loops and
  whole runs, and the RPC client as a state machine. Modules `TranslationBatches`,
  `BatchTranslation`, `BatchAttempts`, `TranslationTree`, `LocaleObjects`, `LocaleSync`,
  `LocaleRuns`, `LocaleDecisions`, `PiRpc`.
- **Active memory** (`extensions/active-memory/index.ts`): the promise-chain lock around the
  toggle file under every interleaving, the recall cache over every history, and the prompt
  prefix with the two strippers. Modules `ToggleStore`, `RecallCache`, `JsWords`, `PromptContext`,
  `PromptLines`.
- **Bedrock discovery** (`extensions/amazon-bedrock/discovery.ts`): the single-flight cache under
  every interleaving, and the model list. Modules `BedrockDiscovery`, `BedrockModels`, `BedrockCatalog`.
- **Config-surface import graph** (`scripts/load-channel-config-surface.ts`): the worklist, the
  common ancestor, and when a copied file's imports still resolve. Modules `Paths`,
  `CommonAncestor`, `ImportSurface`, `ImportResolution`.
- **Legacy config migration** (`extensions/amazon-bedrock/config-compat.ts`): on values, and on a
  heap of objects with sharing. Modules `ConfigMerge`, `ConfigMigration`, `ConfigRecords`.
- **UTF-16-safe slicing** (`src/utils.ts`): on code units, and on the characters they encode.
  Modules `Utf16Slice`, `Utf16Text`.
- **Claude CLI arguments** (`extensions/anthropic/cli-shared.ts`). Modules `ClaudeArgs`,
  `ClaudeSettings`.

Shared: `Wrappers`, `JsText` and `JsTextLaws` (string operations and what they mean), `JsObjects`
(ordered objects as values and as heap cells), `ObjectCursor` (walking and writing into them),
`StableSort`.

How the sources are read:

- A state machine lists what each callback or continuation does between two awaits; a class
  beside it updates the source's fields and is proved to take exactly those steps, and a driver
  carries the theorems about runs to its fields. A run is any sequence of events; an event that
  is not enabled changes nothing.
- Recursive in-place code works on a heap of cells. A ghost shape says which cells form a tree,
  so contracts can say which objects are new, shared or untouched.
- The language model of the translation sync is any function of the attempt number and the
  batch; a clock, a comparator (`localeCompare`, any total preorder) and a hash are parameters.
  Map iteration order is left open where the result does not depend on it.
- Characters are Unicode scalar values except in `Utf16Slice` and `Utf16Text`, which work on code units.
  Lower-casing is that of ASCII letters, so case differences of other letters are not modelled.

Where the code does not do what one might expect, the model follows the code:

- The batcher's running size counts the constant 2 of the estimate once more for every item. That
  makes it the length of the JSON that is sent, when nothing in it is escaped; the estimate alone
  is 2 characters per item too small.
- `--force` decides nothing: of the two places that read it, one is never reached in a run that
  completes, and the other only ends a run earlier that writes nothing.
- Rebuilding a locale reads inherited properties, so a text below `constructor` or `toString` is
  written into a built-in function and not into the locale, and one under `__proto__` nowhere.
  Below `constructor.name` the write throws, after the prompts of the run have been paid for.
- A toggle whose read fails starts from an empty store and so forgets the other sessions; the
  session key `__proto__` is never stored.
- A recall key does not tell agent `a` with session `b:c` from agent `a:b` with session `c`.
- A failed discovery gives the initiator an empty list but rejects those who joined it.
- Foundation models are not deduplicated among themselves.
- `resolveCommonAncestor` does not climb when the relative path is exactly `..`.
- `--permission-mode=` with an empty value counts as a permission mode, so none is added.
- From a copied module graph, a specifier that climbs out and names the original directory still
  finds the originals.
- Keys that every object inherits, such as `toString`, are never missing to `mergeMissing`.
- The change message of the migration misses changes that are only nested.
- Stripping recalled context twice can differ from stripping it once.
- The cycle checker's "stack underflow" error is reachable only for a node with an empty name.

## Model

| member | source | states |
|---|---|---|
| `ImportCycles.PushKeeps` | scripts/check-import-cycles.ts:165-170 | numbering a new node and pushing it keeps the invariant of the search (what is on the stack reaches up it, what was popped is closed, active visits reach the new node) |
| `ImportCycles.UpperIsScc` | scripts/check-import-cycles.ts:181-193 | when a node's low-link equals its number, the nodes above it on the stack are exactly one strongly connected component: mutually reachable, and no further node is mutually reachable with them |
| `ImportCycles.PopKeeps` | scripts/check-import-cycles.ts:184-193 | popping that component keeps the invariant |
| `ImportCycles.LeaveKeeps` | scripts/check-import-cycles.ts:181-183 | returning with a smaller low-link keeps the invariant: the node stays anchored to one lower on the stack that it reaches |
| `ImportCycles.LoopOnStack` | scripts/check-import-cycles.ts:176-178 | an import that is on the stack lowers the low-link and keeps the loop invariant |
| `ImportCycles.LoopOffStack` | scripts/check-import-cycles.ts:172-179 | an import whose component was popped can be skipped |
| `ImportCycles.LoopReturned` | scripts/check-import-cycles.ts:173-175 | taking over the low-link of a visited import keeps the loop invariant |
| `ImportCyclePass.SccPass.Enter` | scripts/check-import-cycles.ts:166-170 | numbers the node, pushes it, and establishes the invariant with the node as an active visit |
| `ImportCyclePass.SccPass.PopComponent` | scripts/check-import-cycles.ts:184-193 | takes nodes off the stack until the given one; fails with the underflow error only if the empty name is on the stack |
| `ImportCyclePass.SccPass.Record` | scripts/check-import-cycles.ts:194-196 | keeps a component when it has two nodes or a self-import, sorted |
| `ImportCyclePass.SccPass.PopOff` | scripts/check-import-cycles.ts:184-196 | pops one whole component and leaves the invariant and the caller's low-link facts intact |
| `ImportCyclePass.SccPass.Leave` | scripts/check-import-cycles.ts:181-196 | keeps the node on the stack or pops its component |
| `ImportCyclePass.SccPass.Visit` | scripts/check-import-cycles.ts:165-197 | the recursive visit over an unbounded graph keeps the invariant, numbers everything it reaches, and returns a low-link that its caller may take over |
| `ImportCyclePass.SccPass.Collect` | scripts/check-import-cycles.ts:155-208 | the error is returned exactly when some node has the empty name; otherwise the components are strongly connected, maximal, pairwise disjoint, cover every pair of distinct mutually reachable nodes and every self-import, are sorted, none is reported exactly when the graph is acyclic, and every node was visited once |
| `ImportCyclePass.NoneIffAcyclic` | scripts/check-import-cycles.ts:194-208 | no component is reported exactly when no node reaches itself by an edge or more |
| `ImportCyclePass.ReportedCovers` | scripts/check-import-cycles.ts:194-198 | two different mutually reachable nodes appear together in one reported component |
| `ImportCyclePass.FinalOrder` | scripts/check-import-cycles.ts:204-207 | sorting keeps all of this and lists the components by size, the largest first, and those of one size by their joined lines |
| `CycleWitness.WitnessSearch.Visit` | scripts/check-import-cycles.ts:221-241 | the search returns a real cycle, or has exhausted nodes from which no cycle in the component can be reached |
| `CycleWitness.FindCycleWitness` | scripts/check-import-cycles.ts:210-243 | the result is a witness (consecutive nodes are edges inside the component, first equals last, nothing else repeats) exactly when a cycle lies ahead of the first node |
| `CycleWitness.ComponentHasCycle` | scripts/check-import-cycles.ts:194-196 | in every component that is reported a cycle lies ahead of the first node, so the fallback is never taken |
| `CycleWitness.FindWitnesses` | scripts/check-import-cycles.ts:245-251 | each reported component gets a real cycle |
| `CycleWitness.CheckImportCycles` | scripts/check-import-cycles.ts:253-276 | exit code 0 exactly for acyclic graphs; otherwise the components and one witness cycle for each |
| `StableSort.SortCorrect` | scripts/check-import-cycles.ts:204-207 | the model of `toSorted` is sorted and a permutation |
| `StableSort.SortStable` | extensions/amazon-bedrock/discovery.ts:391-398 | elements that compare equal keep their order |
| `StableSort.SortCanonical` | scripts/control-ui-i18n.ts:1144-1146 | the elements can be listed in only one sorted order exactly when no two different ones compare equal; then sorting does not depend on the order of the input |
| `TranslationBatches.BuildTranslationBatches` | scripts/control-ui-i18n.ts:659-683 | the batches concatenate to the items, none is empty or has more than 20 items, each is within the accounted budget unless it is a single item, and no other contiguous split within the limits has fewer batches |
| `TranslationBatches.GreedyAhead` | scripts/control-ui-i18n.ts:665-676 | no split within the limits has fewer batches than the greedy one, also when it has items left over from before to cover |
| `TranslationBatches.GreedyCovers` | scripts/control-ui-i18n.ts:665-676 | after any number of batches that both have, the greedy split has covered at least as many items as any other split within the limits |
| `TranslationBatches.EstimateWithinBudget` | scripts/control-ui-i18n.ts:499-501 | the accounted size of a batch is its estimate plus 2 per item, so a batch within the budget has an estimate within it |
| `TranslationBatches.AccountedIsPayload` | scripts/control-ui-i18n.ts:442-450 | the accounted size of a batch is the length of the JSON object that is sent for it, exactly when no character of it needs an escape; otherwise the JSON is longer |
| `TranslationBatches.PayloadWithinBudget` | scripts/control-ui-i18n.ts:659-683 | each batch has 1 to 20 items, and its JSON is within the budget unless it is a single item or has characters to escape |
| `BatchTranslation.ReadReplyCorrect` | scripts/control-ui-i18n.ts:942-952 | a reply is accepted exactly when every item has a non-blank text, and the map then has exactly the batch's keys |
| `BatchAttempts.TimedOutAttempt` | scripts/control-ui-i18n.ts:954-975 | after an error that says "timed out" in any case and at any place, a batch of several items is run as two halves, the left one at most one item longer and the right one only after it succeeded |
| `BatchAttempts.FailedAttempt` | scripts/control-ui-i18n.ts:954-986 | after any other error the batch is tried once more, and then fails with it; a single item that timed out fails at once |
| `BatchAttempts.GoodAttempt` | scripts/control-ui-i18n.ts:938-952 | a reply with a visible text for every item ends the run with just these texts |
| `BatchAttempts.TimeoutIsSplit` | scripts/control-ui-i18n.ts:473-475 | the message of the client's own timeout splits the batch, whatever label stands before it and details after it |
| `BatchTranslation.LogFaithful` | scripts/control-ui-i18n.ts:933-986 | every attempt of a run asks the model the next question, in order |
| `BatchTranslation.AttemptBound` | scripts/control-ui-i18n.ts:933-986 | a batch of n items costs at most 4n - 2 attempts, retries and splits included |
| `BatchTranslation.PromptBound` | scripts/control-ui-i18n.ts:925-987 | whatever fails, at most 4n - 2 prompts are sent |
| `BatchTranslation.PromptBoundIsTight` | scripts/control-ui-i18n.ts:925-987 | for every batch some failure pattern reaches that number and still succeeds |
| `BatchTranslation.SuccessCorrect` | scripts/control-ui-i18n.ts:943-975 | on success the map has exactly the batch's keys, no blank value, and each value comes from a reply of the run to a prompt that asked for that key |
| `BatchTranslation.FailureExplained` | scripts/control-ui-i18n.ts:954-986 | on failure some batch was tried as often as allowed, and its last error is the one reported |
| `BatchTranslation.Translator.TranslateBatch` | scripts/control-ui-i18n.ts:925-987 | the attempt loop computes the specified run and terminates for every failure pattern |
| `BatchTranslation.Translator.TranslateHalves` | scripts/control-ui-i18n.ts:959-975 | a batch that timed out is translated as two halves, the second only after the first |
| `TranslationTree.FlattenListsLeaves` | scripts/control-ui-i18n.ts:281-291 | for plain keys flattening lists the leaves of the tree, in order, under distinct dotted keys |
| `TranslationTree.RebuildFlattened` | scripts/control-ui-i18n.ts:293-308 | for plain keys, setting the flattened entries one by one throws exactly when some write escapes into an object of the runtime and throws there; otherwise it keeps the texts whose walks stay in the tree, in order; it gives the whole tree without its empty subtrees exactly when no key above a text is one that every object inherits and no text has the key `__proto__` |
| `TranslationTree.InheritedParentIsLost` | scripts/control-ui-i18n.ts:298-305 | `{constructor: {a: text}}` is not rebuilt: the walk goes into the inherited function, and the tree stays empty unless that write throws |
| `TranslationTree.ProtoTextIsLost` | scripts/control-ui-i18n.ts:307 | a text under the key `__proto__` makes no property |
| `LocaleDecisions.InheritedKeys` | scripts/control-ui-i18n.ts:298-305 | a text one level below a key is rebuilt exactly when the key is none of the twelve that every object inherits |
| `TranslationTree.FlattenRebuilt` | scripts/control-ui-i18n.ts:281-308 | flattening the rebuilt tree gives the entries whose walks stay in the tree, in the same order, and all of them exactly when no walk leaves it; rebuilding throws exactly when an escaped write does |
| `TranslationTree.FlattenValued` | scripts/control-ui-i18n.ts:1135-1138 | flattening what was rebuilt with other texts gives those texts under the same keys, except for walks that leave the tree; every write arrives exactly when no walk leaves it, and rebuilding throws exactly when an escaped write does |
| `LocaleObjects.FlattenTranslations` | scripts/control-ui-i18n.ts:281-291 | the recursive loop fills the map it is handed as specified |
| `LocaleObjects.SetNestedValue` | scripts/control-ui-i18n.ts:293-308 | the cursor walk on heap objects, inherited reads included, has the effect of the specification on the tree, changes no other cell, and tells exactly whether the write arrived, was ignored by the `__proto__` setter, or escaped into an object of the runtime |
| `LocaleObjects.BuildLocale` | scripts/control-ui-i18n.ts:1135-1138 | the loop of writes stops exactly at the first escaped write that throws; otherwise it builds the specified tree in new cells; it changes no cell that existed before and tells exactly whether every write arrived in the tree |
| `ObjectCursor.Descend` | scripts/control-ui-i18n.ts:296-306 | one cursor step over an own or a missing key, which makes an object of a missing value, leaves the effect of the whole walk unchanged |
| `ObjectCursor.WalkingLost` | scripts/control-ui-i18n.ts:298-305 | where the next key is inherited and not own, the walk ends and the tree is what the specification says |
| `ObjectCursor.WriteLast` | scripts/control-ui-i18n.ts:307 | the final assignment completes the walk |
| `JsObjects.ReplaceAtOk` | scripts/control-ui-i18n.ts:293-308 | rewriting cells below one node keeps the rest of the object tree in place |
| `LocaleSync.ReuseExisting` | scripts/control-ui-i18n.ts:1017-1050 | a key gets its remembered value, else its existing one, unless it is a fallback to be refreshed; the rest is queued in source order |
| `LocaleSync.StoreBatch` | scripts/control-ui-i18n.ts:1082-1101 | every translation of a batch is stored as value and in the memory, nothing else changes |
| `LocaleSync.TranslatePending` | scripts/control-ui-i18n.ts:1052-1105 | the batches are a split of the queue within the limits with the fewest batches, and are translated in order; on success every queued item has its non-blank translation, on failure the error and the attempts are those of the batches up to the first failing one |
| `LocaleSync.StageFailure` | scripts/control-ui-i18n.ts:1075-1081 | a failed stage was stopped by one batch: those before it succeeded, its error is the one reported, and no batch after it was tried |
| `LocaleSync.StageBound` | scripts/control-ui-i18n.ts:1052-1105 | a whole stage costs at most 4 attempts per item less 2 per batch |
| `LocaleSync.FillIn` | scripts/control-ui-i18n.ts:1114-1128 | what is left gets its existing value or the English text, and exactly the latter or a former fallback is recorded as a fallback |
| `LocaleSync.LoopsDecide` | scripts/control-ui-i18n.ts:1021-1128 | the three loops together give every source key its value and decide its fallback state |
| `LocaleSync.SyncCore` | scripts/control-ui-i18n.ts:1017-1146 | a completed run decides every key, extends the translation memory by exactly the received translations, and sorts the fallback keys; a run fails exactly when its translation stage does, within 4 attempts per queued item less 2 per batch of a split with the fewest batches |
| `LocaleDecisions.KeyDecided` | scripts/control-ui-i18n.ts:1021-1128 | a remembered translation comes first, then the text in the locale file, but a recorded fallback is translated anew when there is a provider; what is left gets its visible translation, or without a provider the English text as a fallback |
| `LocaleDecisions.QueueExactly` | scripts/control-ui-i18n.ts:1021-1050 | exactly the keys that may take over neither a remembered nor an existing text are queued, in source order, each with its own text and hashes |
| `LocaleDecisions.ForceIsIgnored` | scripts/control-ui-i18n.ts:1114-1122 | a run that completes with `--force` could have completed in the same way without it |
| `LocaleRuns.SyncLocale` | scripts/control-ui-i18n.ts:996-1169 | one whole run on the files it reads; it fails exactly when its translation stage does or an escaped write throws while the locale is built; without pending work it sends no prompt, and it cannot fail when no walk leaves the tree either |
| `LocaleDecisions.RunDecides` | scripts/control-ui-i18n.ts:996-1169 | the same for a whole run, said of the files that it reads and of the fallback keys in the metadata that it writes |
| `LocaleDecisions.RunRemembers` | scripts/control-ui-i18n.ts:1088-1100 | with a provider the memory gets the value of every queued key under its memory key, and changes nowhere else |
| `LocaleDecisions.RunWrites` | scripts/control-ui-i18n.ts:1135-1138 | the new locale file has the decided text under every key whose walk stays in the tree, and none under the others |
| `LocaleDecisions.MetaExactly` | scripts/control-ui-i18n.ts:1140-1169 | the counts add up, provider and model are kept without a provider, and the date moves exactly when something else in the metadata has changed |
| `LocaleDecisions.RecordedCounts` | scripts/control-ui-i18n.ts:1144-1169 | the recorded counts are the numbers of all keys, of those that fell back and of those that did not |
| `LocaleRuns.ProviderLeavesNoFallback` | scripts/control-ui-i18n.ts:1052-1128 | a completed run with a provider leaves no fallback key |
| `LocaleRuns.CountsAddUp` | scripts/control-ui-i18n.ts:1144-1169 | every key has a value, and translated plus fallback keys are all the keys |
| `LocaleRuns.ValuesReadBack` | scripts/control-ui-i18n.ts:1135-1138 | unless building the locale throws, the next run reads back the values of the keys whose walks stay in the tree: all that this run decided exactly when no walk of the source leaves it |
| `LocaleRuns.SecondRunExactly` | scripts/control-ui-i18n.ts:996-1169 | a second run with the same source and settings leaves the locale, the memory and the set of fallback keys as they are exactly when every key whose walk leaves the tree is in the memory or, without a provider, already a recorded fallback |
| `LocaleRuns.SecondRunChangesNothing` | scripts/control-ui-i18n.ts:996-1169 | when no walk leaves the tree, the second run queues nothing and changes no content, whatever the time; the metadata is the same too exactly when it lists the fallback keys in the same order, which holds when no two of them compare equal |
| `LocaleRuns.SecondRunLosesText` | scripts/control-ui-i18n.ts:996-1169 | without a provider, an existing text below `constructor` is not written back, and the second run records its key as a fallback |
| `PiRpc.StepInv` | scripts/control-ui-i18n.ts:758-891 | every callback keeps the client's invariant |
| `PiRpc.OnePendingWithTimers` | scripts/control-ui-i18n.ts:814-875 | in every run at most one prompt is started and unsettled, it is the pending one, and exactly its timeout and heartbeat are set |
| `PiRpc.SettlesOnce` | scripts/control-ui-i18n.ts:758-812 | a settled prompt keeps its result for ever |
| `PiRpc.NothingAfterRejection` | scripts/control-ui-i18n.ts:814-817 | after a rejected prompt nothing further is ever written on that client |
| `PiRpc.TimeoutSettles` | scripts/control-ui-i18n.ts:834-846 | a pending prompt has a live timer that rejects it and closes the client |
| `PiRpc.ReplyResolves` | scripts/control-ui-i18n.ts:801-810 | a finished reply resolves the waiting prompt and clears its timers |
| `PiRpc.PromptFate` | scripts/control-ui-i18n.ts:758-873 | what each event makes of a started prompt: a reply resolves it, a refused response, a bad reply, its timeout, its write error and the end of the process reject it, everything else leaves it waiting; no other link changes and nothing is written |
| `PiRpc.ResponseRead` | scripts/control-ui-i18n.ts:784-800 | an acknowledged prompt goes on waiting, a refused one is rejected with its error, an answer to another request changes nothing |
| `PiRpc.PromptSlot` | scripts/control-ui-i18n.ts:834-873 | slot, timeout and heartbeat stay just as long as the prompt is unsettled; the client is closed by the timeout, the end of the process or the caller |
| `PiRpc.TurnTaken` | scripts/control-ui-i18n.ts:815-862 | the turn of the next link: it takes over a rejection, is refused by a closed client, or writes its prompt under the next number with both timers |
| `PiRpc.IdleEvent` | scripts/control-ui-i18n.ts:740-747 | with no prompt started, only new prompts and turns change the links |
| `PiRpc.PiRpcClient.HandleStdoutLine` | scripts/control-ui-i18n.ts:766-812 | the handler updates the fields exactly as the state machine says |
| `PiRpc.PiRpcClient.TakeTurn` | scripts/control-ui-i18n.ts:815-874 | a turn of the promise chain: rejected when closed, else numbered, armed and written |
| `PiRpc.PiRpcClient.OnTimer` | scripts/control-ui-i18n.ts:834-846 | the timeout acts only on its own prompt |
| `PiRpc.PiRpcClient.OnWriteError` | scripts/control-ui-i18n.ts:863-873 | a failed write rejects its prompt and clears its timers |
| `PiRpc.PiRpcClient.OnProcessClose` | scripts/control-ui-i18n.ts:742-747 | closing rejects the pending prompt |
| `PiRpc.Interleave` | scripts/control-ui-i18n.ts:758-891 | after any sequence of calls and callbacks the client's fields are those of the run, with at most one started prompt and exactly its timers; whatever comes later, what has settled stays as it is and nothing is written after a rejection |
| `ToggleStore.StepInv` | extensions/active-memory/index.ts:177-192 | every step of every interleaving keeps the invariant of the lock and the file |
| `ToggleStore.MutualExclusion` | extensions/active-memory/index.ts:177-192 | at most one task is active, and a task starts only after all earlier ones have released |
| `ToggleStore.NeverStuck` | extensions/active-memory/index.ts:185-190 | the first unfinished caller can always move on, also after a task that threw |
| `ToggleStore.NoLostUpdate` | extensions/active-memory/index.ts:509-525 | the file is the effect of the successful calls in call order |
| `ToggleStore.TogglesInCallOrder` | extensions/active-memory/index.ts:509-525 | after every run the disabled sessions are the successful toggles applied in call order, less what failed reads made later writes forget; they are just those toggles exactly when nothing stays lost |
| `ToggleStore.ReadableStoreKeepsAll` | extensions/active-memory/index.ts:509-525 | when no read fails, the disabled sessions are the successful toggles in call order |
| `ToggleStore.FailedReadForgets` | extensions/active-memory/index.ts:471-476 | a run whose failed read is taken for an empty store: disabling one session enables another |
| `ToggleStore.CallsRecorded` | extensions/active-memory/index.ts:509-525 | the callers of a run are its calls, in order, with their arguments |
| `ToggleStore.OnlyWritesChange` | extensions/active-memory/index.ts:509-525 | the file changes only when a task that has read writes without failing, and the call succeeds exactly then |
| `ToggleStore.RecordsAreLatest` | extensions/active-memory/index.ts:509-525 | each record of the file is that of the last successful call for its session, with the time of that call, or an old one that no successful call was for |
| `ToggleStore.OnlyDisabledKept` | extensions/active-memory/index.ts:446-477 | once a call has succeeded the file holds disabled sessions only |
| `ToggleStore.DisabledExactly` | extensions/active-memory/index.ts:446-477 | a session is disabled by a record under a key with a visible character that is not `__proto__` |
| `ToggleStore.StoresIndependent` | extensions/active-memory/index.ts:194-201 | with one lock per path each store behaves as if it were alone |
| `ToggleStore.ToggleRuntime.SetSessionDisabled` | extensions/active-memory/index.ts:179-185 | a call remembers the last promise of the chain and puts its own in its place |
| `ToggleStore.ToggleRuntime.WriteStore` | extensions/active-memory/index.ts:517-523 | the write replaces the file by the toggled sessions that were read |
| `ToggleStore.ToggleRuntime.ReleaseLock` | extensions/active-memory/index.ts:186-190 | the lock is released after success and after a throw |
| `ToggleStore.Interleave` | extensions/active-memory/index.ts:177-192 | after any interleaving the lock, the callers and the file are those of the run: mutual exclusion and the exact disabled set hold of them |
| `RecallCache.RecallCache.GetCachedResult` | extensions/active-memory/index.ts:934-944 | a hit only before expiry; an expired entry is deleted |
| `RecallCache.RecallCache.SweepExpiredCacheEntries` | extensions/active-memory/index.ts:964-970 | deleting from the map while walking it removes exactly what has expired |
| `RecallCache.RecallCache.SetCachedResult` | extensions/active-memory/index.ts:946-962 | sweep, move the key to the end, evict the oldest |
| `RecallCache.LookupAgrees` | extensions/active-memory/index.ts:934-970 | over every sequence of sets and gets with a clock that does not go back: a hit is the key's last value, not expired; a miss means no such value or 1000 other keys set since |
| `RecallCache.QueryAgrees` | extensions/active-memory/index.ts:924-970 | the same for every history of lookups and stored results under the keys that the plugin builds |
| `RecallCache.Recall` | extensions/active-memory/index.ts:924-970 | after any history of lookups and stored results, with a clock that does not go back, the cache's own map is within its limit; with a hash without collisions a hit is the last result kept for the same text under the same agent and session, within its time, and a miss means that there is none, that its time is over, or that 1000 other queries were kept since |
| `RecallCache.SameKeyExactly` | extensions/active-memory/index.ts:924-932 | two queries share a key exactly when they ask the same text and their agent and session read the same when joined by a colon; the session is its key, else its id, else `none` |
| `RecallCache.CallersApart` | extensions/active-memory/index.ts:924-932 | queries of one agent, or of agents whose ids have no colon, share a key exactly when agent, session and text are the same |
| `RecallCache.CallersShareKey` | extensions/active-memory/index.ts:931 | with a colon in an agent id two different callers share a key |
| `RecallCache.SizeBounded` | extensions/active-memory/index.ts:955-961 | the cache never holds more than 1000 entries |
| `RecallCache.KeysBehind` | extensions/active-memory/index.ts:955-961 | the entries behind a position hold that many different keys, all set later |
| `PromptContext.EscapePerCharacter` | extensions/active-memory/index.ts:1296-1303 | the five replacements amount to one pass that replaces each character by its entity |
| `PromptContext.UnescapeEscaped` | extensions/active-memory/index.ts:1296-1303 | reading the entities back gives the text |
| `PromptContext.EscapedHasNoMarkup` | extensions/active-memory/index.ts:1296-1303 | escaped text has no angle bracket and no quote |
| `PromptContext.CloseIsTheFirst` | extensions/active-memory/index.ts:1341-1350 | the first closing tag after the opening one is the prefix's own, whatever the summary |
| `PromptContext.StripUndoesPrefix` | extensions/active-memory/index.ts:1341-1358 | for every non-empty summary and every text, both strippers give the same with the prefix in front as without it |
| `PromptContext.StripNoiseUndoesInnerPrefix` | extensions/active-memory/index.ts:1449-1484 | the noise stripper also takes a prefix out of the middle of a message when no opening tag precedes it |
| `PromptContext.StripRecalledContextNoise` | extensions/active-memory/index.ts:1449-1484 | the index-jumping loop computes the specified stripping |
| `PromptContext.StripInjectedActiveMemoryPrefixOnly` | extensions/active-memory/index.ts:1486-1515 | the same for the prefix-only stripper |
| `PromptContext.StripNoiseKeepsPlainText` | extensions/active-memory/index.ts:1449-1484 | a text without marker lines only has its white space normalised |
| `PromptContext.StripPrefixKeepsPlainText` | extensions/active-memory/index.ts:1486-1515 | a text without the header line only has its white space normalised |
| `PromptContext.StripPrefixTwice` | extensions/active-memory/index.ts:1486-1515 | stripping the prefix twice is stripping it once |
| `PromptContext.StripNoiseTwice` | extensions/active-memory/index.ts:1449-1484 | stripping noise twice differs from once exactly when the joined lines have become one non-empty line of noise |
| `PromptContext.StripNoiseNotIdempotent` | extensions/active-memory/index.ts:1483 | the lines `memory` and `search:` are kept, and their joined line is stripped |
| `JsWords.TrimCollapse` | extensions/active-memory/index.ts:1483 | collapsing white space and trimming leaves the words, one space apart |
| `PromptLines.NoiseLine` | extensions/active-memory/index.ts:1449-1484 | outside blocks a line goes exactly when it is blank, the header, a closing tag, or starts with a recalled heading in any case, with its icon and white space before it if it has one; an opening tag without a closing one starts no block |
| `PromptLines.NoiseBlock` | extensions/active-memory/index.ts:1461-1473 | a block goes as a whole, up to its first closing tag |
| `PromptLines.PrefixLine` | extensions/active-memory/index.ts:1486-1515 | in the prefix stripper only blank lines go, and a block only when the header stands before it |
| `PromptLines.PrefixBlock` | extensions/active-memory/index.ts:1495-1510 | there header and block go as a whole, up to the first closing tag |
| `PromptLines.StrippedWords` | extensions/active-memory/index.ts:1483 | both strippers give the words of the lines that stay, one space apart |
| `PromptLines.LinesExactly` | extensions/active-memory/index.ts:1450-1454 | the lines are the parts between line feeds, trimmed |
| `PromptLines.RecalledLineStripped` | extensions/active-memory/index.ts:1477-1479 | a recalled line in front of a message is taken out |
| `PromptLines.PluginLinesStripped` | extensions/active-memory/index.ts:1021-1100 | the status and debug lines that the plugin writes are taken out again, whatever details they give |
| `PromptLines.HeadingsRecognised` | extensions/active-memory/index.ts:48-55 | each of the three headings is recognised with its icon and without |
| `PromptLines.PrefixExactly` | extensions/active-memory/index.ts:1341-1358 | the prefix of a summary line by line, and none without a summary |
| `PromptLines.EscapedCharacters` | extensions/active-memory/index.ts:1296-1303 | escaping works character by character: five of them become their entity, any other stays |
| `JsTextLaws.WhitespaceCharacters` | extensions/active-memory/index.ts:1483 | the characters that count as white space |
| `JsTextLaws.TrimExactly` | extensions/active-memory/index.ts:1454 | trimming takes off all white space at both ends and nothing else |
| `BedrockDiscovery.StepInv` | extensions/amazon-bedrock/discovery.ts:331-428 | every call, fetch result and continuation keeps the invariant: the cache says what became of the last fetch of each key |
| `BedrockDiscovery.OneFetchInFlight` | extensions/amazon-bedrock/discovery.ts:331-406 | with a positive interval at most one fetch per key is under way in every interleaving |
| `BedrockDiscovery.JoinsTheFlight` | extensions/amazon-bedrock/discovery.ts:336-338 | a call that comes while a fetch of its key is under way joins it |
| `BedrockDiscovery.ServedIsFresh` | extensions/amazon-bedrock/discovery.ts:333-335 | a list served from the cache is the result of a fetch of that key that started less than one interval before |
| `BedrockDiscovery.SharedOutcome` | extensions/amazon-bedrock/discovery.ts:408-428 | while the fetch runs all wait; after success those who joined get its list and so does the initiator once it continues; after a failure those who joined are rejected and the initiator gets an empty list |
| `BedrockDiscovery.AnswersAreFinal` | extensions/amazon-bedrock/discovery.ts:331-428 | an answer once given never changes |
| `BedrockDiscovery.FirstResultStays` | extensions/amazon-bedrock/discovery.ts:408-428 | a fetch keeps the first result that it comes to |
| `BedrockDiscovery.CallsRecorded` | extensions/amazon-bedrock/discovery.ts:331-338 | the callers of a run are its calls, in order, with their keys and times |
| `BedrockDiscovery.FailureRetries` | extensions/amazon-bedrock/discovery.ts:417-420 | a failed fetch leaves no entry, and the next call fetches again |
| `BedrockDiscovery.FetchesAreSpaced` | extensions/amazon-bedrock/discovery.ts:331-415 | with a clock that does not go back, the next fetch of a key starts at least one interval after a successful one |
| `BedrockDiscovery.WarnsOnce` | extensions/amazon-bedrock/discovery.ts:421-426 | however many fetches fail, one warning is logged |
| `BedrockDiscovery.Discovery.DiscoverBedrockModels` | extensions/amazon-bedrock/discovery.ts:331-406 | the call up to its first await updates the cache as the state machine says |
| `BedrockDiscovery.Discovery.ResumeInitiator` | extensions/amazon-bedrock/discovery.ts:408-428 | the code after the await stores the value or deletes the entry |
| `BedrockDiscovery.Interleave` | extensions/amazon-bedrock/discovery.ts:331-428 | after any interleaving the extension's fields are those of the run: one fetch under way per cached key, one warning, every list from the cache served within its interval, and callers that share a fetch answered alike |
| `BedrockModels.BuildModelList` | extensions/amazon-bedrock/discovery.ts:354-398 | the loops compute the specified list, sorted |
| `BedrockModels.ResolveInferenceProfiles` | extensions/amazon-bedrock/discovery.ts:244-290 | the accumulating loop yields one definition per eligible profile, in order |
| `BedrockModels.OneModelPerId` | extensions/amazon-bedrock/discovery.ts:359-386 | the list has one model per normalised id exactly when the included foundation models do; these are not checked against each other |
| `BedrockModels.ListIsComplete` | extensions/amazon-bedrock/discovery.ts:359-386 | every included foundation model and the id of every eligible profile are listed; a profile's own definition only where no foundation model has its id |
| `BedrockModels.ListIsOrdered` | extensions/amazon-bedrock/discovery.ts:391-398 | ids that start with `global.` first, then by name, and what compares equal keeps its order |
| `BedrockCatalog.FoundationExactly` | extensions/amazon-bedrock/discovery.ts:74-168 | the foundation models of the list are the active streaming models with an id, text output and a wanted provider, in order, each with its trimmed id, name or id, reasoning by its words, modalities in the order of mention, and the default limits |
| `BedrockCatalog.SummariesListed` | extensions/amazon-bedrock/discovery.ts:354-370 | every such model is in the list with these values |
| `BedrockCatalog.ProfilesListed` | extensions/amazon-bedrock/discovery.ts:244-270 | the id of every active profile with an id and a wanted provider in one of its ARNs is in the list |
| `BedrockCatalog.EntryExplained` | extensions/amazon-bedrock/discovery.ts:354-386 | nothing else is listed, and a profile's own definition only where no foundation model has its id |
| `BedrockCatalog.BaseExactly` | extensions/amazon-bedrock/discovery.ts:185-202 | a profile's base model is what its first ARN names behind `foundation-model/`, else what a system profile's id says behind its region |
| `BedrockModels.ProfileInherits` | extensions/amazon-bedrock/discovery.ts:274-287 | a profile has the capabilities of the last included foundation model with its base id, or the defaults |
| `ImportSurface.ResolveRelativeImportPath` | scripts/load-channel-config-surface.ts:106-115 | the first candidate that is a file |
| `ImportResolution.ImportWithExtension` | scripts/load-channel-config-surface.ts:89-115 | a specifier with an extension finds the file itself, else the first file with its stem and a source extension |
| `ImportResolution.ImportWithoutExtension` | scripts/load-channel-config-surface.ts:89-115 | a specifier without one finds the first of the file itself and, for each source extension, the file with it and the index file |
| `ImportResolution.JsImportFindsTs` | scripts/load-channel-config-surface.ts:89-115 | `./stem.js` finds `stem.ts` beside the importing file when there is no `stem.js` |
| `Paths.ResolveDown` | scripts/load-channel-config-surface.ts:107-109 | a specifier that starts with `./` leads down from the directory of the file |
| `Paths.ResolveUp` | scripts/load-channel-config-surface.ts:107-109 | each `..` at its start leads up one directory first |
| `ImportSurface.CollectRelativeImportGraph` | scripts/load-channel-config-surface.ts:117-144 | the worklist terminates and returns exactly the files reachable from the entry, each once |
| `ImportResolution.NeededExactly` | scripts/load-channel-config-surface.ts:117-144 | these files are the least set with the entry and everything that its members import by specifiers that start with a dot |
| `CommonAncestor.ResolveCommonAncestor` | scripts/load-channel-config-surface.ts:146-163 | the nested loops compute the repeated meet of the paths |
| `CommonAncestor.DeepestIsDeepest` | scripts/load-channel-config-surface.ts:146-163 | the reference definition is the deepest directory common to all paths |
| `CommonAncestor.AncestorExactly` | scripts/load-channel-config-surface.ts:154-161 | the loops find that directory exactly when it is the first path or some path leaves it by another child than the first path; otherwise they stop one level too deep, because a relative path of just `..` is not climbed |
| `CommonAncestor.AncestorOfFiles` | scripts/load-channel-config-surface.ts:172 | when no other path is a strict ancestor of the first, as at the call site, the result is the deepest common directory |
| `Paths.RelativeMoves` | scripts/load-channel-config-surface.ts:181-182 | two paths moved together keep their relative path |
| `Paths.RelativeLeadsBack` | scripts/load-channel-config-surface.ts:181-182 | walking the relative path from a directory ends at the target |
| `ImportSurface.CopyFiles` | scripts/load-channel-config-surface.ts:180-185 | the targets are distinct, each the moved file, and the relative path from one original to another leads from the one's copy to the other's |
| `ImportSurface.CopyModuleImportGraph` | scripts/load-channel-config-surface.ts:165-192 | the copied files are those reachable, under the deepest common directory, each at its moved path |
| `ImportSurface.CopiedImport` | scripts/load-channel-config-surface.ts:106-115 | with the copy on the disk, an import of a copied file resolves to the copy of its target exactly when its specifier never climbs out of the copied root (and an import of the root itself meets a directory name without an extension); otherwise it finds what it would find without the copy, outside it, or nothing |
| `ImportSurface.CopyResolves` | scripts/load-channel-config-surface.ts:106-192 | for the files that the copying function copies: every relative import that resolves has its target among the copied files, and in the copy it resolves to the copy of that target exactly when its specifier is portable |
| `ImportSurface.OriginalStillFound` | scripts/load-channel-config-surface.ts:106-115 | from the copy, `../../extensions/foo/x.ts` finds the original and not its copy |
| `ConfigMerge.MergeReads` | extensions/amazon-bedrock/config-compat.ts:27-41 | key by key: explicit values stay, missing ones are filled, records on both sides are merged, blocked keys are left alone |
| `ConfigMerge.ExplicitWins` | extensions/amazon-bedrock/config-compat.ts:32-39 | an explicit value that is not a record survives at any depth |
| `ConfigMerge.MergeTwice` | extensions/amazon-bedrock/config-compat.ts:27-41 | merging the same source twice is merging it once |
| `ConfigMigration.MissingFilled` | extensions/amazon-bedrock/config-compat.ts:32-39 | a missing field is filled with the legacy value, at any depth where both sides have records |
| `ConfigMigration.LeftAlone` | extensions/amazon-bedrock/config-compat.ts:28-31 | blocked keys, and keys that the legacy record lacks, are left alone |
| `ConfigMerge.MergeMissingInPlace` | extensions/amazon-bedrock/config-compat.ts:27-41 | the in-place recursion has the effect of the specification, changes only objects of the target, and fills in the source's own objects |
| `ConfigRecords.StructuredClone` | extensions/amazon-bedrock/config-compat.ts:72 | the copy has the same value in new objects |
| `ConfigRecords.RemoveLegacyRecord` | extensions/amazon-bedrock/config-compat.ts:73-75 | deletes the legacy record and an emptied models record |
| `ConfigRecords.EnsureConfig` | extensions/amazon-bedrock/config-compat.ts:83-86 | makes the chain of records down to the plugin's configuration |
| `ConfigRecords.ComparisonSeesFills` | extensions/amazon-bedrock/config-compat.ts:98 | the comparison with the shallowly copied record is unequal exactly when a top-level field was filled |
| `ConfigRecords.MigrateAmazonBedrockLegacyConfig` | extensions/amazon-bedrock/config-compat.ts:62-107 | the migration computes the specified value and messages, and no object that existed before has changed |
| `ConfigMigration.MigrateTwice` | extensions/amazon-bedrock/config-compat.ts:62-107 | a second migration changes and reports nothing |
| `ConfigMigration.MigrateElsewhere` | extensions/amazon-bedrock/config-compat.ts:72-97 | every property outside the two configuration paths is as before, whatever stood in the way |
| `ConfigMigration.MigrateMoves` | extensions/amazon-bedrock/config-compat.ts:88-97 | the legacy record is gone and its fields are at the target path, merged into what was explicit there |
| `ConfigMigration.MigrateReports` | extensions/amazon-bedrock/config-compat.ts:62-107 | a migration reports nothing without a legacy record, else one change: removed as empty, moved to where no record stood, merged when a top-level field was missing, already set when none was |
| `ConfigMigration.ModelsPruned` | extensions/amazon-bedrock/config-compat.ts:72-75 | the record around the legacy one goes with it when it held nothing else, and otherwise stays without it |
| `ConfigMigration.ChangedIffFills` | extensions/amazon-bedrock/config-compat.ts:27-41 | merging changes a record exactly when some unblocked field is missing, at this level or below records that both sides have |
| `ConfigMigration.MessageExactly` | extensions/amazon-bedrock/config-compat.ts:95-106 | the message tells whether the record changed exactly when a top-level field was missing or no field was, at any depth |
| `ConfigMigration.MessageRightWhenFlat` | extensions/amazon-bedrock/config-compat.ts:95-106 | for records without nested records in common the message is right |
| `ConfigMigration.MessageMissesNested` | extensions/amazon-bedrock/config-compat.ts:95-106 | a nested field that is filled without being reported |
| `Utf16Slice.SliceUtf16Safe` | src/utils.ts:88-115 | the longest contiguous piece of the clamped range that cuts no surrogate pair, at most one unit short at each end |
| `Utf16Slice.SafePieceUnique` | src/utils.ts:88-115 | there is only one such piece |
| `Utf16Slice.SliceKeepsWellFormed` | src/utils.ts:88-115 | well-formed input gives a well-formed piece |
| `Utf16Slice.TruncateUtf16Safe` | src/utils.ts:117-123 | a prefix of at most the limit, one unit shorter exactly when the limit cuts a pair |
| `Utf16Slice.TruncateAndRest` | src/utils.ts:88-123 | truncating and slicing off the rest loses nothing |
| `Utf16Text.WellFormedExactly` | src/utils.ts:80-86 | a string is well formed exactly when it encodes a list of characters |
| `Utf16Text.TruncatedIsWhole` | src/utils.ts:117-123 | truncating encoded characters keeps the longest list of whole characters that fits within the limit |
| `Utf16Text.SliceIsWhole` | src/utils.ts:88-115 | a slice of encoded characters is the encoding of some of them in a row |
| `Utf16Text.RangeExactly` | src/utils.ts:88-98 | a negative index counts from the end, an index outside means the nearer end, and the range lies between the two positions in either order |
| `ClaudeArgs.NormalizeClaudePermissionArgs` | extensions/anthropic/cli-shared.ts:98-132 | the look-ahead loop computes the specified list |
| `ClaudeArgs.NormalizeClaudeSettingSourcesArgs` | extensions/anthropic/cli-shared.ts:134-166 | the look-ahead loop computes the specified list |
| `ClaudeArgs.NormalizeClaudeBackendConfig` | extensions/anthropic/cli-shared.ts:168-174 | both argument lists are normalised, the rest is untouched |
| `ClaudeArgs.NormalizedIsOnePass` | extensions/anthropic/cli-shared.ts:171-172 | the composition of the two loops is a single pass over the arguments plus the missing defaults |
| `ClaudeArgs.NormalizeTwice` | extensions/anthropic/cli-shared.ts:168-174 | normalising twice changes nothing, for any list |
| `ClaudeArgs.NormalizedSafe` | extensions/anthropic/cli-shared.ts:98-166 | no legacy flag, a permission mode, each permission flag with a value, every setting-sources occurrence set to `user`; and some permission mode with a value exactly when the input gives none or one that is not an empty assignment |
| `ClaudeArgs.ModeValueExactly` | extensions/anthropic/cli-shared.ts:121-130 | the output has a permission mode with a value exactly when the input gives no mode, or some mode that it gives has one |
| `ClaudeArgs.EmptyModeStays` | extensions/anthropic/cli-shared.ts:121-130 | on `--permission-mode=` alone no default is added and no mode has a value |
| `ClaudeArgs.NormalizedKeeps` | extensions/anthropic/cli-shared.ts:98-166 | unrelated arguments and the given permission modes keep their order; the default mode is added only when none was given |
| `ClaudeArgs.ClaudeArgsNormalized` | extensions/anthropic/cli-shared.ts:88-92 | all of this for the flags of the Claude CLI |
| `ClaudeSettings.FlagWithValue` | extensions/anthropic/cli-shared.ts:98-166 | a permission flag with a value is kept with it; setting sources with a value become the safe ones |
| `ClaudeSettings.FlagWithoutValue` | extensions/anthropic/cli-shared.ts:98-166 | either flag goes when no value follows: none, a blank one, or one that starts with a dash |
| `ClaudeSettings.OtherArgument` | extensions/anthropic/cli-shared.ts:98-166 | the legacy flag goes, an assignment of setting sources becomes the safe one, any other argument stays |
| `ClaudeSettings.DefaultsExactly` | extensions/anthropic/cli-shared.ts:121-166 | both normalisers together are this pass and the defaults, each added exactly when the pass leaves none of its kind |
| `ClaudeSettings.NoArguments` | extensions/anthropic/cli-shared.ts:88-92 | no arguments, or only the legacy flag, give both defaults of the Claude CLI |

## Left out

- Import cycles: walking the TypeScript syntax, module resolution and printing; the graph is the input.
- Translation sync: spawning processes, prompts and glossary, formatting, JSON text, file access, progress logging and delays between retries; a locale file is its map, and one write replaces it.
- Translation memory: its other fields (provider, model, dates); an entry is its translated text.
- LocaleRuns.SecondRunChangesNothing: in which order different fallback keys that compare equal are listed is left open.
- TranslationTree.RebuildFlattened: for keys that are not empty and have no dot; other keys do not survive dotting. Integer-like keys, which JavaScript moves to the front, are not modelled.
- LocaleObjects.SetNestedValue: a walk that leaves the tree is followed no further. Which of the keys that escape make the write throw is a parameter, any function of the key; what a write into `Object.prototype` changes for later inherited reads is not modelled.
- LocaleRuns.SyncLocale: an error thrown while the locale is built appears by its name alone, without its message.
- PiRpc: boot delay, the kill after a failed shutdown and the text of progress messages; a reply's text is given as already extracted or failed.
- ToggleStore: the temporary file and rename are one atomic write; a single process.
- Active memory: the embedded agent run, `normalizeActiveSummary`, `truncateSummary`, query building, status lines and configuration.
- PromptContext.StripUndoesPrefix: texts with lone surrogates cannot be written as Unicode scalar values.
- Bedrock: the AWS client and pagination, the constant cost record, configuration defaults, the implicit provider, and clearing the cache for tests.
- ImportSurface: finding specifiers by regular expression and loading the module; symbolic links; the file set does not change during a call.
- ImportSurface.CopiedImport: for a copied root that is not the file system root, specifiers that do not contain the name of the temporary directory, and no file that has this name with an extension beside it.
- ImportSurface.CopyResolves: under the same conditions as `ImportSurface.CopiedImport`.
- ImportResolution.ImportWithoutExtension: for specifiers that do not lead to the file system root itself.
- ConfigMerge: arrays, functions and other values that are not records are opaque; the input is a tree without cycles or shared records.
- Utf16Slice.SliceUtf16Safe: start and end are integers; fractions and `NaN` are not modelled.
- ClaudeArgs: alias tables and environment lists.
