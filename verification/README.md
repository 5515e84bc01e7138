# Frostglass: a verified model of its masking round trip

Frostglass is a gateway that hides personal data from model providers. Detector spans in a request are merged, each
finding gets a policy decision, the located strings of the JSON payload are rewritten, surrogates are kept in a
two-way vault, and surrogates in the response are put back, in one piece or across stream chunks. This project models
that round trip in Dafny, together with the rate and budget limiter, the audit pages, the policy store and the
surrogate arithmetic, and proves what holds for all inputs and all runs. `dafny verify dfyconfig.toml` checks it.

Where the source changes state, so does the model: `StreamRestorer`, `EncryptedVault`, `ConsistencyManager`,
`MaskingEngine`, `DetectionEngine`, `Collector` (the closures of `extract_text` around their shared list),
`ProviderRegistry`, `Limiter`, `AuditStore` and `PolicyStore` are classes whose methods are proved equal to functions
of the old state, and the theorems are about those functions and about runs of them.

## Main results

* **Streaming.** Streamed restoration equals batch restoration for every text and every chunking, for surrogates that
  do not cross each other and are at most one character longer than the latency cap, and originals that are inert for
  the surrogates rewritten later (`StreamTheorems.StreamEqualsBatch`). A map with one entry needs no hypothesis on the
  original, and for it the condition is exact (`SingleEntry.StreamsExactlyWhenSafe`): every other entry has a failing
  stream, which the proof constructs. At most `2L - 1` characters are held back, and that bound is reached.
* **Batch.** Sequential longest-first replacement is one simultaneous leftmost-longest pass for surrogates that do not
  cross late and inert originals (`BatchTheorems`). The order of the map can matter only between surrogates of equal
  length: the result is the same for every order if those do not cross each other and no original meets one as long as
  its own surrogate (`BatchTheorems.OnlyTiesMatter`); each half of that condition has a counterexample.
* **Round trips.** Masking a text, or a whole request, and restoring it from the scope's reverse map gives it back
  (`MaskRuns.TextRoundTrip`, `PayloadRoundTrip.RequestRoundTrip`), also when the masked text is streamed in any chunks
  (`MaskRuns.StreamedRoundTrip`), and whatever requests, listings and purges other callers run in the vault while the
  provider answers. The condition is about the text at hand: at each stage of the restoration the next
  surrogate occurs only where a token still shows it. That is exactly when one replacement restores its tokens and
  changes nothing else, whatever the original is (`Pieces.CleanExactly`), and it follows when originals are inert.
* **Extraction.** `extract_text` finds exactly the strings whose path is in a grammar of prompt paths that is written
  on path segments alone (`Grammar.ExtractsExactly`).
* **Masking.** Every finding leaves as the decision on it says, in terms of the detectors' candidates, the rules'
  fields and the vault at that point (`Detection.FindingIsCandidate`, `Policy.ActionExactly`,
  `RequestLaws.LeavesAsDecided`), and from a vault that started empty nothing but generated surrogates replaces a
  pseudonymized value (`MaskLaws.OnlyGeneratedGoesOut`).
* **Vault.** In every reachable state the two indices agree; the reverse map is the inverse of the live mappings if
  and only if their surrogates are distinct (`VaultTheorems`). Surrogate pools are small, so this is a condition on
  the vault and not a property of the generator.
* **Payloads.** Every successful walk over a request is the path-by-path replacement at the locations of
  `extract_text`: each string with findings becomes its engine-masked text, in the state the vault has when the walk
  comes to it, and every other leaf is unchanged.
* **Pipeline.** `mask` never meets findings it rejects, and on an object raises exactly when the reported action is
  "blocked".
* **Merging.** A candidate is rejected only for an overlapping one that beats it in confidence, specificity, length,
  detector name or start, in that order (`Merge.RejectedIsBeaten`). The greedy choice has an order-free description
  that determines it; input order matters exactly for the
  entity types of otherwise equal spans that are kept (`Merge.OrderIrrelevantExactly`).
* **Limits, pages, policies, surrogates.** The rate limit over every 60-second interval of a run, with a window that
  holds exactly the recent admissions as of the last check within budget; the budget under interleaving with its tight
  bound; keyset pages under concurrent inserts; immutable policy versions and replayable decisions; the Luhn check
  digit, and exactly when a number surrogate keeps the magnitude and when it is the original.

## Where the code differs from its documentation

* `BUILD-BRIEF.md` (H.3.5, step 5) asks for surrogates over the latency cap to be shortened at generation. The code
  never does. A surrogate two or more characters over the cap is not restored when its last character arrives in a
  chunk of its own (`SingleEntry.TooLongFails`).
* `StreamRestorer` promises never to emit part of a surrogate. With a surrogate that overlaps itself, such as "aa", its
  single pass may lower the cut into an earlier occurrence (`SingleEntry.OverlapFailsFullTail`).
* `SurrogateGenerator.generate` promises never to return the original. Numbers break this often: zero, every value
  whose change is less than half a unit of its last decimal, and values at a bound of their bucket that would leave it.
  `Surrogates.NumberReturnedExactly` is the exact condition on value, decimals and index; 5 without decimals comes
  back for every index, and any value strictly inside its bucket for the index that means no change. The text comes
  back if and only if the value does and is written as the format writes it (`Amounts.TextReturnedExactly`): "5,000"
  can come back, but "5000" never does, since the same value is written "5,000".
* The same promise fails for card numbers exactly when the original is already made like a surrogate
  (`Surrogates.CardReturnedExactly`).
* Tags are counted for each entity type but name it without "_ADDRESS" and "CREDIT_", so values of two types can get one
  tag (`MaskLaws.TagsOfTypesCoincide`); within a type they differ.
* A session's scope joins tenant and session with a colon, so it names them uniquely only for tenants without a colon
  (`MaskLaws.SessionsSeparate`, `MaskLaws.ColonJoinsScopes`).
* `Limits.check` drops old entries only after the budget check, so a refusal for the budget leaves the window as it
  was. `Limits.WindowExactAfterCheck` says exactly when the window is up to date after a check.
* `BUILD-BRIEF.md` (H.3.3) asks number surrogates to preserve the magnitude bucket. A non-zero number below 1 in
  magnitude is moved up to the bucket from 1 to 10; all others keep theirs (`Surrogates.NumberKeepsMagnitude`).
* The loader's message for `entity_types` asks for a non-empty list; the empty list is accepted
  (`PolicyStore.TypesAcceptedExactly`).

## Conventions

Strings are `seq<char>` and indices are Python's. A reverse map is a sequence of entries in dictionary order. JSON
objects are sequences of fields; `WellFormed` says that keys are distinct, as a Python dictionary guarantees.
Successive readings of the clock are `clock(0)`, `clock(1)`, ...; the state counts the readings. Random and
cryptographic functions, detectors and generators are arbitrary functions. Scores and times are reals.

## Model

| member | source | states |
|---|---|---|
| Restore.RestoreText | frostglass/masking/restore.py:47-52 | the loop over surrogates, longest first with ties in map order, computes `Restored` |
| Restore.LowerCut | frostglass/masking/restore.py:28-34 | the inner loop visits every occurrence of one surrogate and lowers the cut past those it splits |
| Restore.StreamRestorer.constructor | frostglass/masking/restore.py:11-17 | the tail is the longest surrogate, at most the cap, and 0 for an empty map; the buffer is empty |
| Restore.StreamRestorer.Feed | frostglass/masking/restore.py:19-39 | what one `feed` emits and keeps, as functions of buffer and chunk; the map and the tail do not change |
| Restore.StreamRestorer.Finish | frostglass/masking/restore.py:41-44 | emits the restored tail and empties the buffer |
| Restore.RestoreStream | frostglass/masking/restore.py:55-64 | the yielded pieces are non-empty and join to the streamed output, with the default cap of 256 |
| Restore.LowerFromShrinks | frostglass/masking/restore.py:28-34 | the pass only lowers the cut, and never below zero |
| StreamTheorems.TailIsLongestCapped | frostglass/masking/restore.py:13-16 | the tail bounds every surrogate that fits the cap; it is the cap if one does not, otherwise the length of some surrogate, and 0 without any |
| StreamTheorems.StreamEqualsBatch | frostglass/masking/restore.py:11-64 | for every text and every chunking the joined outputs of `feed` and `finish` are the batch restoration of the whole text |
| StreamTheorems.FeedSplits | frostglass/masking/restore.py:19-39 | whatever text follows, restoring everything is what one `feed` emits followed by restoring what it keeps and the rest |
| StreamTheorems.CutStaysWhole | frostglass/masking/restore.py:25-36 | the cut splits no occurrence of any surrogate, including those completed by later text |
| StreamTheorems.LowerFromWhole | frostglass/masking/restore.py:28-34 | one pass over the map suffices: lowering for a later entry never uncovers a split of an earlier one |
| StreamTheorems.RestoreSplit | frostglass/masking/restore.py:47-52 | batch restoration distributes over a cut that splits no surrogate |
| StreamTheorems.WholeSurvives | frostglass/masking/restore.py:50-51 | replacing one surrogate on both sides of a whole cut builds no later surrogate across it |
| StreamTheorems.HeldBackBounded | frostglass/masking/restore.py:25-38 | `feed` never holds back more than `2L - 1` characters |
| StreamTheorems.HeldBackBoundReached | frostglass/masking/restore.py:25-38 | the bound `2L - 1` is reached for every surrogate that does not overlap itself |
| StreamTheorems.ActiveOriginalBreaksStream | frostglass/masking/restore.py:37-37 | without inert originals streaming and batch differ: an original spells half of another surrogate |
| SingleEntry.StreamsExactlyWhenSafe | frostglass/masking/restore.py:19-44 | a one-entry map streams correctly for all chunkings if and only if it is the identity, or its surrogate is non-empty, cannot overlap itself and exceeds a positive cap by at most one |
| SingleEntry.SafeStreams | frostglass/masking/restore.py:19-44 | under that condition every chunking streams correctly, whatever the original is |
| SingleEntry.FailingChunks | frostglass/masking/restore.py:28-34 | outside that condition there is a stream whose output is not the batch output |
| SingleEntry.TooLongFails | frostglass/masking/restore.py:13-16 | a surrogate two over the cap passes through unrestored when its last character comes alone |
| SingleEntry.NoTailFails | frostglass/masking/restore.py:22-24 | with no tail text passes through unrestored |
| SingleEntry.OverlapFailsFullTail | frostglass/masking/restore.py:30-34 | a surrogate with a border fails in one chunk, because earlier occurrences are not rechecked |
| SingleEntry.OverlapFailsShortTail | frostglass/masking/restore.py:30-34 | and in two chunks if it is one longer than the cap |
| BatchTheorems.BatchIsSimultaneous | frostglass/masking/restore.py:47-52 | batch restoration is one simultaneous leftmost-longest pass, on every text in which no surrogate starts inside one rewritten later |
| BatchTheorems.SequentialIsSimultaneous | frostglass/masking/restore.py:49-51 | the same for any order that is longest first |
| BatchTheorems.AbsorbNext | frostglass/masking/restore.py:50-51 | one more replacement after a simultaneous pass is a simultaneous pass with one more entry |
| BatchTheorems.SimultaneousOrderFree | frostglass/masking/restore.py:50-50 | the simultaneous pass depends only on the set of entries |
| BatchTheorems.UncrossedOrder | frostglass/masking/restore.py:50-50 | a map without crossings meets the condition on every text, for every map order |
| BatchTheorems.TiesCommute | frostglass/masking/restore.py:50-51 | equally long surrogates that do not cross, with originals that do not meet the other one, may be rewritten in either order, and so may an entry that changes nothing |
| BatchTheorems.OnlyTiesMatter | frostglass/masking/restore.py:47-52 | the restored text is the same for every order of the map if that holds for its equally long surrogates; the others may cross, overlap themselves and meet originals |
| BatchTheorems.RestoreIgnoresMapOrder | frostglass/masking/restore.py:47-52 | so it is for maps without crossings and with inert originals |
| BatchTheorems.MapOrderMatters | frostglass/masking/restore.py:50-50 | with crossing surrogates of equal length the map order decides the result |
| BatchTheorems.ActiveTieMatters | frostglass/masking/restore.py:50-50 | so it does when an original shows another surrogate of equal length |
| Merge.MergeSpans | frostglass/detection/merge.py:14-21 | the greedy loop computes `Merged`, which is a selection of the candidates |
| Merge.MergedIsSelection | frostglass/detection/merge.py:14-21 | the result is sorted, disjoint, from the input, and keeps a candidate exactly when no kept candidate before it in the order overlaps it |
| Merge.SelectionUnique | frostglass/detection/merge.py:14-21 | any two such selections have the same spans in the same order, entity types aside |
| Merge.RejectedOverlapsKept | frostglass/detection/merge.py:18-20 | every rejected span overlaps a kept one of at least its rank |
| Merge.RejectedIsBeaten | frostglass/detection/merge.py:10-21 | every candidate is kept up to its type, or overlaps a kept one that is surer; or as sure and more specific; or also as specific and longer; or also as long and of a later detector name; or equal in all that and starts later |
| Merge.UnbeatenIsKept | frostglass/detection/merge.py:10-21 | a candidate that nothing it overlaps beats in those fields is kept |
| Merge.MergeIgnoresOrder | frostglass/detection/merge.py:16-21 | every permutation of the input gives the same spans, entity types aside |
| Merge.MergeIdempotent | frostglass/detection/merge.py:14-21 | merging twice changes nothing, entity types included |
| Merge.OrderIrrelevantExactly | frostglass/detection/merge.py:16-21 | with entity types the result is independent of the input order if and only if kept spans have no twin of another type; which spans are kept is read off the result |
| Merge.NoTwinsSettled | frostglass/detection/merge.py:16-21 | that is so whenever no two candidates differ only in type, which can be checked beforehand |
| Merge.FrontedIsKept | frostglass/detection/merge.py:16-18 | among candidates that differ only in type the first in the input is kept, the sorts being stable |
| Detection.DetectionEngine.Detect | frostglass/detection/engine.py:26-45 | collecting, filtering, merging and hashing the candidates of all detectors computes `Detected` |
| Detection.KeptSpansValid | frostglass/detection/engine.py:30-34 | whatever the detectors return, kept spans are non-empty, in range, scored in [0, 1], and disjoint |
| Detection.DetectedIsPlaced | frostglass/detection/engine.py:35-45 | findings are sorted, disjoint, in range, have distinct spans, and carry the hash of their own text |
| Detection.FindingIsCandidate | frostglass/detection/engine.py:26-45 | every finding has entity type, span, confidence and detector of a candidate that some detector returned in range and scored in [0, 1], and the hash of its text |
| Detection.CandidateIsCovered | frostglass/detection/engine.py:26-45 | every such candidate is reported, up to its type, or overlaps a reported one that beats it |
| Vault.EncryptedVault.Find | frostglass/masking/vault.py:32-35 | `get`: an unexpired mapping by hash; the state changes only by one clock reading |
| Vault.EncryptedVault.Decode | frostglass/masking/vault.py:78-83 | a stored value is returned unless it has expired at this reading |
| Vault.EncryptedVault.Store | frostglass/masking/vault.py:48-52 | `put`: both directions get the same stored value |
| Vault.EncryptedVault.PurgeExpired | frostglass/masking/vault.py:54-62 | both indices keep exactly what expires later than one reading |
| Vault.EncryptedVault.DecodeAll | frostglass/masking/vault.py:40-46 | the loop visits each surrogate of the scope once, in some order, and lists it with its original unless it has expired at its own clock reading |
| Vault.EncryptedVault.ReverseMap | frostglass/masking/vault.py:37-46 | `reverse_map`: purges, then lists the scope's live surrogates |
| Vault.ConsistencyManager.Surrogate | frostglass/masking/consistency.py:16-36 | an unexpired mapping answers and nothing else changes; otherwise the generator answers, and its surrogate is stored under hash and surrogate with the request's text, hash and entity type |
| VaultTheorems.ReachableCoherent | frostglass/masking/vault.py:22-62 | in every state a fresh vault can reach under a clock that never goes back the two indices are coherent |
| VaultTheorems.RunCoherent | frostglass/masking/consistency.py:16-36 | every run of surrogate requests, listings and purges keeps coherence |
| VaultTheorems.SurrogateSource | frostglass/masking/consistency.py:24-31 | the answer is the surrogate of an unexpired mapping of the scope and hash, or what the generator makes of the request |
| VaultTheorems.OnlyGenerated | frostglass/masking/consistency.py:24-36 | in every run from an empty vault each stored record was generated for a request of the run with that scope and hash, and expires one time to live after some reading |
| VaultTheorems.PurgedExactly | frostglass/masking/vault.py:54-62 | purging, alone or before a listing, keeps exactly the records that expire later than its reading, as they were |
| VaultTheorems.RunKeepsLive | frostglass/masking/vault.py:32-62 | no run changes or drops a forward mapping before it expires |
| VaultTheorems.SurrogateStable | frostglass/masking/consistency.py:16-36 | the same scope and hash get the same surrogate until the mapping expires, whatever happens between |
| VaultTheorems.LiveIsListed | frostglass/masking/vault.py:37-46 | every surrogate of a live mapping is a key of the reverse map |
| VaultTheorems.ListedIsLive | frostglass/masking/vault.py:37-46 | every listed pair comes from a live mapping when nothing expires during the listing |
| VaultTheorems.LiveAllListedExactly | frostglass/masking/vault.py:37-46 | the reverse map lists every live mapping if and only if no two share a surrogate for different originals |
| VaultTheorems.ReverseMapInvertsExactly | frostglass/masking/vault.py:37-46 | when nothing expires during the listing the reverse map is the inverse of the live mappings, listing them and nothing else, if and only if their surrogates are distinct |
| VaultTheorems.DecodedEntries | frostglass/masking/vault.py:40-46 | in any order of decoding, entries that live through it are listed, listed ones carry their stored original, and no surrogate is listed twice |
| VaultTheorems.DecodedAlive | frostglass/masking/vault.py:40-46 | what is listed is a record of the scope that was alive at some reading of the listing |
| VaultTheorems.BothDirectionsExpireTogether | frostglass/masking/vault.py:48-52 | a live mapping with a surrogate of its own has one stored value in both indices, so one expiry |
| Masking.MaskingEngine.Replace | frostglass/masking/engine.py:71-95 | `_replacement` for each mode: text, tag counter and vault; "block" raises and changes nothing |
| Masking.MaskingEngine.MaskFinding | frostglass/masking/engine.py:50-67 | one iteration: the range check, the error, and the new cursor, output, immune spans and counters |
| Masking.MaskingEngine.Mask | frostglass/masking/engine.py:33-69 | the whole loop, with the vault state also after an error |
| MaskTheorems.MaskSucceedsExactly | frostglass/masking/engine.py:50-56 | masking succeeds if and only if each finding starts after the one before it, ends in the text, and is not blocked |
| MaskTheorems.MaskLayout | frostglass/masking/engine.py:46-69 | the masked text is the untouched gaps interleaved with the replacements, immune spans are the output coordinates of the pseudonymized and tagged ones, tags are numbered per entity type |
| MaskTheorems.ReplacementLocated | frostglass/masking/engine.py:63-67 | each replacement stands at its offset in the text plus the growth before it |
| MaskTheorems.SpansInOrder | frostglass/masking/engine.py:63-67 | replacements come in order without overlapping |
| MaskTheorems.ImmuneSpansSorted | frostglass/masking/engine.py:63-69 | immune spans are in range of the masked text, sorted and disjoint |
| MaskLaws.MaskedAsAsked | frostglass/masking/engine.py:46-95 | each replacement is the original, its prefixed digest, the tag with the next number of its type, or the surrogate of a mapping live at that point and otherwise the generated one, as the mode asks; findings without a mode are pseudonymized |
| MaskLaws.ImmuneAsAsked | frostglass/masking/engine.py:63-66 | immune spans are exactly those of the findings to be pseudonymized or tagged |
| MaskLaws.FailureNamed | frostglass/masking/engine.py:50-51 | masking stops at the first finding out of place or blocked, and the error says which of the two |
| MaskLaws.OnlyGeneratedGoesOut | frostglass/masking/engine.py:90-95 | with a vault that started empty every pseudonymized replacement was generated for a request of the same scope and hash |
| MaskLaws.TagNames | frostglass/masking/engine.py:88-89 | how EMAIL_ADDRESS, CREDIT_CARD and PERSON are named in tags |
| MaskLaws.TagsCoincideExactly | frostglass/masking/engine.py:86-89 | two tags are the same text if and only if their types are named alike and their numbers are equal |
| MaskLaws.TagsDiffer | frostglass/masking/engine.py:85-89 | no two findings of one type get the same tag in one text |
| MaskLaws.TagsOfTypesCoincide | frostglass/masking/engine.py:88-89 | findings of two types may get the same tag |
| MaskLaws.ScopesCoincideExactly | frostglass/masking/models.py:28-45 | two contexts share mappings if and only if both are per request, per tenant or per session and agree on what names it |
| MaskLaws.SessionsSeparate | frostglass/masking/models.py:38-45 | sessions of tenants without a colon in their names share mappings only if tenant and session are equal |
| MaskLaws.ColonJoinsScopes | frostglass/masking/models.py:45-45 | with a colon in a tenant's name two sessions can have one scope |
| Pieces.CleanExactly | frostglass/masking/restore.py:51-51 | replacing a surrogate restores exactly the tokens that show it, whatever the original, if and only if it occurs only starting in such tokens |
| Pieces.SettlesRestores | frostglass/masking/restore.py:49-52 | if that holds at every stage of an order, or the entry changes nothing, restoration gives every token its original and changes nothing else |
| Pieces.InertSettles | frostglass/masking/restore.py:49-52 | it holds at every stage when originals are inert and surrogates occur in the masked text only inside tokens; crossing and nested surrogates are allowed |
| Pieces.EdgeSharingSettles | frostglass/masking/restore.py:49-52 | inert originals are not needed: an original may share an edge letter with a later surrogate that it does not meet |
| PieceStream.CutSparesToken | frostglass/masking/restore.py:25-36 | one pass over the map in any order leaves the cut outside every token of a masked text, arrived in full or not |
| PieceStream.PiecesStream | frostglass/masking/restore.py:19-44 | every chunking of such a text streams to what its tokens stand for |
| PieceStream.PickedPiece | frostglass/masking/restore.py:47-52 | one simultaneous pass takes at a token the token's own entry, and elsewhere nothing |
| RoundTrip.RestoresMasked | frostglass/masking/restore.py:47-52 | restoring a masked text whose replacements the map undoes gives the text, when every stage is clean |
| RoundTrip.InertIsRestorable | frostglass/masking/restore.py:47-52 | every stage is clean when originals are inert and surrogates occur only inside replaced spans |
| RoundTrip.SimultaneousRestores | frostglass/masking/restore.py:47-52 | one simultaneous pass would need no condition on the originals |
| RoundTrip.StreamsMasked | frostglass/masking/restore.py:19-44 | a masked text with clean stages, whose surrogates occur only inside replaced spans, streams back to the text in any chunks |
| RoundTrip.RestoresWoven | frostglass/masking/restore.py:47-52 | so for inert originals restoring the masked text gives the text |
| MaskRuns.MaskIsRun | frostglass/masking/engine.py:50-61 | masking acts on the vault as a run of surrogate requests |
| MaskRuns.MaskRemembers | frostglass/masking/engine.py:56-62 | after masking the vault remembers the surrogate of every pseudonymized finding |
| MaskRuns.RememberedIsListed | frostglass/masking/vault.py:37-46 | a remembered surrogate is listed with the text its hash names |
| MaskRuns.TextRoundTrip | frostglass/masking/engine.py:33-69 | `mask`, any later run of the vault, and `restore_text` with the reverse map read then give the text, for findings that are allowed or pseudonymized and a masked text with clean stages |
| MaskRuns.InertTextRoundTrip | frostglass/masking/engine.py:33-69 | in particular for inert originals and surrogates that occur only inside replaced spans |
| MaskRuns.StreamedRoundTrip | frostglass/masking/restore.py:19-44 | so do `mask`, any later run of the vault, and `StreamRestorer`, for every chunking of the masked text |
| Extract.Collector.CollectJson | frostglass/gateway/extract.py:34-43 | appends every string leaf of arbitrary JSON in order |
| Extract.Collector.CollectSchema | frostglass/gateway/extract.py:45-60 | appends description text and example strings of a JSON schema, at any depth |
| Extract.Collector.CollectBlock | frostglass/gateway/extract.py:62-71 | appends a content block's text, input leaves and nested content |
| Extract.Collector.CollectContent | frostglass/gateway/extract.py:73-79 | appends a string, or the blocks of a list |
| Extract.Collector.CollectToolCalls | frostglass/gateway/extract.py:81-93 | appends call arguments and inputs, skipping items that are not objects |
| Extract.Collector.CollectMessages | frostglass/gateway/extract.py:99-108 | appends content, tool calls and tool result of each message |
| Extract.Collector.CollectTools | frostglass/gateway/extract.py:109-126 | appends descriptions and schema text of each tool and its function |
| Extract.Collector.CollectInput | frostglass/gateway/extract.py:127-133 | appends the embeddings input, a string or the strings of a list |
| Extract.ExtractText | frostglass/gateway/extract.py:22-134 | the collectors together return `Extracted`; a payload that is not an object yields nothing |
| Extract.PlanDistinct | frostglass/gateway/extract.py:22-134 | no role visits a child twice |
| Grammar.ExtractsExactly | frostglass/gateway/extract.py:22-134 | a path is extracted if and only if it leads to a string and is in a grammar written on its segments: system and content blocks, messages with tool calls and tool results, tools and functions with schema text and lists, and input |
| Grammar.ExtractsInOrder | frostglass/gateway/extract.py:34-133 | records are visited in the order of their keys written here, lists and free-form values as they stand |
| Replace.LocationsPrefixFree | frostglass/gateway/extract.py:22-134 | the extracted paths are distinct and none is a prefix of another |
| Replace.LocationsResolve | frostglass/gateway/extract.py:22-134 | each path leads to the recorded string |
| Replace.ReplaceText | frostglass/gateway/extract.py:137-148 | assigning at the locations one after the other is the structural rewriting |
| Replace.SetAllIsRewrite | frostglass/gateway/extract.py:143-147 | the same for every role and every sub-value |
| Replace.LeafAfterRewrite | frostglass/gateway/extract.py:137-148 | an extracted leaf gets the transformed text, and every other leaf anywhere is unchanged |
| Rewrite.ExtractAfterRewrite | frostglass/gateway/extract.py:137-148 | extracting after replacing gives the same paths with the transformed texts |
| Rewrite.RewriteIdentity | frostglass/gateway/extract.py:137-148 | replacing with the identity returns the payload |
| Rewrite.RewriteComposes | frostglass/gateway/extract.py:137-148 | replacing twice is replacing with the composition |
| Rewrite.RewriteDependsOnLocations | frostglass/gateway/extract.py:137-148 | transformations that agree on the extracted texts give the same payload |
| Rewrite.RewriteUndone | frostglass/gateway/extract.py:137-148 | a second replacement that undoes the first at each location gives back the payload |
| Pipeline.ProviderRegistry.Detect | frostglass/gateway/pipeline.py:83-103 | findings by location with one decision each, the policy version and the shadow flag |
| Pipeline.ProviderRegistry.GroupByPath | frostglass/gateway/pipeline.py:113-119 | each path maps to its findings and modes in the order found |
| Pipeline.ProviderRegistry.WalkValue | frostglass/gateway/pipeline.py:121-137 | the recursive `walk`, with the vault threaded through it |
| Pipeline.ProviderRegistry.Mask | frostglass/gateway/pipeline.py:105-142 | shadow, block, missing decisions, an engine error, a payload that is no object, or the walked payload, with the vault afterwards |
| Pipeline.ProviderRegistry.RestorePayload | frostglass/gateway/pipeline.py:144-149 | reads the scope's reverse map once and restores each extracted text |
| RequestLaws.DecidedForEach | frostglass/gateway/pipeline.py:83-103 | exactly the findings of the prompt texts are reported, and each is decided for its type and confidence and the caller's user, team and model, under the current version |
| RequestLaws.ReportedExactly | frostglass/gateway/pipeline.py:45-53 | when a request is reported as shadow, blocked or allowed |
| RequestLaws.LeavesAsDecided | frostglass/gateway/pipeline.py:105-142 | every prompt text goes out as its untouched gaps and one replacement for each finding: the original, its digest, its tag or its surrogate, as the decision on that finding says |
| PipelineTheorems.DetectedEntries | frostglass/gateway/pipeline.py:126-129 | sorting detected findings changes nothing and each span key finds its own finding's mode |
| PipelineTheorems.EntriesOfLocated | frostglass/gateway/pipeline.py:113-119 | the entries at a path are exactly the findings in its text, each with its own decision |
| PipelineTheorems.DetectedIsSound | frostglass/gateway/pipeline.py:93-119 | unless a decision blocks, entries sit only at extracted strings and masking accepts them |
| PipelineTheorems.MaskingIsTotal | frostglass/gateway/pipeline.py:45-53 | for every request `mask` raises exactly when the action is "blocked" or, outside shadow mode, the payload is no object, leaving the vault unchanged; in shadow mode payload and vault are unchanged |
| PipelineTheorems.AllowedIsUntouched | frostglass/gateway/pipeline.py:45-53 | an "allowed" request goes out as it came in if it is an object, and raises otherwise; the vault is unchanged |
| PipelineTheorems.WalkSucceeds | frostglass/gateway/pipeline.py:121-137 | the walk succeeds on entries that masking accepts |
| PipelineTheorems.WalkKeepsLeaf | frostglass/gateway/pipeline.py:121-137 | a leaf without entries is unchanged, and every value keeps its kind and keys |
| PipelineTheorems.WalkMasksLeaf | frostglass/gateway/pipeline.py:121-137 | in every successful walk a string with entries becomes what the engine makes of it in the vault state the walk is in at that point |
| PayloadRoundTrip.WalkIsRewriting | frostglass/gateway/pipeline.py:121-142 | every successful walk is the path-by-path replacement at the extracted locations, with no condition on clock, expiry or hashes |
| PayloadRoundTrip.RequestIsMasked | frostglass/gateway/pipeline.py:83-142 | so is the walk over whatever was detected, when nothing blocks |
| PayloadRoundTrip.WalkRenders | frostglass/gateway/pipeline.py:121-137 | when nothing of the scope expires meanwhile and hashes name one text each, what the walk writes is determined by the vault afterwards, so the order of the walk does not matter |
| PayloadRoundTrip.MaskedPayload | frostglass/gateway/pipeline.py:105-142 | in that case the walk is the path-by-path replacement by one rule, that of the final vault |
| PayloadRoundTrip.PayloadComesBack | frostglass/gateway/pipeline.py:105-149 | restoring a masked request from the scope's reverse map, read after any later run of the vault, gives the request, for any entries |
| PayloadRoundTrip.RequestRoundTrip | frostglass/gateway/pipeline.py:83-149 | the same from detection on, for whatever the detectors found, when all decisions are "allow" or "pseudonymize" and every masked string has clean stages; a payload that is no object raises |
| PayloadRoundTrip.InertRequestRoundTrip | frostglass/gateway/pipeline.py:83-149 | in particular for inert originals and surrogates that occur in each masked string only inside replaced spans |
| Limits.Limiter.CheckLimits | frostglass/gateway/budget.py:17-31 | budget first, then the popped window, then admission; the state in each case |
| Limits.Limiter.Record | frostglass/gateway/budget.py:33-34 | adds to the team's spend and nothing else |
| Limits.RefusedExactlyAtLimit | frostglass/gateway/budget.py:20-31 | within budget, a request is refused for its rate exactly when the admissions of the last 60 seconds reach the limit, and the window then holds exactly the admissions of those seconds |
| Limits.WindowExactAfterCheck | frostglass/gateway/budget.py:17-31 | after any check the window is exact as of that check if and only if the budget allowed it or no admission has expired since the last one it allowed |
| Limits.RunKeepsRate | frostglass/gateway/budget.py:17-31 | every run keeps the window equal to the admissions of the 60 seconds to the team's last check within budget, and every 60-second interval within the limit |
| Limits.RateLimitHolds | frostglass/gateway/budget.py:17-31 | from a fresh limiter no interval (t - 60, t] of a run holds more admissions of a team than its limit, and the window is exact as of the last check within budget |
| Limits.RunKeepsBudget | frostglass/gateway/budget.py:17-34 | spend plus requests in flight stays within budget plus k - 1 |
| Limits.BudgetRefusedExactly | frostglass/gateway/budget.py:18-19 | a check is refused for the budget if and only if it is spent, whatever the rate, and then changes nothing |
| Limits.OtherTeamsKept | frostglass/gateway/budget.py:17-34 | steps of one team leave spend and window of every other team alone |
| Limits.SpendIsFinished | frostglass/gateway/budget.py:33-34 | in every run a team's spend has grown by one cent for each of its finished requests |
| Limits.BudgetHolds | frostglass/gateway/routes_openai.py:91-139 | with at most k requests of a team between `check` and `record_spend`, spend is at most budget + k - 1 in every run |
| Limits.BudgetBoundReached | frostglass/gateway/routes_openai.py:91-139 | for every positive budget and k some run reaches that bound |
| Paging.AuditStore.RecordRequest | frostglass/audit/store.py:107-139 | appends a row unless its id is taken, and then changes nothing |
| Paging.AuditStore.ListRequests | frostglass/audit/store.py:186-220 | one page and the next cursor, from one extra row; limits below 1, including the error for a page without a last row |
| Paging.PageCuts | frostglass/audit/store.py:201-220 | a page holds the newest matching rows below the cursor, and every other one lies below the next cursor, which is below the old one |
| Paging.PageInFields | frostglass/audit/store.py:201-220 | a page holds rows of the asked tenant, team and action older than the cursor, newest first by time and id, and every other such row is older than the next cursor |
| Paging.NextPageExactly | frostglass/audit/store.py:216-219 | there is a next cursor if and only if such a row was left out |
| Paging.WalkWithInserts | frostglass/audit/store.py:201-220 | with inserts between pages keys still strictly decrease, so no row comes twice, and a finished walk has every row present from the start |
| Paging.WalkFixedTable | frostglass/audit/store.py:201-220 | over a fixed table the pages join to the whole filtered list, newest first, in `PageCount` pages |
| Paging.PageCountIsCeiling | frostglass/audit/store.py:216-219 | which is max(1, ceil(n / limit)): one page for an empty list |
| Policy.DecisionIsWinner | frostglass/policy/precedence.py:12-29 | the decision is that of the first rule in list order among the maximal matching ones by (block, specificity, restrictiveness) |
| Policy.NoMatchIsDefault | frostglass/policy/precedence.py:15-21 | with no matching rule the default applies, with its fixed reason |
| Policy.ActionExactly | frostglass/policy/precedence.py:12-29 | if no applicable rule blocks, those that name users decide, without any those that name teams, then models, then none; among them tag comes before hash before pseudonymize, and allow needs all of them to allow |
| Policy.DecisionNamesRule | frostglass/policy/precedence.py:23-29 | the decision carries action, id and reason of an applicable rule, the first of its action in the list among the most specific |
| Policy.DefaultDecides | frostglass/policy/precedence.py:15-21 | without an applicable rule it is the default action, by no rule |
| Policy.BlockExactly | frostglass/policy/precedence.py:22-29 | the decision blocks if and only if a matching rule blocks, or none matches and the default blocks |
| Policy.ActionIgnoresOrder | frostglass/policy/precedence.py:23-29 | the action is the same for every permutation of the rules |
| Policy.DecisionOrderExactly | frostglass/policy/precedence.py:24-29 | the whole decision is the same for every permutation if and only if the maximal rules agree |
| Policy.DeletingLoserKeepsDecision | frostglass/policy/precedence.py:12-29 | deleting any rule but the winner, also when none wins, leaves the decision unchanged |
| PolicyStore.SortedNames | frostglass/policy/loader.py:108-114 | `sorted` on a set gives its one ascending list, whatever the order of iteration |
| PolicyStore.Serialize | frostglass/policy/loader.py:99-124 | the stored tree of a rule set, keys sorted |
| PolicyStore.LoadedIsValid | frostglass/policy/loader.py:41-96 | what the loader accepts is a valid rule set: positive version, distinct non-empty ids, scores in range, non-empty names |
| PolicyStore.TypesAcceptedExactly | frostglass/policy/loader.py:47-50 | `entity_types` is accepted if and only if it is a list of non-empty strings, the empty list included, and gives their set |
| PolicyStore.RuleReadExactly | frostglass/policy/loader.py:21-80 | a rule loads exactly from the trees that say it key by key, with the default for each absent key |
| PolicyStore.RuleSetReadExactly | frostglass/policy/loader.py:83-96 | the same for a rule set |
| PolicyStore.StoredKeysAscend | frostglass/policy/loader.py:99-124 | the keys of stored trees are in ascending order |
| PolicyStore.RoundTripExactly | frostglass/policy/loader.py:83-131 | loading a stored rule set gives it back if and only if it is valid |
| PolicyStore.PolicyStore.constructor | frostglass/policy/loader.py:137-167 | a new database holds the initial rule set, which is active; an existing one gains it only if its version is free, and keeps its active version |
| PolicyStore.PolicyStore.Write | frostglass/policy/loader.py:188-200 | stores a newer version, and rejects any other without a change |
| PolicyStore.PolicyStore.Add | frostglass/policy/engine.py:45-49 | loads and writes; it fails exactly when the tree is not loadable or the version not newer |
| PolicyStore.PolicyStore.SetActive | frostglass/policy/loader.py:202-214 | activates a stored version and returns its valid rule set, and rejects an unknown one without a change |
| PolicyStore.PolicyStore.ActiveRules | frostglass/policy/loader.py:169-180 | in a sound store the active policy loads, is valid and has the active version; a valid rule set that was written is read back; without an active row it raises |
| PolicyStore.StepSound | frostglass/policy/loader.py:188-214 | each operation keeps stored payloads and an active loadable version, adds only a version newer than all, and moves the active version only by activating a stored one |
| PolicyStore.RunKeepsPolicies | frostglass/policy/loader.py:159-214 | so does every run, including reopening the database |
| PolicyStore.NewStoreKeepsPolicies | frostglass/policy/loader.py:137-214 | every run from a new database keeps the initial policy as it was, and everything loadable with one policy active |
| PolicyStore.WrittenIsReadBack | frostglass/policy/loader.py:188-214 | a rule set that was written can be activated and read back unchanged after any run |
| PolicyStore.RecordedDecisionReplays | frostglass/policy/engine.py:57-68 | deciding again under the recorded version gives the recorded decision, whatever was written or activated since |
| Surrogates.Total | frostglass/masking/surrogates.py:29-38 | the loop over reversed digits computes the Luhn sum |
| Surrogates.LuhnCheckDigit | frostglass/masking/surrogates.py:29-38 | the method computes `CheckDigit` |
| Surrogates.Luhn | frostglass/detection/structural.py:23-33 | accepts exactly 13 to 19 digits whose sum is a multiple of ten |
| Surrogates.CheckDigitCompletes | frostglass/masking/surrogates.py:29-38 | a digit completes a prefix to a valid sum if and only if it is the check digit |
| Surrogates.CardIsValid | frostglass/masking/surrogates.py:99-113 | `_card` keeps length and separators, and its result is accepted if and only if the original has 13 to 19 digits |
| Surrogates.CardInDigits | frostglass/masking/surrogates.py:99-113 | its digits are the test range of the original's brand, picked digits, and from eight digits on one that balances the sum |
| Surrogates.CardReturnedExactly | frostglass/masking/surrogates.py:99-113 | a card number is its own surrogate if and only if its digits already are so |
| Surrogates.OneWrongDigitRejected | frostglass/detection/structural.py:23-33 | changing one digit of an accepted number makes it rejected |
| Surrogates.ExchangeDetectedExactly | frostglass/detection/structural.py:23-33 | exchanging two neighbouring digits keeps the sum a multiple of ten if and only if they are equal or 0 and 9 |
| Surrogates.NumberInside | frostglass/masking/surrogates.py:147-155 | a non-zero number's surrogate lies strictly inside the bucket the code computes, on the same side of zero |
| Surrogates.NumberExactly | frostglass/masking/surrogates.py:147-155 | the surrogate is the value changed by -9 to 9 per cent, as the index says, and rounded, halves to even, or the bucket's first or last number if that leaves the bucket |
| Surrogates.NumberKeepsMagnitude | frostglass/masking/surrogates.py:147-155 | it keeps sign and power-of-ten bucket if and only if the value is zero or at least 1 in magnitude |
| Surrogates.NumberReturnedExactly | frostglass/masking/surrogates.py:147-155 | a number is its own surrogate if and only if it is zero, or it lies between the clamp bounds and its change is lost in rounding (ties to even) or would cross the bound where it already is |
| Surrogates.ReturnedExamples | frostglass/masking/surrogates.py:147-155 | zero and 5 come back for every index, 99 for the index that adds one hundredth, and any value between the bounds for the index that means no change |
| Amounts.WrittenBackExactly | frostglass/masking/surrogates.py:129-155 | a magnitude is written as the numeral that was read if and only if it is its value and the numeral has no leading zeros and commas between groups of three |
| Amounts.CommasEveryFourth | frostglass/masking/surrogates.py:154-154 | counted from the right exactly every fourth character of the grouped digits is a comma |
| Amounts.TextReturnedExactly | frostglass/masking/surrogates.py:129-155 | the surrogate text is the original text if and only if it has no digit, or it is written canonically and the number is returned |
| Amounts.UngroupedChanges | frostglass/masking/surrogates.py:154-155 | the value 5000 comes back as "5,000" |

## Left out

- AES-GCM, base64, nonces, uuid and SHA-256: encryption is the identity, hashes and `_stable_index` are arbitrary functions, so round trips assume that a hash names one text.
- Regular expressions, `phonenumbers`, Aho-Corasick and the language-model detectors: detectors are arbitrary functions from texts to candidate spans.
- SQLite, YAML and JSON text: tables are sequences and maps, rule sets and payloads are trees; database files and transactions are not modelled.
- Replace.ReplaceText: assigns on values; the deep copy and the aliasing of nested Python objects are not captured.
- Payload round trips for `choices`-shaped provider responses: `extract_text` walks request shapes only, and so do the theorems.
- StreamTheorems.StreamEqualsBatch: for maps with several entries the map-wide condition is sufficient, with counterexamples for overlapping surrogates and for active originals; it is exact only for one entry.
- BatchTheorems.OnlyTiesMatter: its condition on equally long surrogates is sufficient, with a counterexample for each half, and not shown necessary.
- VaultTheorems.RunCoherent: a bare `put` over a live mapping of the same hash is no step of a run; the source stores only after a lookup that found nothing.
- The encoded form of the paging cursor.
- Paging.AuditStore.RecordRequest: keeps the columns that paging reads; finding rows and sealed captures are not modelled.
- `load_yaml`'s check that the document is a mapping is the first check of the tree loader; team shadow settings are an input of `Detect`.
- The pattern of `_number`: prefix, numeral and suffix are inputs; Decimal's 28-digit context, and infinite or NaN values: the value is an exact integer over a power of ten.
- `_date`, `_person`, `_email`, `_phone`, `_organization`, `_identifier` and cities: table picks and calendar arithmetic.
- Unicode digits: digits are the ASCII ones.
- Floating point: confidences and monotonic times are reals.
- Routes, providers and fallback, SSE framing, authentication and roles, retention, dashboards and settings: plumbing.
