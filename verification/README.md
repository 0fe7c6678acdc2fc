# A verified model of the External Secrets runtime

The Dafny files model the parts of the External Secrets Operator where state, map iteration order,
partial failure or concurrency make the code hard to read off, and prove what those parts are for.

| Files | What they model |
|---|---|
| `KeyEscape.dfy`, `KeyRoundTrip.dfy`, `KeyMaps.dfy` | Secret keys: `convert` escapes runes as `_Uhhhh_`, `reverse` splices them back from the right, `ConvertKeys` and `ReverseKeys` lift both to secrets, `ValidateKeys` consumes the result |
| `Decoding.dfy` | `Decode` and `DecodeMap` over the two base64 alphabets of RFC 4648 |
| `JsonMerge.dfy`, `Rewrites.dfy` | `RewriteMerge` with its priority order and conflicts; chains of rewrite steps in `RewriteMap` |
| `GeneratorStates.dfy`, `StateManager.dfy`, `StateRounds.dfy` | Generator states: which is the latest, `disposeState`, the commit and rollback queue, rounds of reconciling |
| `StateRuns.dfy`, `StateRefinement.dfy` | All interleavings of creating, parking, disposing on stale listings and deleting; and why whatever managers do is such a run |
| `TokenManager.dfy`, `TokenProtocol.dfy` | `GetToken` as one caller sees it, and as a protocol of any number of callers |
| `ProviderRegistry.dfy`, `RegistryProtocol.dfy` | The `builder` and `maintenance` registries, sequentially and in every interleaving |
| `ClientCache.dfy` | The versioned client cache over its LRU, with a ledger of clients |
| `Wrappers.dfy`, `Sequences.dfy` | `Option`, `Result` and parts of sequences |

`dafny verify dfyconfig.toml` checks all of it.

## How to read it

* A Go `string` of valid UTF-8 is a Dafny `string` of Unicode scalar values. `len` of a Go string is
  `ByteLength`.
* A Go map is walked by picking any key not yet visited, so each contract holds for every order.
* A call to the API server, a clean-up or a token exchange succeeds or fails arbitrarily; on success it
  changes the modelled store in one step. Every call is logged with how it ended, and contracts say which
  calls were made and that nothing but they decides the result. Listings may show any past version of a state, and the server
  takes an update only of the version it is based on. Clocks only move forward.
* Code that changes fields or loops is a class or a method, specified by a function or a predicate on
  values; the lemmas then are about that function or predicate. A `Run`, `Rounds`, `Reaches` or `After`
  predicate ranges over whole runs.

## What turned out not to hold

* `reverse` does not undo `convert` on every key. `RoundTripIff` gives the exact condition, `Clean`: no
  position of the key reads `_U`, four or five hexadecimal digits, and then `_` or a rune that gets
  escaped; and no escaped rune is above U+FFFFF. `RoundTripLosses` has an input for either half.
* The newest generator state can be flagged and deleted when timestamps are equal, and Kubernetes
  timestamps have a resolution of one second: `EqualTimestampsLoseTheNewest`. `CanBeLostIff` is the exact
  condition over all runs: a live-created state can be lost if and only if another live-created state of
  its scope has a timestamp that is as late, or later. Old ties below it are harmless. The listing that
  does it may mix moments, as a cache in the middle of a relist can: it may show a rival that was deleted
  before the state existed. If every listing is what was stored at one moment, the two must have been live
  together at some moment (`PastMomentFlagsIff`).
* Committing flag-latest before set-latest leaves two live states after each round, not one
  (`RoundsBoundLiveStates`); set-latest before flag-latest leaves one.
* The comment on `Cache` says a cleanup function is called when a key is evicted. A client whose key is
  added again while resident is replaced without it (`TwoAddsLeak`). `NoneLeakedIff` is the exact condition
  over all sequences of calls: no client leaks if and only if no `Add` meets a key that is resident.
* With tokens that live no longer than the buffer, the double check bounds nothing
  (`ShortLivedTokensAreUnbounded`).
* A validation between the two writes of `ForceRegister` finds the provider and no status
  (`ForceRegisterCanBeSeenHalfway`); `StatusMissingIff` gives the exact condition.
* Two `ForceRegister`s at once can leave the provider of one with the status of the other
  (`ForcedEntriesCanMix`). One that is done owns both entries if and only if no other made its first step
  after its first, or its second step after its second (`ForceOwnsEntriesIff`). A `Register` that
  completes always does at that moment (`RegisterOwnsEntries`).
* A `Register` that a `ForceRegister` overtakes panics with its status already written
  (`RegisterCanLeaveItsStatus`). It panics if and only if a `ForceRegister` of the name has written the
  provider (`SecondCheckPanicsIff`), and its own status is left standing if and only if one is halfway and
  none is done (`LeavesItsStatusIff`). The leftover lasts until the first of them is done
  (`RegisteredStatusStandsIff`).

## Model

| member | source | states |
|---|---|---|
| KeyEscape.ConvertKey | runtime/esutils/utils.go:316-338 | Filling one slot per rune and joining gives the rune-by-rune conversion |
| KeyEscape.ConvertIsLegal | runtime/esutils/utils.go:318-335 | With Default or Unicode, only characters that a secret key may hold are left |
| KeyEscape.AsciiIsLegal | runtime/esutils/utils.go:320-324 | The ASCII digits and letters are permitted in keys whatever the Unicode tables hold |
| KeyEscape.ConvertInPlace | runtime/esutils/utils.go:324-331 | Default keeps the length and every permitted rune at its place; an unknown strategy changes no key |
| KeyEscape.EscapeShape | runtime/esutils/utils.go:328 | An escape is `_U`, as many hexadecimal digits as the rune needs but at least four, and `_`; all of it is permitted in a key |
| KeyEscape.EscapeExamples | runtime/esutils/utils.go:328 | Two escapes spelled out: padding to four digits, lower case, five digits above U+FFFF |
| KeyEscape.HexValueOfHex | runtime/esutils/utils.go:328-370 | Reading printed digits gives the number back, if it fits in the digits |
| KeyEscape.DigitIsWorthItsPlace | runtime/esutils/utils.go:66-370 | A hexadecimal digit of either case is worth its place, and lower-case ones are printed |
| KeyEscape.NoOtherDigits | runtime/esutils/utils.go:66 | No other rune is a hexadecimal digit |
| KeyEscape.MatchLength | runtime/esutils/utils.go:66 | A match of the escape pattern is seven or eight runes, delimited by `_`, with hexadecimal digits inside |
| KeyEscape.EscapeFormMatches | runtime/esutils/utils.go:66 | Whatever has the form of an escape, with four or five digits of either case, is matched in full |
| KeyEscape.ScanEscapeForm | runtime/esutils/utils.go:359-385 | Such an escape is read as the rune of its number, and the rest is read as if it stood alone |
| KeyEscape.UpperCaseExample | runtime/esutils/utils.go:66-370 | `a_U005B_b` reverses to `a[b` |
| KeyEscape.SurrogateExample | runtime/esutils/utils.go:375 | The number of a surrogate reads as U+FFFD |
| KeyEscape.SharedUnderscoreExample | runtime/esutils/utils.go:362 | The `_` that closes one escape does not open the next |
| KeyEscape.MatchedDigitsParse | runtime/esutils/utils.go:370-373 | The text of a match always parses as a 32-bit number below 0x100000, so the branch that skips a match is dead |
| KeyEscape.MatchesAreChained | runtime/esutils/utils.go:362 | Each reported match is one, and those after it are the matches of the rest of the string |
| KeyEscape.StepBack | runtime/esutils/utils.go:364-377 | One splice, with indices from the original string, extends the part that is correctly read from the right by one match and leaves everything left of it alone |
| KeyEscape.ReverseKey | runtime/esutils/utils.go:359-385 | Splicing from the right with precomputed indices equals one left-to-right scan that replaces each leftmost match, on every input |
| KeyRoundTrip.MatchIffFakeEscape | runtime/esutils/utils.go:66-338 | A permitted rune of the key starts a match after conversion exactly if the key there reads like an escape, where a rune about to be escaped counts as its final `_` |
| KeyRoundTrip.CleanRoundTrips | runtime/esutils/utils.go:316-385 | Every clean key survives escaping and reversing, adjacent escapes included |
| KeyRoundTrip.ConvertedLengthShrinks | runtime/esutils/utils.go:316-385 | Reversing a permitted text and escaping again never makes it longer |
| KeyRoundTrip.FakeEscapeDiffers | runtime/esutils/utils.go:316-385 | A key that starts like an escape never survives |
| KeyRoundTrip.RoundTripIff | runtime/esutils/utils.go:316-385 | A key survives the round trip if and only if it is clean |
| KeyRoundTrip.NoMarkerRoundTrips | runtime/esutils/utils.go:316-385 | Keys without the text `_U` whose escaped runes are at most U+FFFFF survive |
| KeyRoundTrip.RoundTripLosses | runtime/esutils/utils.go:66-385 | `_U0041!` and U+10FFFF do not survive |
| KeyMaps.ConvertKeys | runtime/esutils/utils.go:304-314 | Succeeds exactly if no two keys convert to the same name; then it is the renamed secret, else the error names a real collision; for every map order |
| KeyMaps.ReverseKeys | runtime/esutils/utils.go:342-352 | The same for reversing |
| KeyMaps.CleanKeysNeverCollide | runtime/esutils/utils.go:304-352 | Secrets with clean keys collide neither when converted nor when reversed |
| KeyMaps.RenamedTwice | runtime/esutils/utils.go:304-352 | Converting and then reversing a secret renames it once by the composed function, without losing an entry |
| KeyMaps.FullLengthKeepsShape | runtime/esutils/utils.go:316-385 | If a round trip loses no length it only respelled hexadecimal digits, and another one changes nothing |
| KeyMaps.OntoMeansFixed | runtime/esutils/utils.go:304-352 | A key function like the round trip cannot permute the keys of a finite secret |
| KeyMaps.SecretRoundTripIff | runtime/esutils/utils.go:304-352 | A converted and reversed secret equals the original if and only if all its keys are clean |
| KeyMaps.ConvertedBytes | runtime/esutils/utils.go:316-338 | In bytes, Default never makes a key longer and Unicode writes at most nine for each rune |
| KeyMaps.RuneBytesAreLeast | runtime/esutils/utils.go:282 | A rune counts for as many bytes as UTF-8 needs for it, and no more |
| KeyMaps.LongestValidKey | runtime/esutils/utils.go:280-300 | A key of permitted ASCII characters is valid up to 253 of them |
| KeyMaps.SecretData.ValidateKeys | runtime/esutils/utils.go:280-300 | Accepts exactly if every key but the empty one is valid, and then has dropped just the empty key; otherwise the error is the first thing wrong with some key |
| KeyMaps.ConvertedKeysFailOnLengthOnly | runtime/esutils/utils.go:280-338 | A converted key is valid exactly if it is short enough; always for up to 28 runes under Unicode, and for keys of up to 253 bytes under Default |
| KeyMaps.TwentyNineRunesCanBeTooLong | runtime/esutils/utils.go:280-338 | 28 is the best such bound |
| Decoding.DecodeOfEncode | runtime/esutils/utils.go:245-258 | The decoder of either alphabet inverts its encoder on every byte string |
| Decoding.DigitsAreTabled | runtime/esutils/utils.go:247-258 | The digits are those of tables 1 and 2 of RFC 4648 |
| Decoding.DigitOfIff | runtime/esutils/utils.go:247-258 | A byte reads as a digit exactly if it is printed for that digit |
| Decoding.AcceptedIff | runtime/esutils/utils.go:247-258 | A decoder accepts exactly whole quanta of its digits with at most two padding characters at the end, which say how many bytes come out |
| Decoding.PaddingCutsOff | runtime/esutils/utils.go:247-258 | What a padded quantum reads as is the start of what it reads as with digits in place of the padding, whatever its trailing bits |
| Decoding.EncodeExamples | runtime/esutils/utils.go:247-258 | Test vectors of section 10 of RFC 4648, and a text on which the alphabets differ |
| Decoding.LineBreaksDoNotMatter | runtime/esutils/utils.go:247-258 | A CR or LF anywhere changes nothing for either decoder |
| Decoding.DecodersAgree | runtime/esutils/utils.go:264-273 | A text both decoders accept decodes to the same bytes |
| Decoding.StrategiesInvert | runtime/esutils/utils.go:246-263 | Each base64 strategy inverts its own encoding, and None and the empty strategy change nothing |
| Decoding.StrategiesFailIff | runtime/esutils/utils.go:246-276 | A base64 strategy succeeds exactly on padded text of its own alphabet, and an unknown one never |
| Decoding.AutoInvertsBoth | runtime/esutils/utils.go:264-273 | Auto gives back every byte string from its base64 and its base64url form |
| Decoding.AutoIsSymmetric | runtime/esutils/utils.go:264-273 | Auto never fails, and the order in which it tries the alphabets is not observable; only what neither accepts comes back as it is |
| Decoding.DecodeMap | runtime/esutils/utils.go:232-242 | Succeeds exactly if every value decodes, each then under its own key; otherwise reports the error of one that does not |
| JsonMerge.SortKeysWithPriority | runtime/esutils/utils.go:185-195 | The visiting order does not depend on the map order: other keys in byte order, then the priority keys as listed |
| JsonMerge.LessIff | runtime/esutils/utils.go:192 | The order is that of dictionaries: at the first difference the smaller rune comes first, or the text that ends |
| JsonMerge.SortedIsUnique | runtime/esutils/utils.go:192 | A set of keys has only one sorted order |
| JsonMerge.OverlayOne | runtime/esutils/utils.go:170-177 | In any field order, the inner loop lays one object over the merged map and records each field that was there, once |
| JsonMerge.Merge | runtime/esutils/utils.go:152-181 | On success the merged map and the conflicts (with multiplicity) are those of laying the objects over each other in visiting order; an error names the first key in that order that is missing or no object |
| JsonMerge.RewriteMerge | runtime/esutils/utils.go:111-149 | Returns an outcome that policies and strategy allow, fails only if there is none, and then reports what stands in the way: the key, all conflicts, the field, the missing name or the marshalling |
| JsonMerge.MergeConserves | runtime/esutils/utils.go:152-181 | The fields of all visited objects are as many as merged fields and conflicts together |
| JsonMerge.NoClashesIffDisjoint | runtime/esutils/utils.go:170-177 | There are no conflicts if and only if no two visited objects share a field |
| JsonMerge.RightmostPriorityWins | runtime/esutils/utils.go:152-195 | A field has the value of the rightmost priority key that holds it |
| JsonMerge.LargestOtherWins | runtime/esutils/utils.go:152-195 | Failing that, the value of the largest other key in byte order that holds it |
| JsonMerge.MergedFieldHasWinner | runtime/esutils/utils.go:152-195 | Every merged field has a winner of one of the two kinds |
| JsonMerge.ConflictFreeMergePermutes | runtime/esutils/utils.go:152-181 | If one visiting order has no conflicts, no permutation of it has any, and all give the same map |
| JsonMerge.PriorityOrderDoesNotMatter | runtime/esutils/utils.go:111-149 | Unless conflicts are ignored, a merge that succeeds has the same outcome for every permutation of the priority list |
| JsonMerge.RepeatedPriorityConflicts | runtime/esutils/utils.go:152-195 | A priority key listed twice conflicts with itself if it has any field |
| Rewrites.RewriteRegexp | runtime/esutils/utils.go:198-209 | Fails exactly if the source does not compile; otherwise the new names are the images of the keys and each entry is one of the original's under its new name |
| Rewrites.RewriteTransform | runtime/esutils/utils.go:212-229 | The same for templates, which also must run on every key |
| Rewrites.HandleRewriteOperation | runtime/esutils/utils.go:97-108 | A step returns an outcome it allows and fails only if it allows none |
| Rewrites.RewriteMap | runtime/esutils/utils.go:85-95 | A run succeeds with an outcome of all its steps in turn, or names a step that cannot go through on what those before it made |
| Rewrites.RenamingRun | runtime/esutils/utils.go:85-229 | Over any list of renaming steps, every entry of the result is an original entry under the composed renaming, and every composed name is there |
| Rewrites.InjectiveRenamingRun | runtime/esutils/utils.go:85-229 | If the composed renaming is injective on the keys, the result is the renamed secret, the same for every map order |
| Rewrites.CollidingStepHasTwoOutcomes | runtime/esutils/utils.go:204-207 | Where two keys get one name, either value may stay |
| GeneratorStates.GetLatest | runtime/statemanager/statemanager.go:261-279 | The loop computes the fold that later lemmas are about |
| GeneratorStates.LatestIff | runtime/statemanager/statemanager.go:261-279 | A state is picked if and only if it is live, none listed is newer, and none listed before it is as new |
| GeneratorStates.NoLatestIffNoneLive | runtime/statemanager/statemanager.go:261-279 | None is picked exactly if none listed is live |
| GeneratorStates.ToFlagIsAllButLatest | runtime/statemanager/statemanager.go:196-226 | On a complete listing, the states to flag are all live ones of the key but the latest |
| GeneratorStates.UpdatesDispose | runtime/statemanager/statemanager.go:196-226 | On a complete listing, the updates of one dispose are exactly the disposing that the next rows are about |
| GeneratorStates.DisposeEffect | runtime/statemanager/statemanager.go:196-226 | What is live afterwards is the latest and what failed to update; deadlines already set and all other keys are untouched |
| GeneratorStates.CleanDisposeLeavesOne | runtime/statemanager/statemanager.go:196-226 | Without failures exactly the previous latest stays live, if there was one |
| GeneratorStates.SecondDisposeDoesNothing | runtime/statemanager/statemanager.go:196-226 | A dispose after a clean one changes nothing, whatever its listing order and failures |
| GeneratorStates.RetryConverges | runtime/statemanager/statemanager.go:196-226 | After failed updates the latest is still live and a clean retry leaves one state, as new as the first choice |
| GeneratorStates.AnswerIff | runtime/statemanager/statemanager.go:244-279 | `GetLatestState` may answer exactly the newest live states of the key, and nothing exactly if none is live |
| GeneratorStates.CurrentListingFlagsIff | runtime/statemanager/statemanager.go:196-279 | Some complete listing of a store makes a dispose flag a live state exactly if another live one of its scope is as late or later |
| GeneratorStates.FlaggedRecordsDoNotAnswer | runtime/statemanager/statemanager.go:261-279 | Records that are flagged from the start never change an answer |
| StateManager.OwnerTextsOfOneResource | runtime/statemanager/statemanager.go:187-194 | Owner texts tell apart the state keys of one resource; two resources can share one |
| StateManager.OwnerKeysDiffer | runtime/statemanager/statemanager.go:187-194 | If the hash does not clash, a manager gives two state keys the same owner key exactly if they are the same |
| StateManager.Cluster.List | runtime/statemanager/statemanager.go:229-241 | One call; a listing holds past versions of states of the scope, each state once, in any order |
| StateManager.Manager.EnqueueFlagLatestStateForGC | runtime/statemanager/statemanager.go:111-117 | Puts a dispose at the end of the queue |
| StateManager.Manager.EnqueueMoveStateToGC | runtime/statemanager/statemanager.go:120-126 | Puts the very same action on the queue |
| StateManager.Manager.EnqueueSetLatest | runtime/statemanager/statemanager.go:130-162 | Makes the queue responsible for one more provider state, unless there is none |
| StateManager.Manager.GetAllStates | runtime/statemanager/statemanager.go:229-241 | Lists the states of the key under this resource, as stale as the cache is |
| StateManager.Manager.GetLatestState | runtime/statemanager/statemanager.go:244-259 | Fails exactly if its one listing fails, and else answers the latest of what that listed; from a current listing that is one of the newest live states |
| StateManager.Manager.CreateGeneratorState | runtime/statemanager/statemanager.go:164-185 | A record for this key and state, without a deadline, exactly if the owner reference can be set |
| StateManager.Manager.DisposeState | runtime/statemanager/statemanager.go:196-226 | Lists the key once, then makes one update for each live state listed that does not have the name of the latest, in listing order; those that succeed are flagged, with the grace period after the time of the update, those that fail are the errors; nothing else changes |
| StateManager.Manager.FlagOthers | runtime/statemanager/statemanager.go:208-225 | The loop, on any listing of past versions: exactly these updates are made, and the cluster sees one dispose event of those that succeeded, on states that were live |
| StateManager.Manager.FlagForGC | runtime/statemanager/statemanager.go:217-223 | One update: a dispose event that flags this state, if it still is stored as listed |
| StateManager.Manager.CommitItem | runtime/statemanager/statemanager.go:111-144 | One queued commit action: the calls it makes, and what each way for them to end does to the cluster and reports |
| StateManager.Manager.CommitState | runtime/statemanager/statemanager.go:137-144 | The owner reference and then the live record: created exactly if both calls succeed, else the error of the one that failed |
| StateManager.Manager.Commit | runtime/statemanager/statemanager.go:96-107 | Every action runs in order whatever failed before it, each on its own listing; their calls are all the calls, and their errors are joined in order |
| StateManager.NoFailuresIff | runtime/statemanager/statemanager.go:208-225 | If a listing shows each state once, its updates end without an error exactly if all states to flag are flagged |
| StateManager.Manager.RollbackItem | runtime/statemanager/statemanager.go:148-160 | Clean-up first; only if that fails, the state is parked under its own key as a record flagged for now, and only if that fails too, lost with the error; a queued dispose makes no call |
| StateManager.Manager.Rollback | runtime/statemanager/statemanager.go:82-93 | The calls made are those of each fate in order; nothing stored before changes; the states enqueued are as many as the clean-ups, new records and errors together |
| StateManager.EachCleanupTriedOnce | runtime/statemanager/statemanager.go:82-160 | Among these calls is one clean-up for each enqueued provider state, in order |
| StateManager.RollbackConserves | runtime/statemanager/statemanager.go:82-162 | Enqueued provider states are as many as the fates clean-up, parking and error together |
| StateManager.NoErrorNoLeak | runtime/statemanager/statemanager.go:82-162 | Without an error each enqueued provider state is cleaned up or parked |
| StateManager.RollbackKeepsAnswers | runtime/statemanager/statemanager.go:82-279 | Rolling back never changes what `GetLatestState` may answer from a current listing, for any key |
| StateManager.RollbackKeepsCachedAnswers | runtime/statemanager/statemanager.go:82-279 | Nor what it may answer from a stale one |
| StateRounds.FlagThenSetRound | runtime/statemanager/statemanager.go:96-226 | A round that flags and then sets leaves two live states, or one if none was live |
| StateRounds.SetThenFlagRound | runtime/statemanager/statemanager.go:96-226 | A round that sets and then flags leaves exactly one, which is the new one if it is the youngest |
| StateRounds.RoundsBoundLiveStates | runtime/statemanager/statemanager.go:96-226 | Over any number of rounds from any start: flag first, at most two and exactly two from the second on; set first, exactly one |
| StateRuns.FlaggedHasRival | runtime/statemanager/statemanager.go:196-279 | A listing of past versions, however stale, that makes a dispose flag a live-created state shows another one as late or later |
| StateRuns.RunKeepsInv | runtime/statemanager/statemanager.go:196-279 | After every run of creates, parked roll-backs, stale disposes with failures and deletions of flagged records, a state later than all others of its scope is stored as created |
| StateRuns.CanBeFlaggedIff | runtime/statemanager/statemanager.go:196-226 | Some listing makes a dispose flag a stored live-created state if and only if another one of its scope is as late or later |
| StateRuns.CanBeLostIff | runtime/statemanager/statemanager.go:196-279 | Over all runs, with timestamps in any order: without a further creation, a live-created state can still be flagged or deleted if and only if another one of its scope is as late or later |
| StateRuns.PastMomentFlagsIff | runtime/statemanager/statemanager.go:196-226 | Over all runs, some listing of one past moment makes a dispose flag a live-created state if and only if at some moment it was live together with another one as late or later |
| StateRuns.UnrivalledIsNeverLost | runtime/statemanager/statemanager.go:196-226 | In every run, a state later than all others of its scope is neither flagged nor deleted |
| StateRuns.NewestIsNeverLost | runtime/statemanager/statemanager.go:196-226 | With strictly increasing timestamps, the newest live-created state of a key is never flagged and never deleted |
| StateRuns.EqualTimestampsLoseTheNewest | runtime/statemanager/statemanager.go:261-279 | With two equal timestamps, a run flags and deletes the newer state |
| StateRuns.FlaggedUnlessFirstNewest | runtime/statemanager/statemanager.go:196-279 | A listed live state is flagged exactly unless it is the first of the newest live ones listed |
| StateRefinement.CommitStepIsAnEvent | runtime/statemanager/statemanager.go:96-144 | A commit action that changes the stored states, even in part and on a stale listing, is one event of a run |
| StateRefinement.CommitIsARun | runtime/statemanager/statemanager.go:96-107 | A whole commit, with failures and stale listings anywhere, is a run |
| StateRefinement.UpdateStaysEnabled | runtime/statemanager/statemanager.go:208-225 | A listing justifies flagging its states after whatever others did in between |
| StateRefinement.CommitLosesNoNewest | runtime/statemanager/statemanager.go:96-226 | No commit, in a cluster used in any way before, loses a state later than all others of its scope |
| StateRefinement.RollbackStepIsAnEvent | runtime/statemanager/statemanager.go:148-160 | A roll-back action that changes the stored states is a parking event |
| TokenManager.TokenCache.Get | runtime/oidc/token_manager.go:209-220 | Hits exactly if there is a token with more than the buffer left, and never hands out another |
| TokenManager.TokenCache.Set | runtime/oidc/token_manager.go:223-228 | Replaces token and expiry together |
| TokenManager.BaseTokenManager.Refresh | runtime/oidc/token_manager.go:118-139 | With the lock held: a token usable when it looks is served without a call; otherwise a service account token is created and exchanged, and how these calls end decides answer and cache; always releases the lock |
| TokenManager.BaseTokenManager.GetToken | runtime/oidc/token_manager.go:106-140 | The same for a whole call, with its two configuration errors; a token that is still usable at the end is served and nobody is called |
| TokenManager.BufferIsOneMinute | runtime/oidc/token_manager.go:41-46 | A token is served with a nanosecond more than a minute left, and not with a minute |
| TokenProtocol.RunKeepsInv | runtime/oidc/token_manager.go:106-228 | Over every interleaving of any number of callers: one lock holder, refreshing only over an unusable cache, the cache is the last store |
| TokenProtocol.AtMostOneRefreshes | runtime/oidc/token_manager.go:114-137 | At most one caller is between its second check and `Set`, and it holds the lock |
| TokenProtocol.SetReplacesStaleToken | runtime/oidc/token_manager.go:120-137 | No `Set` overwrites a token that could still be served |
| TokenProtocol.ServedTokensAreGood | runtime/oidc/token_manager.go:110-139 | A token served from the cache has the expiry of its own exchange and had more than the buffer left |
| TokenProtocol.FailedRefreshLeavesCache | runtime/oidc/token_manager.go:114-135 | However others interleave, a refresh that fails leaves the cache as it was when its caller took the lock, and the caller's next step frees the lock |
| TokenProtocol.LookServesIff | runtime/oidc/token_manager.go:114-122 | Either look at the cache serves the token exactly if it is usable then |
| TokenProtocol.MissAlone | runtime/oidc/token_manager.go:106-140 | The steps of a caller that misses, with nobody else at work, make the calls of the method, give its answer and leave its cache |
| TokenProtocol.ExchangeRateIsBounded | runtime/oidc/token_manager.go:106-228 | With lifetimes of at least L above the buffer B, a window W sees at most floor(W/(L-B)) + 1 stored exchanges |
| TokenProtocol.ExchangeRateIsAttained | runtime/oidc/token_manager.go:106-228 | For every n a run attains that bound |
| TokenProtocol.ShortLivedTokensAreUnbounded | runtime/oidc/token_manager.go:209-220 | With empty tokens or lifetimes up to the buffer, a run stores any number of exchanges in one instant |
| ProviderRegistry.Registry.GetProviderName | apis/externalsecrets/v1/provider_schema.go:104-125 | Names the backend exactly if one is configured |
| ProviderRegistry.Registry.RegisterMaintenanceStatus | apis/externalsecrets/v1/provider_schema_maintenance.go:43-57 | Panics exactly on a bad spec or a status already there, without a trace |
| ProviderRegistry.Registry.Register | apis/externalsecrets/v1/provider_schema.go:35-50 | Registers provider and status together, or panics, with exactly what a panic leaves behind: the status, if only the provider was there; nothing, if every provider has its status |
| ProviderRegistry.Registry.ForceRegister | apis/externalsecrets/v1/provider_schema.go:54-64 | Overwrites both entries; panics exactly on a bad spec |
| ProviderRegistry.Registry.GetProvider | apis/externalsecrets/v1/provider_schema.go:75-100 | Finds the provider of the one configured backend, or says which way it failed; nothing, without an error, for no store |
| ProviderRegistry.Registry.GetMaintenanceStatus | apis/externalsecrets/v1/provider_schema_maintenance.go:74-99 | The same for the status, which is not maintained for no store |
| ProviderRegistry.Registry.ValidateConditions | apis/externalsecrets/v1/secretstore_validator.go:99-110 | Reports exactly the namespace regexes that do not compile, each once and in order |
| ProviderRegistry.Registry.ValidateStore | apis/externalsecrets/v1/secretstore_validator.go:73-97 | Bad regexes come first; otherwise the provider's verdict with the warning its status calls for, or the registry that had no entry; never a missing status if every provider has one |
| RegistryProtocol.StatusMissingIff | apis/externalsecrets/v1/secretstore_validator.go:78-85 | Among any calls, a validation that found its provider misses the status exactly while a `ForceRegister` of that name is between its writes and no status is there |
| RegistryProtocol.RegisterAlone | apis/externalsecrets/v1/provider_schema.go:35-50 | The steps of a `Register` with nobody else at work do what the method does |
| RegistryProtocol.ForceRegisterAlone | apis/externalsecrets/v1/provider_schema.go:54-64 | The same for `ForceRegister` |
| RegistryProtocol.FirstReadIff | apis/externalsecrets/v1/provider_schema.go:91-99 | In any run, a validation finds a provider exactly if the name is registered at that step, and finds that one |
| RegistryProtocol.SecondReadIff | apis/externalsecrets/v1/provider_schema_maintenance.go:90-98 | And it is answered exactly if the status is there at its second step |
| RegistryProtocol.RunKeepsRegisterInv | apis/externalsecrets/v1/provider_schema.go:35-50 | In every interleaving of registrations and validations, each name is claimed by one call and both entries are that call's |
| RegistryProtocol.EntriesComeFromOneCall | apis/externalsecrets/v1/provider_schema.go:35-50 | A registered provider has a status, and one call wrote both, duplicates notwithstanding |
| RegistryProtocol.ValidationFindsItsStatus | apis/externalsecrets/v1/secretstore_validator.go:78-85 | A validation that finds its provider finds the status of the same registration |
| RegistryProtocol.SecondCheckNeverPanics | apis/externalsecrets/v1/provider_schema.go:44-49 | The second duplicate check never fires, so no panic leaves a status behind |
| RegistryProtocol.OneRegistrationWins | apis/externalsecrets/v1/provider_schema.go:35-50 | Of several registrations of a name at most one completes |
| RegistryProtocol.ForceRegisterCanBeSeenHalfway | apis/externalsecrets/v1/provider_schema.go:54-64 | With `ForceRegister` a validation can find a provider without status |
| RegistryProtocol.SecondCheckPanicsIff | apis/externalsecrets/v1/provider_schema.go:41-49 | Among any calls, a registration past its first check panics at the second exactly if a `ForceRegister` of its name has written the provider |
| RegistryProtocol.RegisteredStatusStandsIff | apis/externalsecrets/v1/provider_schema.go:35-64 | In every run, the status that a `Register` wrote, whatever became of the call, is the one that stands exactly until a `ForceRegister` of the name is done |
| RegistryProtocol.LeavesItsStatusIff | apis/externalsecrets/v1/provider_schema.go:35-64 | A registration past its first check panics and leaves its own status standing exactly if a `ForceRegister` of its name is halfway and none is done |
| RegistryProtocol.RegisterCanLeaveItsStatus | apis/externalsecrets/v1/provider_schema.go:35-64 | A schedule in which it does: its status stands beside the other's provider, until the other makes its second write |
| RegistryProtocol.RegisterOwnsEntries | apis/externalsecrets/v1/provider_schema.go:35-50 | Among any calls, a `Register` that completes leaves its own provider with its own status |
| RegistryProtocol.ForcedProviderStandsIff | apis/externalsecrets/v1/provider_schema.go:54-64 | In every run, the provider of a `ForceRegister` that has begun is the one that stands exactly if no other made its first step after the first step of this one |
| RegistryProtocol.ForceOwnsEntriesIff | apis/externalsecrets/v1/provider_schema.go:54-64 | A `ForceRegister` that is done wrote both standing entries exactly if no other made its first step after its first, or its second after its second; then both are its own |
| RegistryProtocol.ForcedEntriesCanMix | apis/externalsecrets/v1/provider_schema.go:54-64 | A schedule of two that leaves the provider of one with the status of the other |
| ClientCache.Find | runtime/cache/cache.go:82-102 | A key is resident exactly if it is found, and then at its own entry |
| ClientCache.Cache.New | runtime/cache/cache.go:52-67 | An empty cache, unless the size is not positive |
| ClientCache.Cache.Get | runtime/cache/cache.go:82-92 | A hit on the right version freshens the entry; another version evicts it and cleans its client up |
| ClientCache.Cache.Add | runtime/cache/cache.go:95-97 | Adds as the freshest entry within the size; the stalest is evicted and cleaned up, a resident one replaced without cleanup |
| ClientCache.Cache.Contains | runtime/cache/cache.go:100-102 | Whether the key is resident, in any version |
| ClientCache.AnswersIff | runtime/cache/cache.go:82-97 | After any calls, a `Get` answers a client exactly if the key is resident and its last `Add` was of this client in this version |
| ClientCache.EvictsIff | runtime/cache/cache.go:82-97 | A call evicts exactly if it asks for a resident key in another version, or adds an absent key to a full cache |
| ClientCache.LedgerBalances | runtime/cache/cache.go:82-97 | Over every sequence of calls, each client is as often added as it is resident, evicted and overwritten together |
| ClientCache.NothingOverwrittenIff | runtime/cache/cache.go:82-97 | Over every sequence of calls, nothing is overwritten if and only if no `Add` meets a key that is resident then |
| ClientCache.NoneLeakedIff | runtime/cache/cache.go:82-97 | Under the same exact condition, each client added is resident or was evicted, exactly once for each time it was added |
| ClientCache.TwoAddsLeak | runtime/cache/cache.go:95-97 | Two `Add`s of one key lose the first client without a cleanup |
| ClientCache.NoClientLeaks | runtime/cache/cache.go:82-97 | Callers that add only after a miss of the key meet that condition |
| ClientCache.MissMeansAbsent | runtime/cache/cache.go:82-92 | After a miss no version of the key is resident |
| ClientCache.StalestFirst | runtime/cache/cache.go:82-97 | Entries stay in the order of their last use, so a full cache evicts what was used longest ago |

## Left out

- Kubernetes, HTTP and TLS: calls are arbitrary successes or failures; a call that fails but took effect at the server is not modelled.
- Optimistic locking: an update succeeds only if the stored state equals the one listed; resource versions themselves are not modelled.
- Regular expression and template engines, JSON and SHA-3: parameters. Only the escape pattern and base64 are spelled out.
- `GetByteValue` and `JSONMarshal`: parameters of a merge, as functions of a value that may fail.
- A rewrite entry with several operations set: the source takes the first of merge, regexp and transform; the model has the one taken.
- Unicode tables: any table that holds of ASCII letters and digits.
- Invalid UTF-8: Go strings that are not valid UTF-8 are outside the model, and match positions are counted in runes, not bytes.
- Error texts: errors carry what they are about, not their wording.
- Logging: what `ValidateKeys` logs is left out.
- KeyMaps.SecretData.ValidateKeys: when it fails, whether the empty key is dropped by then depends on the map order, so both are allowed.
- StateManager.Manager.DisposeState: runs with nobody else between its calls, like `Commit`.
- StateManager.Manager.Commit: runs with nobody else between its calls. Each call alone is one event, and `StateRefinement.UpdateStaysEnabled` is about what others do in between.
- StateManager.Manager.CreateGeneratorState: the generated name prefix, the resource snapshot and the owner reference itself are not part of a record.
- StateManager.Cluster.Update: takes only the one kind of update that `disposeState` makes, a deadline on a state that some listing makes it flag.
- Owner keys: taken as the identity of a scope. Two resources whose texts or hashes agree share one.
- A second `Commit` or `Rollback` of one `Manager`: the queue is not cleared, so each manager is used once.
- The garbage collector: appears only as the deletion of flagged records.
- Creation timestamps: chosen by the server; claims about order say what they need of them.
- Token requests: namespace, audiences and requested lifetime of a service account token (`CreateServiceAccountToken`, `BuildAudiences`).
- TokenManager.BaseTokenManager.GetToken: runs with no other caller at work; all interleavings are in `TokenProtocol`.
- Fairness: nothing says that a waiting caller ever gets the lock.
- A nil spec: the source calls that branch unreachable, since Kubernetes objects have a spec.
- `RegisterMaintenanceStatus` and `ForceRegisterMaintenanceStatus` called on their own: the interleavings have them as steps of `Register` and `ForceRegister`.
- `GetProviderByName` and the other registries: single lookups.
- golang-lru: its source is not part of this model; its `Get`, `Add`, `Remove` and eviction are modelled as documented, with a key's use recorded by `Get` and `Add`.
- `Must` of the cache: panics where `New` fails.
- ExternalSecret validators, selectors and reconcilers: branch by branch readings of their inputs.
