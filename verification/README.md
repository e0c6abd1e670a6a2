# A verified model of AgentBaker's algorithms

AgentBaker turns a description of a node into the custom data, the scripts and the flags that the
node boots with. This project models the parts of it that compute something intricate, in the form
the source gives them, and proves what they are for. Each module follows one source file or one
algorithm of it.

| module | source | subject |
|---|---|---|
| `ReleaseNotes` | `vhdbuilder/release-notes/autonotes/main.go` | one worker per artifact, two unbuffered channels, a collector with a counted loop |
| `WaitForFile` | `pkg/templates/templates_generated.go` | the hand-off of files from cloud-init to the CSE script |
| `Bindata` | `pkg/templates/templates_generated.go` | the embedded directory tree against the flat asset table |
| `Escaping` | `pkg/agent/utils.go`, `pkg/agent/baker.go` | escape, wrap, substitute, decode (section 7 of RFC 8259) |
| `FeatureGates` | `pkg/agent/utils.go`, `pkg/agent/baker.go` | parsing, updating and printing feature gates |
| `KubeletFlags` | `pkg/agent/utils.go` | the kubelet's command line |
| `Labels` | `pkg/agent/baker.go` | the resource group label, bytes against characters |
| `SetFlags` | `pkg/aks-engine/engine/transform/apimodel_merger.go` | the quote state machine behind `--set` |
| `ArrayMerge` | `pkg/aks-engine/engine/transform/apimodel_merger.go` | growing a JSON array in random map order |
| `Semver`, `Versions`, `Catalogue` | `pkg/agent/datamodel/versions.go`, `vendor/github.com/blang/semver` | precedence (section 11 of Semantic Versioning 2.0.0), filtering, choosing |
| `StrictJson` | `pkg/aks-engine/api/strictjson.go` | every key of a document is a declared tag |

`Text` and `Sorting` hold the parts of Go's `strings`, `unicode` and `sort` packages that are called;
`Basics` holds what all modules share.
Where Go ranges over a map, the method picks the next key by `:|`, so that what it ensures holds in
every iteration order.

## Where the code does less than its documentation says

Each of these is a theorem, with the exact condition where one is named.

- `run` returns without an error exactly if no stage of any worker failed, and only then has it waited
  for all of them; with an error it can return while other workers have not begun
  (`NoErrorIffNothingFailed`, `AllEndedIffNoError`, `ReturnsWithIdleWorker`). Even without an error a
  working directory can remain, because the error of its removal is dropped (`DirectoryMayRemain`).
- `wait_for_file` can report success for an unfinished file exactly when the file is not complete at
  the call and there are no retries or a logged line contains the path (`SuccessIsTrustworthyIff`).
  A safe call times out exactly if the file is incomplete at its last probe (`TimesOutIff`).
  Below, a safe run is one whose every call has a retry and a path that is part of no other logged
  path.
- Custom data with a control character outside LF and CRLF, such as a lone CR, makes
  `getCustomDataFromJSON` panic (`CustomDataRoundTrip`, `SubstitutionCommutes`).
- A feature gate is updated faithfully exactly when its key is trimmed and free of `,` and `=`
  (`UpdateLawIffCleanKey`).
- The kubelet's command line reads back exactly when no name has a blank or `=` and no value a blank
  (`ReadsBackIffClean`).
- The label function "does the same processing" as the ARM expression exactly when the first 63
  characters are ASCII or the name is short in bytes (`SameAsArmIff`): Go cuts bytes, ARM characters.
- A quote of the other kind inside a literal of `--set` vanishes (`RoundTripIff`), and a value without a
  key at the end is dropped (`ConservationIff`).
- Array values of `--set` depend on Go's map order, exactly as `OrderFreeIff` says. On an array: when two
  keys spell one index, as in `a[1]=x,a[01]=y`, and give it different values (`SpellingsClash`), unless
  some index is negative, which always panics. Where there is nothing: for such a clash, or when a
  negative index, which the parser lets through, stands beside another one, as in `a[-1]=x,a[0]=y`
  (`NegativeIndexShows`). On any other value: when the assignments are not all the same, unless all
  indices are negative.
- Giving `--set` several times and joining the parts by commas, where these end outside a literal,
  differ exactly when joining stores a value without a key that the single flags drop
  (`RepeatedFlagsJoinIff`).
- `GetVersionsBetween` returns a version that the list holds k times k * k times.
- Versions that do not parse compare as 0.0.0, and `GetLatestPatchVersion` stops at the first one. Its
  result depends on the order of the list unless no version is of the release, or everything parses
  and nothing ties with the greatest one (`LatestIsOrderFreeIff`).
- A leading "v" is called equivalent to none; for `GetValidPatchVersion` it is only when the version
  is supported as it is or has no fallback (`LeadingVIsIgnoredIff`).
- `checkMapKeys` panics in `reflect` on an object that is decoded into no struct; when no key offends, it
  panics if and only if there is one (`CheckMapKeys`). A slice of maps makes such a type
  (`SliceOfMapsPanics`). No field of `ContainerService` in `pkg/agent/datamodel/types.go` is of such a
  type, so this concerns other types that may be handed to `checkJSONKeys`.

## Model

| member | source | states |
|---|---|---|
| ReleaseNotes.StripWhitespace | vhdbuilder/release-notes/autonotes/main.go:154-163 | the characters of the result are exactly those of the flag that are no white space; a flag without white space is unchanged |
| ReleaseNotes.StripConcat | vhdbuilder/release-notes/autonotes/main.go:154-163 | every part of a flag is stripped on its own, so that the other characters stay in order |
| ReleaseNotes.TokenMap | vhdbuilder/release-notes/autonotes/main.go:63-79 | the map holds exactly the listed names; it is empty exactly when the flag names nothing |
| ReleaseNotes.SelectArtifacts | vhdbuilder/release-notes/autonotes/main.go:81-94 | in every map order: exactly the table entries that are not ignored and, if an include list is given, are on it |
| ReleaseNotes.IncludeAndIgnorePartition | vhdbuilder/release-notes/autonotes/main.go:25-33 | "ONLY these" and "everything EXCEPT these" split the table for every flag that names something; otherwise both select all |
| ReleaseNotes.IgnoreWins | vhdbuilder/release-notes/autonotes/main.go:82-90 | an ignored artifact is not downloaded whatever is included; an included one is, unless ignored |
| ReleaseNotes.NamesOfList | vhdbuilder/release-notes/autonotes/main.go:63-78 | a flag that lists names, with any white space, names just these |
| ReleaseNotes.StepInv | vhdbuilder/release-notes/autonotes/main.go:96-152 | every step of every worker and of the collector keeps: receives plus workers without `done` equals errors plus workers; errors precede `done`; no error is lost or misattributed |
| ReleaseNotes.ReachableInv | vhdbuilder/release-notes/autonotes/main.go:96-152 | that invariant holds after every interleaving |
| ReleaseNotes.UnfinishedAtReturn | vhdbuilder/release-notes/autonotes/main.go:103-114 | when the collector returns, exactly as many workers have not delivered `done` as there are errors |
| ReleaseNotes.SuccessMeansAllWritten | vhdbuilder/release-notes/autonotes/main.go:52-57 | no error is returned if and only if every worker has ended, reported nothing and put its file in place |
| ReleaseNotes.FailedIffReporting | vhdbuilder/release-notes/autonotes/main.go:117-152 | in every state of every run, the workers that have reported or are about to are those in which a stage failed |
| ReleaseNotes.NoErrorIffNothingFailed | vhdbuilder/release-notes/autonotes/main.go:96-152 | the error list is empty if and only if no stage of any worker failed in the course of the run |
| ReleaseNotes.ErrorsAreFailures | vhdbuilder/release-notes/autonotes/main.go:120-151 | in every state of every run, the errors a worker has delivered or is about to are exactly the stages at which it failed, in order |
| ReleaseNotes.StagesInOrder | vhdbuilder/release-notes/autonotes/main.go:117-152 | a worker on its way stands where it has gone successfully through all stages before, in order |
| ReleaseNotes.WrittenWasDownloaded | vhdbuilder/release-notes/autonotes/main.go:133-151 | a file in its final place had its directory made, was downloaded and was renamed, in this order and once each, and before that TempDir succeeded or was reported |
| ReleaseNotes.WentThroughOnce | vhdbuilder/release-notes/autonotes/main.go:117-152 | the stages a worker went through are determined by the run |
| ReleaseNotes.EachFailureIsReported | vhdbuilder/release-notes/autonotes/main.go:122-150 | for each of the four stages there is a complete run whose one error is that stage's |
| ReleaseNotes.DirectoryMayRemain | vhdbuilder/release-notes/autonotes/main.go:126 | a run without an error that leaves a working directory behind |
| ReleaseNotes.AllEndedIffNoError | vhdbuilder/release-notes/autonotes/main.go:105-114 | `run` has waited for all workers exactly when it has nothing to report |
| ReleaseNotes.ReturnsWithIdleWorker | vhdbuilder/release-notes/autonotes/main.go:120-136 | a run in which one worker reports two errors and the collector returns while the other worker has not begun |
| ReleaseNotes.CollectorProgress | vhdbuilder/release-notes/autonotes/main.go:105-112 | no deadlock: while receives are left, at least as many `done`s are owed, and every worker that owes one can move |
| ReleaseNotes.StepDecreases | vhdbuilder/release-notes/autonotes/main.go:117-152 | every step lowers the total work left |
| ReleaseNotes.RunsAreBounded | vhdbuilder/release-notes/autonotes/main.go:96-152 | no interleaving takes more than ten steps per worker |
| ReleaseNotes.Collect | vhdbuilder/release-notes/autonotes/main.go:96-115 | under an arbitrary scheduler the counted loop ends in a reachable final state, returns that state's errors, and they are empty exactly when all workers succeeded |
| ReleaseNotes.Run | vhdbuilder/release-notes/autonotes/main.go:60-115 | the error list is empty exactly when the note of every wanted artifact is in place; then every worker has gone successfully through all four stages in order |
| WaitForFile.MarkerMeansComplete | pkg/templates/templates_generated.go:1863 | a file written line by line shows the marker exactly when all of it is written |
| WaitForFile.SweepLeavesBody | pkg/templates/templates_generated.go:1870 | deleting the marker lines of a complete document leaves its body |
| WaitForFile.StartInv | pkg/templates/templates_generated.go:1858-1872 | the invariant holds before cloud-init has written anything |
| WaitForFile.SafeRunKeepsInv | pkg/templates/templates_generated.go:1858-1872 | every interleaving of cloud-init, calls and commands keeps: files are prefixes of their documents until swept, logged files are complete without marker, probes and sleeps are counted, the log has no duplicates |
| WaitForFile.HandOffIsSafe | pkg/templates/templates_generated.go:1858-1872 | at every point of every safe run: 0 means the file was complete and is now the body; 1 means exactly `retries` probes and one sleep less, and no log entry |
| WaitForFile.LoggedOnceAndFinal | pkg/templates/templates_generated.go:1870-1871 | over whole runs a path is logged at most once, and a logged file never changes again |
| WaitForFile.LoggedReturnsAtOnce | pkg/templates/templates_generated.go:1861 | a call on a logged path returns 0 with its first command and touches nothing, though the marker is gone |
| WaitForFile.SuccessIsTrustworthyIff | pkg/templates/templates_generated.go:1861-1872 | however the call goes on, 0 implies a complete file, if and only if the file is complete at the call, or there is a retry and no logged line contains the path |
| WaitForFile.HastySuccess | pkg/templates/templates_generated.go:1861-1862 | the failing families: no retries, or a path that is part of a logged one |
| WaitForFile.AlwaysReturns | pkg/templates/templates_generated.go:1862-1869 | whatever cloud-init does, 2 * retries + 2 commands suffice (three without retries) |
| WaitForFile.CompleteByCount | pkg/templates/templates_generated.go:1858-1872 | a file is complete exactly when the writer has had enough turns on it, whatever the script does |
| WaitForFile.ProbeSees | pkg/templates/templates_generated.go:1863 | a probe of a file not yet swept sees the marker exactly when the file is complete |
| WaitForFile.TimesOutIff | pkg/templates/templates_generated.go:1862-1869 | command 2 * retries of a safe call is its last probe: the call returns 1 if the file is incomplete then, and 0 if it is complete |
| WaitForFile.CompleteMeansSuccess | pkg/templates/templates_generated.go:1862-1871 | a safe call on a complete file never returns 1 |
| WaitForFile.WriterOnlyAppends | pkg/templates/templates_generated.go:1858-1872 | over turns of the writer, each file grows by the next lines of its document, and nothing else changes |
| WaitForFile.Host.CloudInit | pkg/templates/templates_generated.go:1858-1872 | between two commands the run goes on by turns of the writer, which only append |
| WaitForFile.Host.GrepLog | pkg/templates/templates_generated.go:1861 | the first command, as one more step of the run |
| WaitForFile.Host.GrepMarker | pkg/templates/templates_generated.go:1863-1865 | one probe and where the loop goes on from it |
| WaitForFile.Host.SleepOnce | pkg/templates/templates_generated.go:1867 | one sleep leads to the next round |
| WaitForFile.Host.AwaitMarker | pkg/templates/templates_generated.go:1862-1869 | the loop ends with the marker seen, or timed out after the last round |
| WaitForFile.Host.SedMarker | pkg/templates/templates_generated.go:1870 | sweeping is one step of the run |
| WaitForFile.Host.AppendLog | pkg/templates/templates_generated.go:1871 | logging is one step and ends in 0 |
| WaitForFile.Host.RunCommands | pkg/templates/templates_generated.go:1861-1871 | the commands in order, interleaved with cloud-init, are a continuation of the run that ends in the code returned |
| WaitForFile.Host.WaitForFile | pkg/templates/templates_generated.go:1858-1872 | a safe call keeps the invariant, its code means what it should, and it is 0 if the file was complete at the call |
| Bindata.Canonical | pkg/templates/templates_generated.go:9208 | backslashes become slashes, every other character stays |
| Bindata.FoundIff | pkg/templates/templates_generated.go:9345-9358 | in a tree that agrees with the table, a walk succeeds exactly on files and directories of the table, and ends in a file exactly on keys |
| Bindata.ChildIff | pkg/templates/templates_generated.go:9360-9363 | a directory's children are exactly the next path segments of the keys under it |
| Bindata.AssetDir | pkg/templates/templates_generated.go:9345-9365 | succeeds exactly on directories of the table and lists each entry exactly once |
| Bindata.DescendOneLevel | pkg/templates/templates_generated.go:9495 | `filepath.Join` of a directory's name and one of its entries cleans nothing away, with either kind of slash |
| Bindata.EntryIsUnique | pkg/templates/templates_generated.go:9494-9499 | a key lies under one entry of a directory only |
| Bindata.KeysOfAllEntries | pkg/templates/templates_generated.go:9494-9499 | the entries of a directory together cover exactly its keys |
| Bindata.Restorer.RestoreAsset | pkg/templates/templates_generated.go:9462-9484 | writes the one file named if it exists and can be written; it can still fail afterwards, when its time stamps cannot be set |
| Bindata.Restorer.RestoreAssets | pkg/templates/templates_generated.go:9487-9501 | terminates; succeeds exactly when there is something to restore and no operation on it fails; then every key under the name is written exactly once and nothing else; after a failure only such keys, each at most once |
| Bindata.Restorer.RestoreChild | pkg/templates/templates_generated.go:9494-9499 | one round of the loop adds exactly the keys of its entry |
| Escaping.FourReplacementsAreOnePass | pkg/agent/utils.go:237-244 | the four successive replacements equal a single pass that escapes token by token |
| Escaping.ScanEscaped | pkg/agent/utils.go:237-244 | a JSON string scanner reads an escaped text back with CRLF as LF, up to the closing quote, exactly when its only control characters are line breaks |
| Escaping.UnmarshalWrapped | pkg/agent/baker.go:56 | the wrapped text decodes to an object with the one member `customData`, or not at all |
| Escaping.CustomDataRoundTrip | pkg/agent/utils.go:346-353 | for every text: escape, wrap and decode gives it back with CRLF as LF if its only control characters are line breaks, and otherwise fails |
| Escaping.EverySpellingDecodes | pkg/agent/utils.go:346-353 | the decoder reads every text in every spelling that section 7 of RFC 8259 allows: raw, short escapes, codes and surrogate pairs |
| Escaping.InertPrefix | pkg/agent/baker.go:84 | escaping neither destroys nor creates an occurrence of the placeholder |
| Escaping.ScanSubstituted | pkg/agent/baker.go:84 | scanning the escaped template with the escaped command put in equals putting the raw command into the raw template |
| Escaping.SubstitutionCommutes | pkg/agent/baker.go:71-85 | for every template and command: substitution after escaping, then decoding, equals raw substitution with CRLF as LF; it fails exactly when the template, or a command that is used, has a stray control character |
| FeatureGates.StrKeyValToMap | pkg/agent/utils.go:554-566 | the loop computes the last-wins map of the well-formed pieces |
| FeatureGates.StrKeyValToMapBool | pkg/agent/utils.go:568-580 | the same map with each value read as a boolean |
| FeatureGates.SpacedPair | pkg/agent/utils.go:557-562 | one delimiter between two texts, with any blanks around them, is the pair of these texts |
| FeatureGates.NotAPair | pkg/agent/utils.go:558-559 | a piece with no delimiter or more than one is no pair |
| FeatureGates.PiecesAreParsed | pkg/agent/utils.go:554-566 | delimited pieces give the last-wins map of those that are pairs |
| FeatureGates.BoolSpellings | pkg/agent/utils.go:515-518 | the six spellings of true that Go knows; anything else is false |
| FeatureGates.AddFeatureGateString | pkg/agent/utils.go:582-594 | in every map order the result prints the parsed gates with the key set, each gate once |
| FeatureGates.ParsedKeysAreClean | pkg/agent/utils.go:568-580 | parsing yields only keys that printing and parsing leave alone |
| FeatureGates.PrintedGatesParseBack | pkg/agent/utils.go:568-594 | a non-empty map of clean gates, printed in any order, parses back to itself |
| FeatureGates.UpdateLawIffCleanKey | pkg/agent/utils.go:582-594 | for every gate string and order: parsing the updated string is updating the parsed string, if and only if the key is trimmed without ',' and '=' |
| FeatureGates.NodeBootstrappingConfiguration.ValidateAndSetLinux | pkg/agent/baker.go:260-270 | the dynamic directory is gone, the dynamic gate is off, all other flags and gates are as before; nothing happens without the config file or with a nil map |
| FeatureGates.FixUpIsIdempotent | pkg/agent/baker.go:260-270 | a second fix-up changes neither a flag nor a gate |
| FeatureGates.DynamicIsOff | pkg/agent/baker.go:266-267 | after the fix-up the flag --dynamic-config-dir is gone and the gate DynamicKubeletConfig is set to false |
| KubeletFlags.AscendingListIsUnique | pkg/agent/utils.go:368 | a set of keys has one strictly ascending list |
| Text.LexLtIff | pkg/agent/utils.go:368 | ascending: the first difference of two names decides, else the shorter one comes first |
| KubeletFlags.GetOrderedKubeletConfigFlagString | pkg/agent/utils.go:357-374 | in every map order the string renders the kept flags, each once, in strictly ascending order; where these are clean, the flags read back from it are all flags, or without the translated ones when the config file is enabled |
| KubeletFlags.ReadsBackIffClean | pkg/agent/utils.go:369-373 | the command line, in any order of the flags, reads back to them if and only if no name has a blank or '=' and no value a blank |
| Labels.NormalizeForLabel | pkg/agent/baker.go:238-258 | at most 63 bytes, no parenthesis, no trailing '-', '_' or '.', empty only for the empty name |
| Labels.LabelShape | pkg/agent/baker.go:238-258 | the label is the beginning of the name with '(' and ')' as '-'; a mark at the end becomes 'z' at 63 bytes and is followed by 'z' below |
| Labels.EncodingIsRead | pkg/agent/baker.go:242-245 | the bytes of a character are its UTF-8 encoding |
| Labels.NormalizeIsIdempotent | pkg/agent/baker.go:238-258 | normalising twice is normalising once |
| Labels.SameAsArmIff | pkg/agent/baker.go:228-258 | equals the ARM expression of the comment if and only if the first 63 characters are ASCII or the name is short in bytes |
| SetFlags.ParseKeyValuePairs | pkg/aks-engine/engine/transform/apimodel_merger.go:122-182 | the loop computes the last-wins map of the pairs the state machine stores |
| SetFlags.QuoteInvAlways | pkg/aks-engine/engine/transform/apimodel_merger.go:132-173 | over every text: never in both kinds of literal, and never in a literal and a key |
| SetFlags.ConservationIff | pkg/aks-engine/engine/transform/apimodel_merger.go:132-179 | every ordinary character is in exactly one key or value, if and only if the last pair has a key or no ordinary character in its value |
| SetFlags.PrintParse | pkg/aks-engine/engine/transform/apimodel_merger.go:122-182 | pairs with plain keys printed as k=v, k='v' or k="v" parse to their last-wins map; commas and equals signs in literals and equals signs in bare values stay, quotes of the other kind vanish from literals |
| SetFlags.RoundTripIff | pkg/aks-engine/engine/transform/apimodel_merger.go:122-182 | the round trip is exact if and only if no winning value in a literal holds a quote of the other kind; for bare values it always is |
| SetFlags.ParseAtComma | pkg/aks-engine/engine/transform/apimodel_merger.go:150-159 | after a part that ends outside a literal, a comma separates completely: the rest is parsed as from the start |
| SetFlags.CompositionIff | pkg/aks-engine/engine/transform/apimodel_merger.go:132-179 | after such a part, parsing is compositional exactly when that part ends in a pair with a key, or the empty key is there anyway |
| SetFlags.ModelValues.MapValues | pkg/aks-engine/engine/transform/apimodel_merger.go:27-69 | the entries of each flag override those before, in every map order |
| SetFlags.ModelValues.AddPairs | pkg/aks-engine/engine/transform/apimodel_merger.go:37-67 | one flag's pairs become entries; an array key without a 32-bit index becomes none |
| SetFlags.ScalarsAreRead | pkg/aks-engine/engine/transform/apimodel_merger.go:40-46 | a number in 64-bit range is stored as an integer, true and false as booleans, other texts as they are |
| SetFlags.PlainFlagIsStored | pkg/aks-engine/engine/transform/apimodel_merger.go:36-65 | a flag of one pair, in any spelling, stores its value under its key |
| SetFlags.ArrayFlagIsStored | pkg/aks-engine/engine/transform/apimodel_merger.go:49-62 | for an array key it stores the array's name, the index and the property, too |
| SetFlags.JoinFlags | pkg/aks-engine/engine/transform/apimodel_merger.go:35-68 | joining flags by commas stores what repeating them stores, and a value without a key that the single flags drop |
| SetFlags.RepeatedFlagsJoinIff | pkg/aks-engine/engine/transform/apimodel_merger.go:35-68 | repeating `--set` equals one flag joined by commas, when every part but the last ends outside a literal, if and only if no such value is stored, or it is there anyway |
| SetFlags.RepeatedFlagsJoin | pkg/aks-engine/engine/transform/apimodel_merger.go:35-68 | in particular when every part but the last ends in a pair with a key |
| ArrayMerge.Document.Assign | pkg/aks-engine/engine/transform/apimodel_merger.go:95-100 | one assignment grows the array with nulls just far enough and sets one element; it panics exactly for a negative index on an array |
| ArrayMerge.Document.AssignAll | pkg/aks-engine/engine/transform/apimodel_merger.go:86-101 | in every map order: on an array it panics exactly when some index is negative; on an array or nothing, without negative indices and clashes, the result is the merge |
| ArrayMerge.AnyOrderMerges | pkg/aks-engine/engine/transform/apimodel_merger.go:86-101 | when no index is negative and no two keys clash, every order of the keys gives the merge: length the greater of the old one and the greatest index plus one, assigned elements in place, old ones kept, the rest null |
| ArrayMerge.ArrayPanicsIff | vendor/github.com/Jeffail/gabs/gabs.go:218-227 | on an array, whatever the order, Go panics exactly when some index is negative |
| ArrayMerge.MergeIsUnique | pkg/aks-engine/engine/transform/apimodel_merger.go:86-101 | that description determines the array |
| ArrayMerge.OrderFreeIff | pkg/aks-engine/engine/transform/apimodel_merger.go:86-101 | for all keys that the parser lets through, the outcome, a panic included, is independent of the order if and only if: on an array, some index is negative or no two keys clash; on nothing, all indices are negative, or none is and no two keys clash; on another value, all are negative, or none is and all assignments are the same |
| ArrayMerge.IndicesDiffer | vendor/github.com/Jeffail/gabs/gabs.go:372-387 | onto a value that is no array, two different indices give arrays of different lengths in different orders |
| ArrayMerge.ValueBecomesFirst | vendor/github.com/Jeffail/gabs/gabs.go:372-387 | a value that is no array becomes the first element of the new one, with nulls behind it |
| ArrayMerge.ClashDiffers | pkg/aks-engine/engine/transform/apimodel_merger.go:86-100 | of two keys that spell one index with different values, the one that comes last wins |
| ArrayMerge.MixedSignsDiffer | pkg/aks-engine/engine/transform/apimodel_merger.go:95-100 | on what is no array, a negative index is ignored when it comes first and panics when it comes after another |
| ArrayMerge.SpellingsClash | pkg/aks-engine/engine/transform/apimodel_merger.go:37-66 | the flag a[1]=x,a[01]=y shows the order, whatever the path holds |
| ArrayMerge.NegativeIndexShows | pkg/aks-engine/engine/transform/apimodel_merger.go:53-62 | the flag a[-1]=x,a[0]=y shows the order where there is nothing |
| Semver.ComparePreIsPrecedence | vendor/github.com/blang/semver/semver.go:140-162 | comparing pre-releases finds the first difference: rules 11.4 to 11.4.4 |
| Semver.CompareIsPrecedence | vendor/github.com/blang/semver/semver.go:113-162 | `Compare` decides the precedence of section 11 in both directions, and 0 means equal but for build metadata |
| Semver.CompareIsTotalPreorder | vendor/github.com/blang/semver/semver.go:113-162 | precedence is total and transitive |
| Semver.SectionElevenExample | vendor/github.com/blang/semver/semver.go:367-389 | `Compare` orders the example chain of section 11 |
| Semver.VersionsStartWithDigit | vendor/github.com/blang/semver/semver.go:227-313 | what parses starts with a digit, so never with "v" |
| Semver.ParsePrint | vendor/github.com/blang/semver/semver.go:227-313 | every valid version is read back from its canonical text |
| Semver.ParsedIsPrinted | vendor/github.com/blang/semver/semver.go:227-356 | only canonical texts of valid versions are read, so that major, minor, patch, pre-release and build are what the text says |
| Semver.UnreadableIsZero | pkg/agent/datamodel/versions.go:479-483 | a text that is no version counts as 0.0.0 |
| Semver.ReleaseIdentifies | pkg/agent/datamodel/versions.go:494 | two versions print the same major.minor exactly when both numbers agree |
| Versions.NotLaterIsTotal | pkg/agent/datamodel/versions.go:479-483 | the comparator of the sort is a total preorder on all strings |
| Versions.GetAllSupportedKubernetesVersions | pkg/agent/datamodel/versions.go:225-240 | in every map order: exactly the selected versions of the table, each once, ascending if no two tie |
| Versions.SupportedListIsUnique | pkg/agent/datamodel/versions.go:236-238 | without ties the ascending list is the only one |
| Versions.GetVersionsGt | pkg/agent/datamodel/versions.go:245-259 | the order-preserving filter by precedence above the bound |
| Versions.GetVersionsLt | pkg/agent/datamodel/versions.go:264-278 | the order-preserving filter by precedence below the bound |
| Versions.FilterCount | pkg/agent/datamodel/versions.go:245-278 | a filter keeps every occurrence of what it admits and nothing else |
| Versions.GtAndLtSplitTheList | pkg/agent/datamodel/versions.go:245-278 | with pre-releases on, exclusive above and inclusive below the same bound split the list as multisets |
| Versions.GeAndLessSplitTheList | pkg/agent/datamodel/versions.go:245-278 | and so do inclusive above and exclusive below |
| Versions.InclusiveAddsTies | pkg/agent/datamodel/versions.go:254-273 | inclusive adds exactly what ties with the bound |
| Versions.WithoutPreReleases | pkg/agent/datamodel/versions.go:251-271 | switching pre-releases off takes away the pre-releases and nothing else |
| Versions.RangeIs | pkg/agent/datamodel/versions.go:285-289 | the range by precedence; a pre-release as lower bound, not as upper, admits pre-releases |
| Versions.MatchesCount | pkg/agent/datamodel/versions.go:290-296 | the nested loops multiply multiplicities |
| Versions.GetVersionsBetween | pkg/agent/datamodel/versions.go:283-298 | a version in the range is returned k * k times for k occurrences, all others never; on a list without duplicates it is the range filter, in order |
| Versions.GetLatestPatchVersion | pkg/agent/datamodel/versions.go:486-507 | the loop computes the running best over the versions before the first that does not parse |
| Versions.LatestPatchIsLatest | pkg/agent/datamodel/versions.go:486-507 | the result is the greatest such version of the release, or "" exactly when there is none |
| Versions.LatestPatchIgnoresOrder | pkg/agent/datamodel/versions.go:486-507 | on parseable lists where nothing ties with the greatest version of the release, it depends on the members only |
| Versions.LatestIsOrderFreeIff | pkg/agent/datamodel/versions.go:486-507 | every permutation of a list gives the same result if and only if no version is of the release, or everything parses and nothing ties with the greatest one |
| Catalogue.MakeSupply | pkg/agent/datamodel/versions.go:364-371 | both lists come from one table |
| Catalogue.RationalizeReleaseAndVersion | pkg/agent/datamodel/versions.go:410-449 | default, latest patch, exact match or "", by which of release and version are given |
| Catalogue.GetValidPatchVersion | pkg/agent/datamodel/versions.go:374-407 | "" or a supported version; a supported one unchanged but for a leading "v"; for another version the greatest of its major.minor |
| Catalogue.CreateIsUpdatable | pkg/agent/datamodel/versions.go:231-235 | what is offered for new clusters is in the update list |
| Catalogue.TrimVIs | pkg/agent/datamodel/versions.go:412-413 | one leading "v" goes and nothing else |
| Catalogue.DefaultIsLatest | pkg/agent/datamodel/versions.go:201-207 | the default is the latest patch of the default release among the versions for new clusters |
| Catalogue.BothGiven | pkg/agent/datamodel/versions.go:438-448 | with a release and a version given, the version comes back exactly when it is supported and of that release, with or without a leading "v" |
| Catalogue.DefaultIsSupported | pkg/agent/datamodel/versions.go:201-207 | the default, computed without update versions, is in both lists or "" |
| Catalogue.ValidPatchIsSupported | pkg/agent/datamodel/versions.go:374-407 | the result is "" or a supported version |
| Catalogue.SupportedIsKept | pkg/agent/datamodel/versions.go:385-390 | a supported version comes back unchanged, one leading "v" dropped |
| Catalogue.FallbackIsGreatestPatch | pkg/agent/datamodel/versions.go:392-405 | an unsupported version is replaced by the greatest supported one of its major.minor, by "" exactly when there is none, among those before the first that does not parse |
| Catalogue.UnreadableGivesNothing | pkg/agent/datamodel/versions.go:393-396 | what is no version gives "", but for a supported version behind a "v", and for "" and "v", which give the default |
| Catalogue.ValidPatchIsIdempotentIff | pkg/agent/datamodel/versions.go:374-407 | asking again with a non-empty result gives the same result if and only if it does not start with "v", which no version that parses does |
| Catalogue.LeadingVIsIgnoredIff | pkg/agent/datamodel/versions.go:411-413 | a leading "v" makes no difference if and only if the version is empty, supported as it is, or has no fallback |
| StrictJson.CreateJSONFieldMap | pkg/aks-engine/api/strictjson.go:64-80 | the loops compute the map of all fields in order, and panic exactly when a type is no struct |
| StrictJson.FieldMapHas | pkg/aks-engine/api/strictjson.go:64-80 | a key is in the map exactly when some tag has it, in lower case |
| StrictJson.LastFieldCounts | pkg/aks-engine/api/strictjson.go:75-76 | of the fields with one key, in one type or in several, the last counts |
| StrictJson.TagKeyIgnoresOptions | pkg/aks-engine/api/strictjson.go:75-76 | what follows a comma in a tag does not count |
| StrictJson.AllFieldsHas | pkg/aks-engine/api/strictjson.go:68-71 | the fields of all types count |
| StrictJson.DecodedInto | pkg/aks-engine/api/strictjson.go:30-59 | objects below a struct field are decoded into its type, below a pointer field into what it points to, in a slice into the element type or what that points to |
| StrictJson.PointersDoNotMatter | pkg/aks-engine/api/strictjson.go:38-51 | a type with a slice of pointers accepts the same documents as with a slice of values |
| StrictJson.StrictByLevel | pkg/aks-engine/api/strictjson.go:23-62 | strictness of all reached objects unfolds by one level of the document |
| StrictJson.StrictByKey | pkg/aks-engine/api/strictjson.go:25-60 | and by one key at a time |
| StrictJson.CheckMapKeys | pkg/aks-engine/api/strictjson.go:23-62 | terminates on the document's depth also for cyclic types; in every map order nil exactly for strict documents; an error names a key of a reached object that its type does not declare; no panic when all objects are decoded into structs, and when no key offends a panic exactly if one is not |
| StrictJson.SliceOfMapsPanics | pkg/aks-engine/api/strictjson.go:38-51 | a document in which no key offends, with an object decoded into a map in a slice: every run panics |
| StrictJson.CheckMembers | pkg/aks-engine/api/strictjson.go:25-60 | the loop returns nil exactly when every member is good |
| StrictJson.CheckValue | pkg/aks-engine/api/strictjson.go:30-59 | descending through a struct, slice or pointer field checks exactly the objects below that key |

## Left out

- Go template execution, gzip, zip, base64, X.509 and PEM: library calls with no logic of the repository.
- The tables of versions, distributions, images and locations, and the translated kubelet flags: parameters.
- `IsKubeletConfigFileEnabled`: a boolean parameter.
- The regular expression that takes an array key apart: the parameter `arrayKey`.
- `strings.ToLower` in the key checker: the parameter `lower`.
- Merging into a property of an array element (`SetP` after `Index`) and plain paths, and how gabs resolves paths that collide: the model has the array's own elements only.
- `GetMinVersion`, `GetMaxVersion`, `IsValidMinVersion` and the other single look-ups of the catalogue: easy members.
- Files, processes and the network: a step succeeds or fails by choice (`Local`, `broken`), and a written file is an entry of a log or a list of lines.
- Cancellation by a signal: `run` never looks at the context.
- When a goroutine is scheduled for the first time: a worker that has not taken its first step.
- Shell word splitting, paths with newlines or a leading dash, lines that are half written, and `sed -i` replacing the file while cloud-init appends: commands and lines are atomic.
- Strings that are not valid UTF-8: strings are sequences of characters, and bytes appear in `Labels` only.
- Separators of more than one character in `Split` and `Join`: every call in the modelled code has one.
- JSON members whose value is neither a string nor null make decoding fail, as they do in Go; the kinds of failure are not told apart.
- How Go's `sort.Slice` arranges versions that tie: the comparator is then no strict order, and only the members of the list are stated.
- StrictJson.CheckMapKeys: with several offending keys, or with an offending key beside an object of a non-struct type, Go's map order decides which outcome is seen; the contract says what each outcome implies.
- SetFlags.CompositionIff: a part that ends inside a literal is not covered; the comma is then part of the value.
- SetFlags.RepeatedFlagsJoinIff: neither are flags, but for the last, that end inside a literal.
- Bindata.Restorer.RestoreAsset: a failing write may create directories or leave part of a file; `restored` logs whole files.
- Loops and branches that the source has in one function are sometimes methods of their own here (`FormatGates`, `KeysInSomeOrder`, `RestoreChild`, `FindVersion`, `SelectVersions`, `MatchLoops`, `AddFields`, `CheckMembers`, `CheckValue`, `RunCommands`, `Meanwhile`, `SelectionLoop`).
