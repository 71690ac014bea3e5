# maven-dependencies-checker, modelled in Dafny

The repository compares two snapshots of a project's dependencies. A
Gradle task (`task-for-gradle-android.kts`) walks every configuration of
every project. It keeps the higher of any two versions met for the same
`group:name`, using its own `compareVersions`, and writes the result as a
key-sorted `dependencies.json`. A browser page pastes two such files in
and parses them. It checks that each is a plain object, then lists:

- the dependencies added, removed and changed;
- the changes, classified as upgrade, downgrade or equal by a second,
  browser-side `compareVersions`.

A filter panel with seven switches narrows the lists, and a small store
remembers the last ten mvnrepository searches.

The model has one module per core file, plus three shared ones:

| module | file | models |
|---|---|---|
| `Wrappers` | `wrappers.dfy` | `Option`, and `Result`, whose failure carries the message of a thrown error |
| `Seqs` | `seqs.dfy` | `filter` and order-preserving subsequences |
| `Text` | `text.dfy` | decimal numerals, `split` on a set of separators (empty pieces kept) and its inverse |
| `DepMaps` | `dep_maps.dfy` | a dependency map: a sequence of `(key, version)` entries with distinct keys; its order is the JavaScript `for…in` order and the Kotlin `LinkedHashMap` insertion order |
| `VersionUtils` | `version_utils.dfy` | the browser `compareVersions` and its three display mappers |
| `Comparator` | `comparator.dfy` | `compareJsons` and `swapJsons`, with the component's fields as a class; the decoded JSON value as a datatype |
| `FilterSettings` | `filter_settings.dfy` | the `filters` record and the three presets, with the component as a class |
| `ComparisonResults` | `comparison_results.dfy` | the getters `filteredResults`, `hasVisibleChanges` and `activeFilters` |
| `Storage` | `storage.dfy` | the recent-search store over a `localStorage` slot, and `getDisplayName` |
| `GradleAggregator` | `gradle_aggregator.dfy` | the Kotlin `compareVersions` and `addDependency`, `sortedBy { it.key }`, and the `buildString` block writing `dependencies.json` |
| `JsonOutput` | `json_output.dfy` | the text of `dependencies.json` and a JSON reader for an object of strings (RFC 8259) |

Each core file takes the form of its source:

- Pure code is functions.
  - This covers `normalizeVersion`, the comparison loops of both `compareVersions`, and the filter getters.
  - It also covers `getDisplayName`.
- Code that updates state is classes with `modifies` and methods proved against those functions. The classes are:
  - `ComparatorComponent`, with `jsonOld`, `jsonNew`, `depsOld` and `depsNew`;
  - `FilterComponent`, with `filters`;
  - `RecentSearchStore`, a `localStorage` slot;
  - `Aggregator`, with `dependenciesMap`.
- Loops are `while` or `for` loops with invariants. These are the two `for…in` loops of `compareJsons`, the calls of `addDependency`, and the indexed `buildString` loop.
- The seven conditional pushes of `activeFilters` are seven `if` statements. Each is followed by the fact it establishes.

## Model

| member | source | states |
|---|---|---|
| VersionUtils.Clean | js/utils/version-utils.js:15 | what cleaning keeps is only ASCII digits, `.` and `-` |
| VersionUtils.CleanKeepsVersionChars | js/utils/version-utils.js:15 | a string made only of digits, `.` and `-` is left unchanged by cleaning |
| VersionUtils.CleanDropsOthers | js/utils/version-utils.js:15 | a string with none of those characters cleans to the empty string |
| VersionUtils.CleanAppend | js/utils/version-utils.js:15 | cleaning works character by character: it distributes over concatenation |
| VersionUtils.ParseInt | js/utils/version-utils.js:17 | `parseInt` is NaN exactly when the fragment does not start with a digit; on a numeral it is its decimal value |
| VersionUtils.DigitPrefix | js/utils/version-utils.js:17 | the digits `parseInt` reads are a digit-only prefix of the fragment, the whole of it for a numeral |
| VersionUtils.NormalizeFragments | js/utils/version-utils.js:14-20 | one token per fragment of the cleaned string split on `.`/`-`; every fragment is digits only (maybe empty) and its token is its decimal value (0 when empty) |
| VersionUtils.NormalizeLength | js/utils/version-utils.js:16 | the number of tokens is one more than the number of separators kept by cleaning |
| VersionUtils.NoVersionCharsIsZero | js/utils/version-utils.js:14-20 | a version with no digit, `.` or `-` (`""`, `"RELEASE"`) normalises to `[0]` |
| VersionUtils.NormalizeOfFragments | js/utils/version-utils.js:14-20 | digit fragments joined by separators normalise to their decimal values, one per fragment |
| VersionUtils.RenderRoundTrip | js/utils/version-utils.js:14-20 | every non-empty token sequence is the normalisation of its `.`-joined numerals, so normalisation reaches every sequence |
| VersionUtils.CompareMeaning | js/utils/version-utils.js:25-33 | `'up'` iff at the first position where the zero-padded sequences differ the first token is smaller, `'down'` iff it is larger, `'equal'` iff they agree everywhere |
| VersionUtils.CompareTokensUpIff | js/utils/version-utils.js:26-32 | the loop returns `'up'` iff some position has a smaller first token and equal tokens before it (both directions) |
| VersionUtils.CompareTokensEqualIff | js/utils/version-utils.js:26-33 | the loop falls through to `'equal'` iff the zero-padded sequences agree at every position |
| VersionUtils.CompareTokensFlip | js/utils/version-utils.js:30-31 | swapping the sequences turns `'up'` into `'down'` and back, and keeps `'equal'` |
| VersionUtils.CompareAntisymmetric | js/utils/version-utils.js:25-33 | `compareVersions(b,a)` is `compareVersions(a,b)` flipped: `'up'` iff the swap gives `'down'`, `'equal'` symmetric |
| VersionUtils.CompareReflexive | js/utils/version-utils.js:25-33 | every version compares `'equal'` with itself |
| VersionUtils.CompareTokensTransitive | js/utils/version-utils.js:26-32 | on token sequences, "not a downgrade" is transitive, and strictly so when either step is an upgrade |
| VersionUtils.CompareTransitive | js/utils/version-utils.js:25-33 | the same transitivity on version strings |
| VersionUtils.ZeroPaddedEqual | js/utils/version-utils.js:27-28 | trailing zero tokens never change the verdict: missing tokens count as 0 |
| VersionUtils.TrailingZeroIsEqual | js/utils/version-utils.js:15-28 | `v` and `v + ".0"` compare `'equal'` (`"1.0"` against `"1.0.0"`) |
| VersionUtils.QualifierSuffixIsEqual | js/utils/version-utils.js:15-28 | a `-qualifier` without digits, `.` or `-` compares `'equal'` with the bare version (`"1.0-alpha"` against `"1.0"`) |
| VersionUtils.NormalizeSnoc | js/utils/version-utils.js:14-20 | appending a separator and a separator-free tail appends exactly one token, the tail's value |
| VersionUtils.CompareThreeParts | js/utils/version-utils.js:14-33 | two three-part numeric versions compare as their three decimal values |
| VersionUtils.LastPartUpgrade | js/utils/version-utils.js:26-31 | with equal first two parts, a smaller last part is `'up'` (`"1.2.3"` against `"1.2.4"`) |
| VersionUtils.MiddlePartDecides | js/utils/version-utils.js:26-31 | a larger middle part is `'down'` whatever the last parts say, by value and not by text (`"1.10.0"` against `"1.2.0"`) |
| VersionUtils.GetVersionChangeType | js/utils/version-utils.js:42-49 | `UPDATE`, `DOWNGRADE`, `IGUAL` exactly for `'up'`, `'down'`, `'equal'` |
| VersionUtils.GetVersionBadgeClass | js/utils/version-utils.js:58-66 | the green, red and yellow badges exactly for `'up'`, `'down'`, `'equal'` |
| VersionUtils.GetVersionIcon | js/utils/version-utils.js:74-82 | `fa-arrow-up`, `fa-arrow-down`, `fa-equals` exactly for `'up'`, `'down'`, `'equal'` |
| VersionUtils.DisplaySwap | js/utils/version-utils.js:42-82 | swapping the versions swaps `UPDATE` and `DOWNGRADE` and the two arrows; only `IGUAL` is the same both ways |
| Text.Split | js/utils/version-utils.js:16 | `split` yields at least one piece and no piece contains a separator |
| Text.SplitThenInterleave | js/utils/version-utils.js:16 | rejoining the pieces with the separators met gives back the string: `split` loses nothing |
| Text.InterleaveThenSplit | js/utils/version-utils.js:16 | splitting separator-free pieces joined by separators gives back the pieces |
| Text.SplitAtSeparator | task-for-gradle-android.kts:77-78 | splitting `s + "." + t` is the pieces of `s` followed by those of `t` |
| Text.DecimalValueOfShowNat | js/utils/version-utils.js:17 | the decimal numeral of `n` reads back as `n` |
| Comparator.DiffDependencies | js/components/comparator.js:39-59 | the two `for…in` loops build exactly the diff: added and changed while walking new, removed while walking old |
| Comparator.MissingMembers | js/components/comparator.js:44-59 | an entry is listed as added (removed) iff it is in new (old) and its key is absent from the other side |
| Comparator.ChangesMembers | js/components/comparator.js:44-48 | a change is listed iff its key is in both maps with versions that differ under `!==`, carrying both versions |
| Comparator.MissingInOrder | js/components/comparator.js:44-59 | added and removed keep the key order of the map walked |
| Comparator.ChangesInOrder | js/components/comparator.js:44-48 | changed keeps the key order of the new map |
| Comparator.AddedKeys | js/components/comparator.js:44-51 | the keys added are exactly the keys of new minus those of old |
| Comparator.RemovedKeys | js/components/comparator.js:55-59 | the keys removed are exactly the keys of old minus those of new |
| Comparator.ChangedKeys | js/components/comparator.js:45-48 | the keys changed are exactly the shared keys whose versions differ |
| Comparator.DiffDistinct | js/components/comparator.js:39-59 | no key appears twice within a list |
| Comparator.DiffPartition | js/components/comparator.js:43-59 | no key is in two lists, and a key of either map is in no list iff both maps give it the same version |
| Comparator.SelfDiffIsEmpty | js/components/comparator.js:43-59 | a map compared with itself yields three empty lists |
| Comparator.SwapDiff | js/components/comparator.js:43-59 | swapping the inputs exchanges added and removed and reverses every change |
| Comparator.DiffExample | js/components/comparator.js:43-59 | a shared key with a new version, a key only in old and one only in new give one change, one removal and one addition |
| Comparator.CheckSide | js/components/comparator.js:19-36 | a side is accepted iff it parses to a plain object; a failure message starts with that side's prefix and carries the parse error |
| Comparator.ComparatorComponent.CompareJsons | js/components/comparator.js:18-60 | the outcome of parsing and checking old and then new; `depsOld`/`depsNew` hold what was parsed before any shape error, and the input texts stay |
| Comparator.ComparatorComponent.SwapJsons | js/components/comparator.js:74-77 | exchanges `jsonOld` and `jsonNew`, so doing it twice restores both; nothing else changes |
| Comparator.RejectionNamesSide | js/components/comparator.js:19-36 | the diff is produced iff both sides are plain objects; otherwise the rejection names old when old is bad, and new only when old is good |
| Comparator.OldFailureIgnoresNew | js/components/comparator.js:24-27 | when old is rejected the new input does not affect the outcome |
| Comparator.ShapeExamples | js/components/comparator.js:21-22 | an array, `null` and a number are rejected as the old input with the shape message |
| Comparator.ErrorPrefixesDiffer | js/components/comparator.js:25-35 | a message with one side's prefix never has the other side's |
| FilterSettings.FilterComponent.constructor | js/components/filter.js:8-16 | the initial switches: every `show*` on, `showOnlyExisting` off |
| FilterSettings.WithShows | js/components/filter.js:36-64 | a preset sets the five entry and direction switches to one value and `showEqual` to another; `showOnlyExisting` stays |
| FilterSettings.FilterComponent.SelectAllFilters | js/components/filter.js:36-44 | six assignments leave the state of `SelectAll` |
| FilterSettings.FilterComponent.DeselectAllFilters | js/components/filter.js:46-54 | six assignments leave the state of `DeselectAll` |
| FilterSettings.FilterComponent.SelectOnlyChanges | js/components/filter.js:56-64 | six assignments leave the state of `OnlyChanges` |
| FilterSettings.PresetsIdempotent | js/components/filter.js:36-64 | applying a preset twice is applying it once |
| FilterSettings.PresetsForgetShows | js/components/filter.js:36-64 | a preset's result depends on the prior state exactly through `showOnlyExisting` |
| FilterSettings.LastPresetWins | js/components/filter.js:36-64 | of two presets in a row, the second decides |
| FilterSettings.SelectAllOfInitial | js/components/filter.js:8-64 | "select all" keeps the initial state; "only changes" from it turns off exactly `showEqual` |
| ComparisonResults.FilteredResults | js/components/comparison-results.js:29-54 | an entry survives iff its master switch is on, it passes `showOnlyExisting`, and (changed only) the switch of its verdict is on |
| ComparisonResults.HasVisibleChanges | js/components/comparison-results.js:57-61 | true iff some entry passes every switch that applies to it |
| ComparisonResults.FilteredInOrder | js/components/comparison-results.js:35-53 | each filtered list is an order-preserving subsequence of its input |
| ComparisonResults.WidestFiltersShowAll | js/components/comparison-results.js:29-54 | with every `show*` on and `showOnlyExisting` off, the view is the whole diff |
| ComparisonResults.InitialShowsAll | js/components/comparison-results.js:29-61 | the initial panel shows the whole diff, and something is visible iff the diff is not empty |
| ComparisonResults.OnlyExistingHidesAdded | js/components/comparison-results.js:34-38 | restricted to existing dependencies, the view of a comparison lists no additions |
| ComparisonResults.MasterSwitchesEmpty | js/components/comparison-results.js:50-54 | a master switch turned off empties its list whatever the others say |
| ComparisonResults.DirectionsIgnoreAddedRemoved | js/components/comparison-results.js:40-48 | the three direction switches never affect added and removed |
| ComparisonResults.DeselectAllHidesEverything | js/components/comparison-results.js:29-61 | after "deselect all" nothing is visible |
| ComparisonResults.OnlyChangesHidesEqual | js/components/comparison-results.js:40-48 | after "only changes" the shown changes are exactly the non-equal changes passing `showOnlyExisting` |
| ComparisonResults.PickedInOrder | js/components/comparison-results.js:18-26 | the labels pushed come in the order of the switches |
| ComparisonResults.PickedMembers | js/components/comparison-results.js:18-26 | a label is pushed iff its switch restricts |
| ComparisonResults.PickedNone | js/components/comparison-results.js:18-26 | nothing is pushed iff no switch restricts |
| ComparisonResults.NoRestrictionIsInitial | js/components/comparison-results.js:19-25 | no switch restricts iff the panel is in its initial state |
| ComparisonResults.ActiveFilters | js/components/comparison-results.js:17-27 | the labels follow the fixed order starting with `Only Existing`; a label is present iff its switch restricts; the list is empty iff the panel is at its defaults |
| Storage.FindIndex | js/utils/storage.js:42 | `findIndex`: -1 iff no entry has the URL, otherwise the first index that has it |
| Storage.SpliceStart | js/utils/storage.js:44-66 | the start index of `splice`, with a negative start counted from the end and clamped to the list |
| Storage.AddRecent | js/utils/storage.js:38-56 | the new entry is first |
| Storage.RecentSearchStore.AddRecentSearch | js/utils/storage.js:38-56 | returns the list of `AddRecent` on the stored list, and stores that same list |
| Storage.RecentSearchStore.RemoveRecentSearch | js/utils/storage.js:64-69 | returns the stored list spliced at the index, and stores that same list |
| Storage.RecentSearchStore.ClearRecentSearches | js/utils/storage.js:74-76 | the slot is emptied, and afterwards `getRecentSearches` is `[]` |
| Storage.RecentSearchStore.GetRecentSearches | js/utils/storage.js:11-17 | an empty slot reads as `[]`, otherwise as the list stored |
| Storage.RecentSearchStore.SaveRecentSearches | js/utils/storage.js:24-30 | the slot holds the list given |
| Storage.AddRecentOrder | js/utils/storage.js:41-53 | the result is the new entry followed by the other entries in their old order, the oldest dropped when the list is full |
| Storage.AddRecentPrefix | js/utils/storage.js:42-53 | whatever the stored length, the new list is the new entry followed by a prefix of the other entries in their old order |
| Storage.AddRecentDistinct | js/utils/storage.js:42-48 | for any stored list with distinct URLs, the URLs stay distinct, and only the first entry has the URL added |
| Storage.AddRecentLength | js/utils/storage.js:48-53 | the length becomes min(n + 1, 10) for a new URL and stays n for a known one, so it never exceeds 10 |
| Storage.RemovedEntryLeavesOthers | js/utils/storage.js:42-45 | removing the entry found for the URL leaves exactly the other entries in order |
| Storage.RemoveInRange | js/utils/storage.js:64-69 | an index in range removes exactly that element and keeps the rest in order |
| Storage.RemoveOutOfRange | js/utils/storage.js:66 | a negative index counts from the end (the first element when too negative); an index past the end changes nothing |
| Storage.FirstMatch | js/utils/storage.js:84 | the regular expression matches iff it matches at some position of the URL |
| Storage.MatchOfPieces | js/utils/storage.js:84 | at the prefix, three `/`-free pieces match with the second and third captured |
| Storage.DisplayNameOfArtifactUrl | js/utils/storage.js:83-87 | for a URL with `https://mvnrepository.com/artifact/<g>/<a>/<v>` the display name is `<a>:<v>` |
| Storage.DisplayNameWithoutArtifact | js/utils/storage.js:83-89 | a URL where the pattern matches at no position is its own display name |
| Storage.RunLengthIsMaximal | js/utils/storage.js:84 | `[^/]+` takes the longest run without `/` |
| GradleAggregator.ToIntOrNull | task-for-gradle-android.kts:87-88 | a number is produced only inside the range of `Int` |
| GradleAggregator.ToIntOfShowNat | task-for-gradle-android.kts:87-88 | every numeral of an `Int` reads back as that number |
| GradleAggregator.ToIntNeedsDigits | task-for-gradle-android.kts:87-88 | a part with a non-digit after its first character (`1a`, `RC1`) is `null` |
| GradleAggregator.StrCompare | task-for-gradle-android.kts:96 | `compareTo` is 0 exactly for equal strings |
| GradleAggregator.StrCompareFlip | task-for-gradle-android.kts:96 | `compareTo` is antisymmetric |
| GradleAggregator.StrCompareTransitive | task-for-gradle-android.kts:96 | `compareTo` is a transitive strict order |
| GradleAggregator.PartCompare | task-for-gradle-android.kts:86-100 | one step: parts compare numerically when both are `Int`s, otherwise as strings |
| GradleAggregator.NumericPartsCompareByValue | task-for-gradle-android.kts:90-93 | two numerals in `Int` range compare by their values |
| GradleAggregator.PartCompareFlip | task-for-gradle-android.kts:86-100 | one step is antisymmetric |
| GradleAggregator.CompareFromFlip | task-for-gradle-android.kts:81-101 | the loop is antisymmetric |
| GradleAggregator.FirstDifferingPartDecides | task-for-gradle-android.kts:81-101 | when the parts before `k` tie and those at `k` do not, the loop returns the verdict of part `k` |
| GradleAggregator.ZeroPartsTie | task-for-gradle-android.kts:83-84 | a missing part counts as `"0"`: extra `"0"` parts tie |
| GradleAggregator.HigherVersion | task-for-gradle-android.kts:73-105 | the result is always one of the two arguments |
| GradleAggregator.HigherVersionRefl | task-for-gradle-android.kts:74 | `compareVersions(v, v)` is `v` |
| GradleAggregator.TrailingZeroPartWins | task-for-gradle-android.kts:103-104 | when every part ties the longer string wins, on either side (`"1.0"` against `"1.0.0"` gives `"1.0.0"`) |
| GradleAggregator.HigherVersionCommutes | task-for-gradle-android.kts:73-105 | the argument order matters iff the strings differ, have equal length and all their parts tie |
| GradleAggregator.OnePartVersions | task-for-gradle-android.kts:77-100 | two versions without `.` are decided by their single part |
| GradleAggregator.PartCompareExamples | task-for-gradle-android.kts:86-100 | `10` beats `9` by value, `9` beats `1a` and `1a` beats `10` as strings |
| GradleAggregator.HigherVersionIsNotTransitive | task-for-gradle-android.kts:73-105 | `compareVersions` is not an order: `10` beats `9`, `9` beats `1a`, and `1a` beats `10` |
| GradleAggregator.AddVersionNew | task-for-gradle-android.kts:120-121 | an absent key is appended with its version |
| GradleAggregator.AddVersionPresent | task-for-gradle-android.kts:112-119 | a present key ends with `compareVersions(existing, version)`, and the map is unchanged when that is the existing version |
| GradleAggregator.AddVersionOthers | task-for-gradle-android.kts:110-123 | every other key keeps its presence and its version |
| GradleAggregator.AddVersionKeys | task-for-gradle-android.kts:110-123 | the key set grows by exactly the key added |
| GradleAggregator.CollectKeys | task-for-gradle-android.kts:110-123 | after a run of `addDependency`, the keys are exactly those that were there plus those passed |
| GradleAggregator.CollectKeepsSeenVersions | task-for-gradle-android.kts:110-123 | the version kept for a key is one of the versions met for it |
| GradleAggregator.CollectSnoc | task-for-gradle-android.kts:110-123 | one more pair is one more `addDependency` |
| GradleAggregator.CollectOneKey | task-for-gradle-android.kts:110-123 | three versions of one key keep `compareVersions(compareVersions(a, b), c)` |
| GradleAggregator.KeptVersionDependsOnOrder | task-for-gradle-android.kts:110-123 | the same three versions met in two orders keep different versions (`1a` and `9`) |
| GradleAggregator.Aggregator.constructor | task-for-gradle-android.kts:67 | the map starts empty |
| GradleAggregator.Aggregator.AddDependency | task-for-gradle-android.kts:110-123 | the map becomes that of `AddVersion` on the old map |
| GradleAggregator.Aggregator.AddAll | task-for-gradle-android.kts:126-180 | after the pairs in order, the map is that of `Collect` on the old map |
| GradleAggregator.InsertByKey | task-for-gradle-android.kts:185 | insertion adds exactly the one entry (as a multiset) |
| GradleAggregator.SortByKey | task-for-gradle-android.kts:185 | sorting is a permutation of the entries |
| GradleAggregator.InsertKeepsAscending | task-for-gradle-android.kts:185 | inserting an entry with a new key into an ascending list keeps it ascending |
| GradleAggregator.SortByKeyAscending | task-for-gradle-android.kts:185 | `sortedBy { it.key }` on a map gives strictly ascending keys |
| GradleAggregator.Aggregator.DependenciesJson | task-for-gradle-android.kts:183-197 | the indexed loop writes exactly the text of the sorted entries, escaping only `"`: `{`, one line per entry with a comma on all but the last, `}` |
| GradleAggregator.LineStep | task-for-gradle-android.kts:186-195 | one turn of the loop writes exactly one line of the file |
| GradleAggregator.DependenciesFileReadsBack | task-for-gradle-android.kts:183-197 | the file as written lists every entry once, in ascending key order, and reads back as exactly those entries when no key or version holds `\` or a control character |
| JsonOutput.EscapeQuotes | task-for-gradle-android.kts:188-189 | escaping only `"` never shortens a string |
| JsonOutput.EscapeQuotesOnPlainText | task-for-gradle-android.kts:188-189 | without `\` or control characters, escaping only `"` is the full JSON escaping |
| JsonOutput.PlainLinesAgree | task-for-gradle-android.kts:186-194 | on entries without `\` or control characters, the member lines written with the task's escaping are the lines written with full escaping |
| JsonOutput.PlainTextReadsBack | task-for-gradle-android.kts:183-197 | the text as the task writes it reads back as exactly its entries, in order, when no key or version holds `\` or a control character |
| JsonOutput.BackslashKeyIsUnreadable | task-for-gradle-android.kts:188-190 | with only `"` escaped, the file for the key `\` with version `1` is not JSON |
| JsonOutput.EscapedQuoteSwallowsColon | task-for-gradle-android.kts:188-190 | an escaped quote does not close a key: the colon after it is read into the key |
| JsonOutput.UnreadableAfterBackslash | task-for-gradle-android.kts:184-190 | a member `"\": "1…` after `{`, so a key ending in `\`, leaves no readable object |
| JsonOutput.ReadEscaped | task-for-gradle-android.kts:188-190 | a string escaped for JSON and closed by `"` reads back as itself, with the rest untouched |
| JsonOutput.EscapeJsonReadsBack | task-for-gradle-android.kts:188-190 | full JSON escaping reads back for every string |
| JsonOutput.ReadLines | task-for-gradle-android.kts:186-196 | the member lines from entry `i` on, then `}`, read back as the entries from `i` on |
| JsonOutput.TextReadsBack | task-for-gradle-android.kts:183-197 | with an escaping that reads back, the text written reads back as exactly the entries written, in order |
| JsonOutput.JsonTextRoundTrip | task-for-gradle-android.kts:183-197 | with full JSON escaping, the written text reads back as exactly the entries written, in order |
| DepMaps.MemberIffGet | js/components/comparator.js:45-46 | an entry is in a map iff the map has the key and gives it that version |
| DepMaps.PutGet | task-for-gradle-android.kts:117-121 | after `map[key] = v`, `key` gives `v` and every other key is unchanged |
| DepMaps.PutOrder | task-for-gradle-android.kts:117-121 | assignment keeps a present key in its place and appends a new one at the end |
| Seqs.Filter | js/components/comparison-results.js:35-48 | `filter` keeps exactly the elements satisfying the predicate |
| Seqs.FilterCounts | js/components/comparison-results.js:35-48 | `filter` keeps each passing element exactly as often as it occurs and drops every other |
| Seqs.FilterInOrder | js/components/comparison-results.js:35-48 | `filter` keeps the order of the elements |

## Left out

- I/O and environment:
  - The Gradle traversal: `allprojects`, `configurations`, `resolve()` and swallowed exceptions (task-for-gradle-android.kts:126-180).
  - The dependencies the traversal yields in order come in as the `pairs` of `Aggregator.AddAll`.
  - Writing `dependencies.json`, and every `println`.
- `JSON.parse` is a parameter of `ComparatorComponent.CompareJsons`. A failure carries the exception's message. The dispatch of `comparison-completed` and the notifications become the returned `Outcome`.
- `swapJsons` dispatches `clear-comparison` and a notification. Neither is modelled.
- `localStorage`:
  - It is one optional slot holding the decoded list.
  - The `JSON.stringify`/`JSON.parse` encoding is not modelled.
  - Neither are the branch of `getRecentSearches` where parsing fails and storage errors.
- The DOM, Alpine events, `$watch` and the notification module are not modelled. Neither are the search, results, bridge and app components: they hold no logic beyond plumbing.
- Keys that shadow `Object.prototype` members are not modelled. A parsed object with its own key `hasOwnProperty` makes `this.depsOld.hasOwnProperty(key)` or `this.depsNew.hasOwnProperty(key)` throw a `TypeError` outside the `try` (js/components/comparator.js:44-56, js/components/comparison-results.js:35-37). `compareJsons` then dispatches nothing and shows no notification, where the model diffs the key as any other.
- JSON objects hold string values only. Other member values under `!==` are not modelled.
- JavaScript `for…in` puts integer-like keys first. The model iterates in sequence order, which is insertion order for every other key.
- `VersionUtils.ParseInt`: fragments are unbounded naturals. It does not model `parseInt` losing precision on very long digit strings.
- `GradleAggregator.ToIntOrNull`: it only reads ASCII digits. Kotlin also accepts other Unicode decimal digits.
- `GradleAggregator.StrCompare` compares `char` values. `compareTo` compares UTF-16 code units, which is the same except for characters outside the Basic Multilingual Plane.
- `GradleAggregator.HigherVersion` takes `length` as the number of characters. Kotlin counts UTF-16 code units, which differs only for characters outside the Basic Multilingual Plane.
- `JsonOutput.ReadString` reads `\u` escapes as single characters. It does not combine surrogate pairs.
- `GradleAggregator.DependenciesFileReadsBack` promises the read-back only for keys and versions without `\` or control characters. On others the file as written is not JSON (see "Findings"); full escaping, `EscapeJson`, is modelled beside it and proved to read back for every map.
- `GradleAggregator.SortByKey` only promises ascending keys and a permutation. It does not state that `sortedBy` is stable, because map keys are distinct.

## Findings

| source | as written | input that shows it | evidently intended | confidence | as-written member | corrected member |
|---|---|---|---|---|---|---|
| task-for-gradle-android.kts:188-189 | only `"` is escaped in keys and values; `\` and control characters are written raw | the key `\` with version `1` gives `"\": "1"`, where `\"` escapes the closing quote, so the file is not JSON | a `dependencies.json` that `JSON.parse` reads back as the map written (`\`, `"` and control characters escaped) | not executed | JsonOutput.EscapeQuotes / JsonOutput.BackslashKeyIsUnreadable | JsonOutput.EscapeJson / JsonOutput.JsonTextRoundTrip |
