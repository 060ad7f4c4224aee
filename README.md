# cloutnet graph engine in Dafny

This project models the core of cloutnet, a tool that looks at the accounts a few "seed"
Instagram users follow. The core turns raw "seed follows user" edges into a list of weighted,
anchor-tagged users. It then splits that list into three tiers and filters it for display:

- The **weight** of a followed user is the number of distinct seeds that follow it.
- Users below a minimum weight are dropped. The rest are sorted heaviest first.
- An **anchor** is a user whose weight reaches a threshold derived from the number of seeds.
- The clustering splits users into anchors, a high-weight tier (weight at least 2) and a long
  tail. Each tier is sorted stably by weight.
- Presentation filters on name, bio and follower count never change the classification.

Two pieces of self-contained logic sit next to the core, and both are modelled:

- the parser and validator of the seed text box;
- the saved-analysis store, whose records expire after seven days.

Modules, one per source file, plus shared helpers:

| module | file | models |
|---|---|---|
| `Types` | types.dfy | the records of lib/types.ts |
| `Collections` | collections.dfy | `Array.prototype.filter`, de-duplication, subsequences |
| `WeightOrder` | weight_order.dfy | the stable in-place sort by descending `seedWeight` |
| `Calculations` | calculations.dfy | lib/calculations.ts |
| `Graph` | graph.dfy | lib/graph.ts |
| `SeedInput` | seed_input.dfy | the validation body of `handleSubmit` in components/SeedInput.tsx |
| `Storage` | storage.dfy | lib/storage.ts |
| `Pipeline` | pipeline.dfy | how app/page.tsx chains the core, with a worked three-seed run |

The model follows the form of each function in the source:

- **Loops that mutate state are methods with loop invariants.** These are
  `computeSeedWeights`, the push loops of `filterBySeedWeight` and `clusterByWeight`,
  `countAnchorsFollowing`, and the in-place `sort`, which is an insertion sort over an `array`.
  Each method is proved equal to a recursive specification function, and the properties are
  lemmas about that function.
- **The JavaScript `Map` is a value** `WeightMap(order, entries)`. `order` keeps the key
  insertion order that `Map.entries()` iterates in.
- **`Array.prototype.sort` is stable** (ECMAScript 2019 onward), so the sort is specified as
  the stable non-increasing arrangement `WeightSorted`.
- **The store is a class.** The persisted list is a field of `AnalysisStore`, and save, load,
  delete and get are methods on it. The clock reading and the generated id are parameters.
- **Pure code is functions and lemmas.** This covers `markAnchors`, `applyFilters`, the seed
  parser and the list functions of the store.

Behaviour of the code worth noting:

- **`@` stripping.** `replace('@', '')` with a string pattern removes only the first `@` of an
  entry, at whatever position it stands (`SeedInput.RemoveFirstAtCutsFirst`).
- **Snapshot import cannot be reached.** app/page.tsx has an import handler, `handleImport`,
  which copies a saved record into the page state without validating it. The page passes it
  to `SeedInput` as `onImport`, but `SeedInput` neither declares nor calls that prop, so
  nothing invokes it. There is no serialise/restore pair.
- **`clusterByWeight` never reads its `anchorThreshold` argument.** The tiers follow from
  `isAnchor` alone. `highWeight` therefore lies in `[2, threshold - 1]` only for users marked
  with that same threshold (`Graph.MarkedClusterTiers`).

## Model

| member | source | states |
|---|---|---|
| Calculations.ComputeSeedWeights | lib/calculations.ts:3-18 | the loop leaves exactly the map of the recursive specification `SeedWeights` (invariant: the map of the edges seen so far) |
| Calculations.SeedWeightsOrder | lib/calculations.ts:6-15 | the keys, in insertion order, are the distinct followed users in order of first appearance; a name is a key iff some edge follows it |
| Calculations.SeedWeightsEntries | lib/calculations.ts:7-12 | each entry's seed list is the distinct seeds edging into the user, in order of first observation, and its weight is that list's length; a non-key has no edges into it |
| Calculations.SeedWeightsInvariant | lib/calculations.ts:6-15 | keys are exactly the followed users (a seed-only name is absent; no edges, empty map); `weight == \|seeds\|`; seeds repeat nothing; `s` is listed for `u` iff the edge (s, u) exists |
| Calculations.WeightIsDistinctSeedCount | lib/calculations.ts:9-12 | a user's weight is the number of distinct seeds with an edge into it |
| Calculations.RepeatedEdgeIsNoOp | lib/calculations.ts:9-13 | processing an edge already seen leaves the whole map unchanged |
| Calculations.SeedWeightsWellFormed | lib/calculations.ts:4-15 | the order list has no repeats and holds exactly the keys |
| Calculations.TargetsMembership | lib/calculations.ts:6-14 | the followed-user list holds exactly the users some edge points to |
| Calculations.SeedsIntoMembership | lib/calculations.ts:7-12 | the seeds recorded against `u` are exactly those with an edge (seed, u) |
| Calculations.RecordEdgeEntry | lib/calculations.ts:7-14 | one loop step keeps every entry equal to the distinct seeds seen so far and their count |
| Calculations.FilterBySeedWeight | lib/calculations.ts:20-38 | the push loop plus the sort return the stable weight-sorted list of the nodes of the kept entries, in map order |
| Calculations.FilterBySeedWeightSpec | lib/calculations.ts:26-37 | the result is sorted non-increasing; every node comes from an entry with `weight >= minWeight`, has `seedWeight == weight`, `followedBySeeds == seeds` and `isAnchor` false; every such entry gives exactly one node |
| Calculations.SelectedMembers | lib/calculations.ts:26-35 | every pushed node is the node of a key whose weight reaches the minimum |
| Calculations.SelectedCount | lib/calculations.ts:26-35 | a key is pushed once if its weight reaches the minimum and not at all otherwise |
| Calculations.AnchorThreshold | lib/calculations.ts:40-42 | the threshold is the least integer that is at least 3 and at least two fifths of the seed count, i.e. `max(3, ceil(0.4 n))` |
| Calculations.AnchorThresholdMonotone | lib/calculations.ts:40-42 | more seeds never lower the threshold |
| Calculations.AnchorThresholdForAdmittedSeeds | lib/calculations.ts:40-42 | for 1 to 7 seeds the threshold is 3, for 8 to 10 it is 4 |
| Calculations.CountAnchorsFollowing | lib/calculations.ts:44-58 | the counter loop returns the number of edges into `username` whose seed is in the anchor set |
| Calculations.AnchorEdgesMultiplicity | lib/calculations.ts:51-55 | each matching edge is counted as many times as it occurs in the edge list; a non-matching one never |
| Calculations.AnchorCountAtMostEdges | lib/calculations.ts:49-57 | the count never exceeds the number of edges |
| Calculations.NoAnchorsCountZero | lib/calculations.ts:49-57 | with an empty anchor set the count is 0 |
| Calculations.NonAnchorSeedsCountZero | lib/calculations.ts:49-57 | when no edge's seed is an anchor, nothing is counted, whatever the user |
| Calculations.DuplicateAnchorEdgeCountsAgain | lib/calculations.ts:51-55 | repeating an anchor edge raises the count by one, unlike the seed weight |
| WeightOrder.SortByWeight | lib/calculations.ts:37 | sorting the array in place leaves the stable non-increasing arrangement of its old contents |
| WeightOrder.InsertIntoPrefix | lib/graph.ts:25-31 | one insertion step moves an element behind the last element at least as heavy and shifts the lighter ones right |
| WeightOrder.SortedCopy | lib/graph.ts:28-30 | sorting a copy of a list returns its stable weight-sorted arrangement |
| WeightOrder.WeightSortedPermutes | lib/graph.ts:25-31 | sorting neither loses, adds nor duplicates an element |
| WeightOrder.WeightSortedIsSorted | lib/graph.ts:25-31 | the sorted list is non-increasing by weight |
| WeightOrder.WeightSortedIsStable | lib/graph.ts:25-31 | for every weight, the users of that weight keep their input order |
| WeightOrder.InsertKeepsSorted | lib/graph.ts:25 | inserting into a sorted list keeps it sorted |
| WeightOrder.InsertPermutes | lib/graph.ts:25 | inserting adds exactly the one element |
| WeightOrder.InsertWithWeight | lib/graph.ts:25 | inserting does not reorder any weight class and appends the element to its own class |
| WeightOrder.InsertLandsAt | lib/graph.ts:25 | the inserted element lands right behind the last element at least as heavy |
| WeightOrder.InsertPlaced | lib/graph.ts:25 | the array shape the shifting loop leaves is the specified insertion |
| Graph.MarkAnchors | lib/graph.ts:3-8 | same length and order; each user differs from its input only in `isAnchor`, which is `seedWeight >= threshold` |
| Graph.MarkAnchorsIdempotent | lib/graph.ts:3-8 | marking twice with one threshold is marking once |
| Graph.ClusterByWeight | lib/graph.ts:10-32 | the loop and the three sorts return each tier, in input order, stably sorted by weight; the result does not depend on the threshold argument |
| Graph.ClusterIsPartition | lib/graph.ts:15-23 | the three tiers together are a permutation of the input: every user lands in exactly one tier |
| Graph.ClusterTierMembership | lib/graph.ts:16-22 | anchors are the users with `isAnchor`, highWeight the others weighing at least 2, longTail the rest |
| Graph.ClusterTiersSortedStably | lib/graph.ts:25-31 | each tier is non-increasing by weight and keeps the input order of equal weights |
| Graph.MarkedClusterTiers | lib/graph.ts:3-22 | after marking with `t`, anchors weigh at least `t`, highWeight from 2 to `t - 1`, longTail below 2 |
| Graph.InTierMembers | lib/graph.ts:15-23 | a tier holds exactly the input users the loop pushes into it |
| Graph.InTierPartition | lib/graph.ts:15-23 | the three pushed lists together hold each input user as often as the input does |
| Graph.LongTailEmptyWhenHeavy | lib/graph.ts:18-22 | when every user weighs at least 2, the long tail is empty |
| Graph.ContainsIffOccurs | lib/graph.ts:46-51 | `includes` holds iff the keyword occurs as a contiguous slice at some position |
| Graph.Occurrence | lib/graph.ts:46-51 | when `includes` holds, it returns an offset at which the keyword occurs |
| Graph.OccurrenceIsContained | lib/graph.ts:46-51 | an occurrence at any offset makes `includes` hold |
| Graph.Lower | lib/graph.ts:45-46 | lower-casing keeps the length and maps every character through ASCII `toLowerCase` |
| Graph.ApplyFilters | lib/graph.ts:34-59 | the result is no longer than the input, and every user in it is an input user meeting every set condition |
| Graph.ApplyFiltersIsConjunction | lib/graph.ts:34-59 | the chain of filters is one filter by the conjunction: name keyword contained (when set), bio present and containing the bio keyword (when set), follower count, 0 when unknown, at most a positive ceiling |
| Graph.ApplyFiltersIsView | lib/graph.ts:42-58 | the result is a subsequence of the input and holds exactly the users meeting all three conditions |
| Graph.ApplyFiltersIdentity | lib/graph.ts:44-56 | with no or empty keywords and no positive ceiling the input is returned unchanged |
| Graph.UnknownFollowerCountPasses | lib/graph.ts:54-55 | a user with unknown follower count who meets the keyword conditions is kept, whatever `maxFollowers` is (absent, zero, negative or positive) |
| Graph.FilteredTiersKeepClassification | lib/graph.ts:34-59 | filtering a tier never changes who is an anchor: what remains are users of that tier, unchanged |
| SeedInput.Split | components/SeedInput.tsx:19 | at least one piece; no piece holds a newline or comma |
| SeedInput.SplitJoinRoundTrip | components/SeedInput.tsx:19 | the cuts fall exactly at the separators: pieces joined with one separator split back into the same pieces |
| SeedInput.SplitCollapsesRuns | components/SeedInput.tsx:19 | a run of two separators cuts exactly like one |
| SeedInput.SplitAfterPlain | components/SeedInput.tsx:19 | text without separators in front of a string becomes part of its first piece |
| SeedInput.PieceThenSeparator | components/SeedInput.tsx:19 | a piece followed by one separator, then text or nothing, is cut off whole |
| SeedInput.SplitKeepsText | components/SeedInput.tsx:19 | the pieces, glued together, are the input without its separators |
| SeedInput.SplitInnerPiecesNonEmpty | components/SeedInput.tsx:19 | a whole run of separators splits once: only the first and last piece can be empty |
| SeedInput.TrimStart | components/SeedInput.tsx:20 | the result is the suffix after the leading white space, and starts with none |
| SeedInput.TrimEnd | components/SeedInput.tsx:20 | the result is the prefix before the trailing white space, and ends with none |
| SeedInput.Trim | components/SeedInput.tsx:20 | `trim` never lengthens the piece, and neither end of its result is white space |
| SeedInput.TrimIsSlice | components/SeedInput.tsx:20 | `trim` yields a slice of the piece, and everything it cuts off is white space |
| SeedInput.FirstAt | components/SeedInput.tsx:20 | the index of the first `@`, or the length when there is none |
| SeedInput.RemoveFirstAt | components/SeedInput.tsx:20 | `replace('@', '')` shortens the entry by one exactly when it holds an `@`, leaves it unchanged otherwise, and adds no character |
| SeedInput.RemoveFirstAtCutsFirst | components/SeedInput.tsx:20 | `replace('@', '')` removes the first `@` wherever it is, and nothing else |
| SeedInput.RemoveFirstAtCutsAt | components/SeedInput.tsx:20 | with an `@` present, the result is the entry with the character at the first `@` taken out |
| SeedInput.Clean | components/SeedInput.tsx:20 | `u.trim().replace('@', '')` never lengthens the piece |
| SeedInput.CleanKeepsPlain | components/SeedInput.tsx:20 | cleaning a piece without separators yields none |
| SeedInput.CleanKeepsWellFormed | components/SeedInput.tsx:20 | a name matching the pattern comes out of cleaning unchanged |
| SeedInput.ParsedEntries | components/SeedInput.tsx:20-21 | from a list of pieces, an entry is kept iff it is non-empty and is the trimmed, `@`-stripped form of some piece |
| SeedInput.ParsedArePlain | components/SeedInput.tsx:20-21 | at most one entry per piece; every entry is non-empty and, coming from pieces without separators, holds none |
| SeedInput.ParseUsernames | components/SeedInput.tsx:18-21 | the parsed entries of the text box: at most one per split piece, none empty, none holding a newline or comma |
| SeedInput.ParseJoined | components/SeedInput.tsx:18-21 | well-formed names joined by one newline or comma parse back into exactly that list |
| SeedInput.Validate | components/SeedInput.tsx:18-41 | a submission reaches `onSubmit` only with 1 to 10 entries, each matching `^[a-zA-Z0-9._]+$` |
| SeedInput.ValidateJoined | components/SeedInput.tsx:18-41 | 1 to 10 well-formed names joined by one separator are submitted as exactly that list |
| SeedInput.Check | components/SeedInput.tsx:23-41 | no entries gives the "at least 1" error, more than 10 the "Maximum 10" error; the format error lists exactly the malformed entries; submitted entries are the parsed ones |
| SeedInput.SubmittedIffValid | components/SeedInput.tsx:23-41 | `onSubmit` is reached iff there are 1 to 10 entries and every one matches `^[a-zA-Z0-9._]+$` |
| SeedInput.SubmittedEntries | components/SeedInput.tsx:23-41 | a submitted list has 1 to 10 entries, each well formed and free of `@`, commas and spaces, and its threshold is 3 or 4 |
| SeedInput.CheckMessages | components/SeedInput.tsx:23-39 | the error shown is "Please enter at least 1 username" for no entries, "Maximum 10 usernames allowed" for more than 10, and otherwise "Invalid username format: " followed by the malformed entries joined with ", " |
| SeedInput.Join | components/SeedInput.tsx:37 | `join` of no parts is empty, of one part is that part, and otherwise starts with the first part |
| SeedInput.JoinSnoc | components/SeedInput.tsx:37 | joining one more part appends the separator and then that part, so every part after the first is listed, each behind a separator |
| SeedInput.JoinShowsEveryPart | components/SeedInput.tsx:37 | every part occurs, whole, as a slice of the joined text |
| SeedInput.MessageShowsEveryInvalid | components/SeedInput.tsx:33-37 | the format message starts with "Invalid username format: " and every malformed entry occurs in it, whole |
| SeedInput.InvalidFormatMessageExample | components/SeedInput.tsx:33-37 | for entries `ok`, `a b`, `x-y` the error is the format error listing `a b` and `x-y`, shown as "Invalid username format: a b, x-y" |
| SeedInput.InvalidFormatListsAll | components/SeedInput.tsx:33-39 | the format error lists every entry failing the pattern, in input order, and no other |
| SeedInput.CountCheckedBeforeFormat | components/SeedInput.tsx:23-36 | more than 10 entries report the count error whatever their format |
| SeedInput.WellFormedIsPlain | components/SeedInput.tsx:34 | a well-formed entry holds no white space, separator or `@` |
| SeedInput.NoMalformedIffAllWellFormed | components/SeedInput.tsx:33-36 | the invalid list is empty iff every entry is well formed |
| Storage.FindById | lib/storage.ts:89-92 | `find` returns none iff no record has the id, and otherwise the first record that has it |
| Storage.AnalysisStore.LoadAnalyses | lib/storage.ts:57-78 | returns the live records of a readable list, none for a missing or unreadable one; rewrites the store only when a record was pruned |
| Storage.AnalysisStore.SaveAnalysis | lib/storage.ts:6-27 | the store becomes the new record, stamped `now`, followed by the live records of before |
| Storage.AnalysisStore.DeleteAnalysis | lib/storage.ts:80-87 | the store becomes the live records of before without those of the id |
| Storage.AnalysisStore.GetAnalysis | lib/storage.ts:89-92 | returns the first live record with the id, pruning the store as a load does |
| Storage.ExpiryBoundary | lib/storage.ts:4 | `MAX_AGE_MS` is 604800000; `IsLive` holds one millisecond before that age, fails at it, and holds at every moment up to the record's own timestamp |
| Storage.AfterLoad | lib/storage.ts:57-78 | the value after a load reads as the live records of before, and it is a stored list iff it was one before |
| Storage.AfterSave | lib/storage.ts:6-27 | the value after a save is a stored list holding exactly the new record and the live records of before |
| Storage.AfterDelete | lib/storage.ts:80-87 | the value after a delete is a stored list holding exactly the live records of before whose id differs |
| Storage.UnexpiredIsLiveSubsequence | lib/storage.ts:64-67 | a load keeps exactly the records with `now - timestamp < 604800000`, in stored order |
| Storage.LoadRewritesOnlyWhenPruned | lib/storage.ts:61-73 | a load changes the store iff it holds a list with an expired record; what it returns is the live part |
| Storage.LoadIsIdempotent | lib/storage.ts:57-78 | a second load at the same moment changes nothing and returns the same records |
| Storage.PruningIsMonotone | lib/storage.ts:67 | pruning at one moment and then at a later one is pruning at the later one |
| Storage.SaveShape | lib/storage.ts:14-26 | after a save the first record carries exactly the given id, seeds, edges, results and threshold with timestamp `now`, and the rest is the live records of before |
| Storage.SaveThenGet | lib/storage.ts:6-27 | a record just saved is found by its id until seven days have passed |
| Storage.DeleteThenGet | lib/storage.ts:80-92 | after a delete the id is not found; the other live records stay, in order |
| Pipeline.MarkedCandidatesWeigh | app/page.tsx:96-141 | every user the page marks weighs at least the minimum weight it filtered with |
| Pipeline.LongTailUnreachable | app/page.tsx:96-141 | with the page's minimum weight 2, the long tail of the clustered results is always empty |
| Pipeline.ExampleWeights | lib/calculations.ts:3-18 | for edges a→x, b→x, c→x, a→y, b→y, a→z: x has weight 3 (a, b, c), y 2 (a, b), z 1 (a); the threshold for 3 seeds is 3; no edge into y comes from x |
| Pipeline.ExampleClusters | lib/graph.ts:10-32 | in that run the weight filter keeps [x, y]; with threshold 3 the anchors are [x], highWeight [y], longTail empty |

## Left out

- lib/apify.ts and app/actions.ts are not part of this model. They are network calls to the
  scraping service, with loosely typed response probing and timed polling.
- The orchestration in app/page.tsx is not modelled: phases, React state, the empty-result
  error, and the profile enrichment. `Pipeline` only states what the chained core functions
  guarantee.
- All rendering components are not part of this model. This includes FilterControls.tsx,
  with its debounce and `parseInt`, and everything in SeedInput.tsx outside the validation
  body.
- `localStorage`, JSON serialisation, the `typeof window` guard, `exportAnalysis` (Blob, object
  URLs, DOM) and `generateId` (`Date.now()`, `Math.random()`) are left out. The persisted text
  is the `StoredValue` field. The id and the clock reading are parameters.
- `Unreadable` stands for stored text that does not parse, or parses to something that is
  not an array (or is an array holding `null`). In the source, `JSON.parse` or `filter` then throws and the
  `catch` returns an empty list. Records are assumed to be well typed, so an array holding
  other values is not modelled. In the source such values have no numeric `timestamp`, so
  each is pruned and the store is rewritten without them.
- Storage.AnalysisStore.SaveAnalysis: the source calls `Date.now()` twice, once for the
  timestamp and once inside the load. The model uses one `now` for both.
- Calculations.AnchorThreshold: the float expression `Math.ceil(seedCount * 0.4)` is modelled
  as the exact integer ceiling of `2n/5`. Float rounding of `0.4 * n` is not modelled. The two
  agree for the 1 to 10 seeds the validator admits.
- Graph.Lower: `toLowerCase` is ASCII lower-casing. Unicode case mapping is not modelled.
- `Graph.IsSet` keeps the JavaScript truthiness: an absent or empty keyword is no filter. A
  `NaN` follower ceiling or follower count is not modelled.
- Calculations.ComputeSeedWeights: the loop updates each map entry in place. The model
  replaces the entry by an updated value. The model also does not capture that the nodes
  built by `filterBySeedWeight` share their `followedBySeeds` array with the map entries.
- `handleImport` in app/page.tsx is left out with the rest of that file. It validates nothing,
  and nothing can call it. There is no serialise/restore pair to model.
