# Recruitment calculator core, modelled in Dafny

This project models the client-side recruitment engine of Civilight Eterna, a
recruitment calculator for Arknights. The player ticks up to five recruitment
tags. The page fetches the operators of the tags it has not fetched yet and
caches them by id. It then shows one section per selected tag and one per
combination of two or more selected tags. A section lists the cached operators
that carry all of its tags, ordered by rarity (highest first) and then by name.
The sections are sorted with a fixed comparator, and two toggles can hide
"common" and "robot-only" sections. The project also models the generic record
filter `filterOperators`.

Modules:

- `Sequences`, `Maybe`, `Ordering`: subsequences, duplicate-freedom, an option
  type, the code-point order on strings and a stable insertion sort. The sort
  stands for `Array.prototype.sort`.
- `Selection`: the tag selection, kept as a set in insertion order, the cap
  `maxTags`, and the disabled state `updateTagsState` gives each tag.
- `TagCatalog`: `TAG_CATEGORIES` and the categorising loop of `populateTags`.
  It is an imperative method proved against a per-category bucket function.
- `Combinations`: the bitmask enumeration of tag combinations and its count,
  2^n − n − 1.
- `Sections`: section keys (`getSectionKey`), membership and member order
  (`createSectionContent`), the rarity flags (`createSection`), the hide rule
  (`updateVisibility`) and the comparator (`compareSections`).
- `Fetching`: the fetch gap of `updateOperators`, the operator cache keyed by
  id, and the rollback after a failed request.
- `Reconciliation`: what `displayResults` computes, as functions. This covers
  the required sections, how the section cache `currentSections` fills up, and
  how the result container is reconciled and sorted.
- `Session`: the loops of `updateOperators` and `displayResults` as methods,
  each proved against the function that specifies it. It also holds the class
  `RecruitmentSession`, whose fields are the page state (`selectedTags`,
  `fetchedTags`, `cachedOperators`, `currentSections`, the container's
  children, the two toggles), and the change handlers that update it.
- `Recruitment`: `filterOperators`.

The outcome of the network request is a parameter of the handlers: a list of
operators, or a failure. The DOM container is the field `rendered`, a sequence
of section values in document order. Every section is created once and never
changes afterwards. Its two rarity flags are therefore functions of its members
(`RarityCommon`, `OnlyRarityRobot`) rather than stored fields.

Facts of the code that shape the model:

- Deselecting a tag leaves it in `fetchedTags`
  (public/static/src/script.js:271-272).
- Members are sorted by rarity, highest first, then by name (script.js:666).
- The Specialization bucket keeps the catalogue order (script.js:111-113).
- Categories come from three fixed id lists (script.js:19-24).
- `currentSections` only grows; only container children are removed
  (script.js:518-524).
- A section's members are the cached operators whose `tags` include every
  section tag (script.js:659-665).
- In `filterOperators`, a condition on `tagList` or `powers` calls the
  field's own `includes`: an array is searched for the value, a string for
  the value's text, and a number or boolean throws a `TypeError`
  (recruitment.js:15-26, 38-41).

## Model

| member | source | states |
|---|---|---|
| Selection.Add | public/static/src/script.js:264-266 | `selectedTags.add`: the new selection holds exactly the old tags and `id`, keeps the old ones in order, and stays duplicate-free |
| Selection.Delete | public/static/src/script.js:271-272 | `selectedTags.delete`: exactly `id` is gone and the other tags keep their order |
| Selection.DeleteUndoesAdd | public/static/src/script.js:264-272 | unchecking a tag that was just checked restores the selection exactly |
| Selection.TagDisabled | public/static/src/script.js:386-397 | a checked tag is never disabled; an unchecked tag is disabled iff `maxTags` (5) tags are selected (partners: `EnabledIffFits`, `LastPlaceDisablesRest`, `UncheckEnablesAll`) |
| Selection.EnabledIffFits | public/static/src/script.js:264-269 | an unchecked tag is shown enabled exactly when checking it keeps the selection within `maxTags`, which is when the change handler accepts it |
| Selection.LastPlaceDisablesRest | public/static/src/script.js:386-397 | checking the tag that fills the fifth place disables every tag left unchecked |
| Selection.UncheckEnablesAll | public/static/src/script.js:386-397 | after unchecking a selected tag no tag is disabled |
| Selection.DeleteLength | public/static/src/script.js:271-272 | deleting a selected tag shortens the duplicate-free selection by exactly one |
| TagCatalog.Bucket | public/static/src/script.js:100-114 | a category's list is a subsequence of the catalogue (input order kept) holding exactly its non-gender tags of that category |
| TagCatalog.Categorize | public/static/src/script.js:92-114 | the categorising loop yields the four categories, each holding exactly its bucket |
| TagCatalog.PushListed | public/static/src/script.js:102-109 | the inner `for…in` loop pushes the tag onto the first category whose list holds it, and reports whether one did |
| TagCatalog.PushBucket | public/static/src/script.js:100-113 | one tag preserves the bucket invariant: gender tags are skipped, others go to their category |
| TagCatalog.CategoryOfListed | public/static/src/script.js:19-24 | a tag is Qualification, Position or Class iff that id list holds it, otherwise Specialization |
| TagCatalog.BucketsPartition | public/static/src/script.js:100-114 | the four buckets together hold every shown tag exactly as often as the catalogue does, and no gender tag |
| Combinations.Pick | public/static/src/script.js:499 | the tags a mask picks form a subsequence of the selection, in selection order |
| Combinations.CombinationsBetween | public/static/src/script.js:498-500 | every combination kept has two tags or more and is a subsequence of the selection |
| Combinations.CombinationsBetweenMasks | public/static/src/script.js:498-499 | every combination is what some mask in the range picks |
| Combinations.PickEmptyOnlyForZero | public/static/src/script.js:498-499 | below 2^n only mask 0 picks no tag |
| Combinations.CombinationCount | public/static/src/script.js:497-500 | n selected tags yield exactly 2^n − n − 1 combinations |
| Combinations.CombinationBound | public/static/src/script.js:7 | with at most 5 tags: at most 26 combinations and 31 sections |
| Combinations.PicksDistinct | public/static/src/script.js:499 | two different masks below 2^n pick different tag lists from a duplicate-free selection |
| Combinations.CombinationsDistinct | public/static/src/script.js:497-500 | the combinations of a duplicate-free selection are pairwise different |
| Combinations.MaskOf | public/static/src/script.js:499 | every subsequence of the selection is what some mask below 2^n picks |
| Combinations.MaskInRange | public/static/src/script.js:498-500 | a mask in the range picking two tags or more contributes its pick |
| Combinations.CombinationsComplete | public/static/src/script.js:497-500 | a list is a combination iff it is a subsequence of the selection with two tags or more |
| Ordering.LexLeIsTotalOrder | public/static/src/script.js:407 | the code-point order standing for `sort()` (equal to its code-unit order on text within the Basic Multilingual Plane) is total, transitive and antisymmetric |
| Ordering.SortBySorted | public/static/src/script.js:535 | the stable sort's output is sorted by the comparator (and, by `SortBy`'s contract, a permutation) |
| Ordering.SortByOfSorted | public/static/src/script.js:535 | sorting an already sorted list leaves it unchanged (stability) |
| Ordering.SortByPermutationInvariant | public/static/src/script.js:407 | under a total order, any two orderings of the same items sort to the same list |
| Sections.KeyOfSingle | public/static/src/script.js:406-408 | the key of a one-name title is the name, the same as `getSectionKey` on a scalar |
| Sections.KeyPermutationInvariant | public/static/src/script.js:406-408 | any permutation of the same names gives the same key |
| Sections.KeyOfSorted | public/static/src/script.js:406-408 | the key of an already sorted title is its parts joined by `-` |
| Sections.JoinInjective | public/static/src/script.js:407 | joining dash-free names with `-` loses nothing |
| Sections.KeyIdentifiesNames | public/static/src/script.js:406-408 | for dash-free names, two titles share a key iff they hold the same names |
| Sections.Matching | public/static/src/script.js:659-665 | the filter keeps cache order and exactly the operators with every section tag and (`allowRarity6` or rarity < 6) |
| Sections.MatchingCounts | public/static/src/script.js:659-665 | each qualifying operator is kept as often as it is cached |
| Sections.MemberLeIsTotalPreorder | public/static/src/script.js:666 | the member comparator (rarity descending, then name) is total and transitive |
| Sections.MembersSpec | public/static/src/script.js:659-666 | members are exactly the qualifying operators, with multiplicity, ordered by rarity descending and then by name |
| Sections.RarityCapOfSection | public/static/src/script.js:664 | a rarity-6 member only appears where rarity 6 is allowed |
| Sections.Rarities | public/static/src/script.js:579 | the distinct rarity set holds exactly the members' rarities |
| Sections.RarityCommon | public/static/src/script.js:580 | the flag is true iff some member has rarity 2 or 3 |
| Sections.OnlyRarityRobot | public/static/src/script.js:581 | the flag is true iff there are members and all have rarity 1 (distinct set = {1}) |
| Sections.FlagsExclusive | public/static/src/script.js:580-581 | no section is both common and robot-only |
| Sections.CreateSection | public/static/src/script.js:558-562 | a created section carries the key of its title, its title and its tag ids |
| Sections.CreateSectionSpec | public/static/src/script.js:568-573 | `createSection` returns `null` iff no cached operator qualifies; otherwise its members are exactly the qualifying ones |
| Sections.Hidden | public/static/src/script.js:742-752 | a section is hidden iff (common toggle and a member of rarity 2 or 3) or (robot toggle and all of at least one member have rarity 1) |
| Sections.HiddenOnlyByToggles | public/static/src/script.js:742-752 | with both toggles off nothing is hidden; a section of rarities ≥ 4 is never hidden |
| Sections.CompareSectionsByRank | public/static/src/script.js:542-556 | the comparator's sign is the lexicographic comparison of (single/multi rarity group, −rarity, member count) |
| Sections.CompareSectionsAntisymmetric | public/static/src/script.js:542-556 | `compareSections(a, b)` and `compareSections(b, a)` have opposite signs |
| Sections.SectionLeIsTotalPreorder | public/static/src/script.js:542-556 | the comparator is total and transitive, so the sort is well defined |
| Sections.SortedSectionsOrder | public/static/src/script.js:534-556 | in the sorted container, single-rarity sections come before multi-rarity ones and higher rarity first; otherwise fewer members first |
| Fetching.Missing | public/static/src/script.js:414-421 | `missingTags` is exactly the selected, unfetched tags in selection order |
| Fetching.RemoveAll | public/static/src/script.js:431-438 | the rollback deletes exactly the missing tags and keeps the others in order |
| Fetching.RollbackLeavesFetched | public/static/src/script.js:429-439 | after a failed request the selection is exactly its fetched tags |
| Fetching.RollbackRestores | public/static/src/script.js:264-275 | a failed request for one newly checked tag restores the earlier selection |
| Fetching.Lookup | public/static/src/script.js:14 | `Map.get` by id finds a cached record with that id, or none iff no record has it |
| Fetching.Upsert | public/static/src/script.js:443 | `Map.set` keeps ids unique, holds the new record, and keeps every record of another id |
| Fetching.UpsertLookup | public/static/src/script.js:443 | after `set`, `get` gives the new record for its id and the old entry for every other id |
| Fetching.StoreAll | public/static/src/script.js:443 | storing a response keeps ids unique |
| Fetching.StoreAllLookup | public/static/src/script.js:443 | after storing a response, an id it carries maps to its last record there; other ids are unchanged |
| Fetching.AfterRequest | public/static/src/script.js:410-457 | after `updateOperators` every selected tag is fetched. It renders iff nothing was missing or the request succeeded; then the selection is unchanged. A failure leaves the caches alone and keeps every fetched tag selected |
| Fetching.NoRequest | public/static/src/script.js:424 | with every selected tag fetched, no request is made and the sections are rendered |
| Fetching.FailedRequestRestores | public/static/src/script.js:429-439 | a failed request for one new tag restores the selection and renders nothing |
| Fetching.SuccessfulRequestStores | public/static/src/script.js:443-446 | a successful request for one new tag caches the response and marks that tag fetched |
| Reconciliation.FindTag | public/static/src/script.js:482 | `allTags.find` returns a loaded tag with the given id |
| Reconciliation.RequiredConsistent | public/static/src/script.js:481-504 | each required section's map key equals the key `createSection` stamps on it |
| Reconciliation.FillCacheKeys | public/static/src/script.js:484-515 | filling `currentSections` adds exactly the keys asked for |
| Reconciliation.FillCacheReuses | public/static/src/script.js:484-493 | a key already cached keeps its value, `null` included; it is never rebuilt |
| Reconciliation.FillCacheCreates | public/static/src/script.js:484-492 | a new key gets the section built for the first entry that asks for it |
| Reconciliation.FillCacheStable | public/static/src/script.js:484-515 | once every key is cached, asking again changes nothing |
| Reconciliation.FillCacheIdempotent | public/static/src/script.js:481-516 | filling twice is filling once |
| Reconciliation.FillCacheConsistent | public/static/src/script.js:484-515 | every cached section keeps carrying its own key |
| Reconciliation.Dedup | public/static/src/script.js:478 | `newSections` holds each asked key once, and its keys form a subsequence of the keys asked for |
| Reconciliation.DedupOrder | public/static/src/script.js:493-515 | the keys of `newSections` come in the order of their first `set` |
| Reconciliation.KeepRequired | public/static/src/script.js:518-524 | exactly the children whose key is required stay, in document order |
| Reconciliation.AppendMissingSpec | public/static/src/script.js:527-531 | after appending, the container holds the kept children plus the non-null required sections, each once and each the cached section of its key |
| Reconciliation.ReconcileSpec | public/static/src/script.js:518-536 | the container shows exactly the non-null required sections, each once, sorted; a still-required child is kept, not rebuilt |
| Reconciliation.ReconcileIdempotent | public/static/src/script.js:518-536 | reconciling an already reconciled container changes nothing |
| Reconciliation.RequiredEmpty | public/static/src/script.js:467-470 | the empty selection requires no section |
| Reconciliation.DisplayShows | public/static/src/script.js:462-536 | one `displayResults` leaves cache and container coherent, showing exactly the required sections; it evicts and rebuilds nothing, adds only required keys and keeps still-required children |
| Reconciliation.FillShows | public/static/src/script.js:481-536 | filling with consistent entries and reconciling shows exactly the non-null sections of their keys |
| Reconciliation.FillKeepsChildren | public/static/src/script.js:484-515 | filling keeps every child the cached section of its key |
| Session.CollectMissing | public/static/src/script.js:414-421 | the collecting loop computes `Missing` |
| Session.RollBack | public/static/src/script.js:431-438 | the rollback loop computes `RemoveAll` |
| Session.StoreOperators | public/static/src/script.js:443 | the storing loop computes `StoreAll` |
| Session.MarkFetched | public/static/src/script.js:446 | the marking loop adds exactly the missing tags to `fetchedTags` |
| Session.SendRequest | public/static/src/script.js:410-447 | `updateOperators` up to rendering computes `AfterRequest` |
| Session.FillSingles | public/static/src/script.js:481-494 | the single-tag loop fills the cache with the single entries and builds `newSections`' key order |
| Session.FillCombinations | public/static/src/script.js:497-516 | the mask loop fills the cache with all required entries and completes `newSections`' key order |
| Session.RemoveStale | public/static/src/script.js:518-524 | the removal loop computes `KeepRequired` |
| Session.AppendSections | public/static/src/script.js:527-531 | the append loop computes `AppendMissing` |
| Session.Redisplay | public/static/src/script.js:462-536 | the body of `displayResults` computes `Display` |
| Session.Refresh | public/static/src/script.js:462-536 | a run computes `Display`; from a coherent state it refreshes cache and container for the required sections |
| Session.RecruitmentSession.constructor | public/static/src/script.js:8-15 | the initial state: empty selection, caches and container, toggles from storage; the invariant holds |
| Session.RecruitmentSession.TagDisabled | public/static/src/script.js:386-397 | a tag is disabled iff it is unchecked and the selection is full; `Check` refuses an unselected tag exactly when this reports it disabled |
| Session.RecruitmentSession.IsHidden | public/static/src/script.js:742-752 | with both toggles off nothing is hidden; a hidden section has members |
| Session.RecruitmentSession.SetHideCommon | public/static/src/script.js:785-789 | the common toggle changes and nothing else |
| Session.RecruitmentSession.SetHideRobot | public/static/src/script.js:791-795 | the robot toggle changes and nothing else |
| Session.RecruitmentSession.DisplayResults | public/static/src/script.js:462-536 | keeps selection and caches; the new `currentSections` and container are `Display` of the old ones with the cached operators, so they show the selection and the cache is refreshed without eviction |
| Session.RecruitmentSession.UpdateOperators | public/static/src/script.js:410-460 | the state becomes `AfterRequest`'s; when it renders, `currentSections` and the container are `Display` of the new selection and cache, otherwise they are unchanged |
| Session.RecruitmentSession.OnChange | public/static/src/script.js:260-276 | the change handler keeps the invariant (≤ 5 distinct tags, all fetched, container showing them). A check is refused exactly when the tag is shown disabled; a refused check or a failed first fetch leaves everything as it was. Otherwise the tag is added or deleted, the fetched set and cache stay or (after a successful fetch) gain the tag and the response, and the container is `Display` of the new state |
| Session.RecruitmentSession.Check | public/static/src/script.js:264-270 | a check is accepted iff fewer than `maxTags` tags are selected, i.e. iff an unselected tag is not shown disabled; an accepted check states the new selection, fetched set, cache and `Display`ed container |
| Session.RecruitmentSession.AddFetched | public/static/src/script.js:264-275 | checking a fetched tag adds it without a request; the container is `Display` of the new selection; the invariant holds |
| Session.RecruitmentSession.AddUnfetched | public/static/src/script.js:264-275 | checking an unfetched tag: on failure everything is restored; on success the tag is added, marked fetched, its operators cached, and the container is `Display` of the new state |
| Session.RecruitmentSession.Uncheck | public/static/src/script.js:271-275 | unchecking deletes the tag and requests nothing; the container is `Display` of the new selection; the invariant holds |
| Recruitment.Includes | public/static/src/recruitment.js:15 | `char[key]?.includes(v)` throws a `TypeError` exactly when the field is a number or a boolean |
| Recruitment.Every | public/static/src/recruitment.js:15 | `every` throws iff the list is non-empty and the field has no `includes`; it passes iff every value is found |
| Recruitment.SomeOf | public/static/src/recruitment.js:38 | `some` throws iff the list is non-empty and the field has no `includes`; it passes iff some value is found |
| Recruitment.AllBlock | public/static/src/recruitment.js:10-30 | the `all` block passes iff every entry passes; it throws only if some entry throws |
| Recruitment.AnyEntries | public/static/src/recruitment.js:33-44 | the `some` over `any` fails iff every entry fails; it passes or throws only through some entry that does |
| Recruitment.FilterOperators | public/static/src/recruitment.js:2-50 | with `recruitmentStatus` defaulting to true: throws iff the predicate throws on some record; otherwise the result is a subsequence of the input holding exactly the records the predicate accepts |
| Recruitment.FilterOperatorsCounts | public/static/src/recruitment.js:3 | each accepted record is kept as often as it occurs; no other record is kept |
| Recruitment.NoFiltersIsIdentity | public/static/src/recruitment.js:5-48 | with the gate off and `filters = {}` the input comes back unchanged |
| Recruitment.RecruitmentGate | public/static/src/recruitment.js:5-7 | with the gate on, `recruitment === null` drops a record before any condition; an absent `recruitment` changes nothing |
| Recruitment.MissingListFails | public/static/src/recruitment.js:13-43 | a record without `tagList`/`powers` fails every non-empty condition on it, in either block, without throwing |
| Recruitment.StringFieldIsSearched | public/static/src/recruitment.js:23-26 | a string-valued `tagList`/`powers` passes a condition iff it contains the value's text (`"Melee"` passes `"Mel"`) |
| Recruitment.TypeErrorNeedsNoIncludes | public/static/src/recruitment.js:13-43 | the predicate throws only on a record holding a number or boolean under `tagList` or `powers` |
| Recruitment.FirstConditionThrows | public/static/src/recruitment.js:22-26 | such a record that passes the gate does throw when the first `all` entry is a condition on that field |
| Recruitment.NoIncludesFreeSelects | public/static/src/recruitment.js:2-50 | without numbers or booleans under `tagList`/`powers` the call returns a value |
| Recruitment.AddingAllConditionKeeps | public/static/src/recruitment.js:10-30 | a record accepted with one more `all` entry, visited anywhere, is accepted without it |
| Recruitment.AddingAllConditionNarrows | public/static/src/recruitment.js:10-30 | adding an `all` entry gives a subsequence of the earlier result |

## Left out

- DOM building and styling are not modelled: headers, operator elements, SVGs, focus and `tabindex`, `minHeight`, quantity labels. The container is a sequence of section values, and "hidden" is a predicate rather than a style.
- Keyboard navigation and the tag search box are not modelled. The Escape handler (script.js:364-381) dispatches one `change` per checked box, so it is a sequence of `OnChange` unchecks.
- `localStorage` is not modelled. The stored toggle values are constructor parameters; the `setItem` writes of the toggle handlers are left out.
- `updateVisibility` is not a stored effect. Visibility is the query `IsHidden`, evaluated on demand.
- The network and IndexedDB (`api.js`, `db.js`) are not modelled. The outcome of `fetchRecruitableOperators` is a parameter, either a list of operators or a failure. Loading and caching of tags (`loadTags`, `loadRecruitment`) is not part of this model; the constructor takes the loaded tags.
- Async interleaving is not modelled: `updateOperators` followed by `displayResults` is one atomic step, and concurrent clicks are not modelled.
- The unused `filteredOperators` of `updateOperators` (script.js:453-455) has no effect and is omitted.
- Session.RecruitmentSession.AddUnfetched: the rollback deletes a missing tag only if its checkbox exists (script.js:433). The model always deletes it, because every selected tag was added through its checkbox.
- Ordering.LexLe: `localeCompare` and the default `sort()` are both modelled by `LexLe`, which compares code points. `sort()` compares UTF-16 code units, so the two differ between characters above U+FFFF and characters in U+E000–U+FFFF; locale-aware collation is not modelled either.
- Recruitment.FilterOperators: numbers are integers (no fractions, `NaN` or infinities), filter values and record fields hold only strings, numbers, booleans, `null`, `undefined` or arrays of those, and inherited enumerable properties of the filter blocks are not visited.
- Rarity is an integer. The string/number coercions of `dataset.rarity` and `parseInt` are not modelled.
- The tie order of `compareSections` is left to a stable insertion sort. JavaScript engines sort stably too, but the model does not tie the result to a particular engine.
- Sections.CreateSection: the rarity flags are derived from the members on demand rather than stored on the section. A section's members never change after creation, so both give the same value.
- The rendering of categories (`populateTags` after line 114) and the tag checkboxes are not modelled.
- `toast.js`, `resize.js`, the PWA listeners and the server functions under `functions/api` are not part of this model. The server functions' behaviour is SQL run by the database.
