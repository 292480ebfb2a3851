# A verified model of the bookmark organiser's core logic

This project models, in Dafny, the logic of a browser new-tab page that keeps
saved links in named collections. Five parts are modelled:

- **the fuzzy matcher** (`js/fuzzy-search.js`): `match` is a case-insensitive
  two-cursor subsequence test; `score` ranks a match (lower is better);
  `search` keeps the matching items and sorts them stably by score;
- **the collection store** (`js/collections.js`): the list `collections.data`
  and its operations `create`, `delete`, `update`, `addItem`, `removeItem`,
  the two drop handlers, and the rename rule of the title editor;
- **the global-search overlay** (`js/global-search.js`): double-Shift
  detection, open and close, the flattening of every saved item into tagged
  search entries, the fuzzy search over them, and clamped keyboard navigation;
- **the open-tab grouping** (`js/tabs.js`, inside `loadOpenTabs`): the active
  tab is dropped, the others are filed by URL hostname (or `"other"`), and the
  domains are ordered by descending tab count, then by name;
- **the quick filter** (`js/search.js`): the rule that shows a collection
  when its title or one of its item titles contains the query.

Modules: `Wrappers` (Option), `Seqs` (`filter` and the subsequence relation),
`Text` (the JavaScript string operations used: `toLowerCase`, `trim`,
`startsWith`, `includes`, `indexOf`, and the name order), then `FuzzySearch`,
`Collections`, `GlobalSearch`, `Tabs` and `QuickFilter`, one per source file.

Where the source updates an object in place, the model is imperative:
`Collections.Store` is a class whose field `data` is reassigned by each
operation, and `GlobalSearch.SearchOverlay` holds the overlay's state fields.
Each method states its new state in terms of a function of the old one.
Lemmas then prove what the source promises about those functions. The loops
are methods with loop invariants, each proved against a specification
function:
- the two cursors of `match`;
- the gap loop of `score`;
- the `forEach`/`push` loops of global search;
- the filing of tabs into `tabsByDomain`;
- the visibility loop of the quick filter.

`search`'s stable sort is modelled as an insertion sort. That sort is proved
to return a permutation, to be ordered by score, and to keep the input order
among equal scores. Section 22.1.3.27 of ECMAScript 2019 requires
`Array.prototype.sort` to be stable, which is why ties keep their order.

Notable behaviour of the code:
- `create` appends the new collection; it does not prepend it.
- `addItem` makes no duplicate-URL check and no cross-collection
  deduplication (`Collections.AddItemAllowsDuplicateUrls` proves that a
  second item with the same URL is added).
- No item or collection reordering, import or export exists in
  `js/collections.js`.
- `match` is false for an empty needle, although the empty string is a
  subsequence of every string.

## Model

| member | source | states |
|---|---|---|
| FuzzySearch.Match | js/fuzzy-search.js:11-28 | the result is `Matches`: false when the needle or haystack is empty, otherwise the outcome of the greedy scan of the lowercased strings |
| FuzzySearch.Scan | js/fuzzy-search.js:17-27 | the two-cursor loop ends with the needle cursor at the end exactly when the greedy matching exists |
| FuzzySearch.PositionsStep | js/fuzzy-search.js:20-25 | one loop step: a haystack character equal to the needle's next character consumes it, and any other character is skipped without changing the outcome |
| FuzzySearch.PositionsEmbed | js/fuzzy-search.js:20-27 | the greedy positions are increasing, and each holds the corresponding needle character |
| FuzzySearch.PositionsAreLeftmost | js/fuzzy-search.js:20-27 | whenever any matching exists the greedy one succeeds, and each of its positions is at or before the matching's |
| FuzzySearch.MatchesIffSubsequence | js/fuzzy-search.js:11-28 | `match` holds iff both strings are non-empty and the lowercased needle is a subsequence of the lowercased haystack |
| FuzzySearch.Score | js/fuzzy-search.js:37-79 | the prefix, substring and gap-loop branches return `ScoreOf`, with `Infinite` for a missing character |
| FuzzySearch.GapCostClosedForm | js/fuzzy-search.js:53-78 | the gap sum is finite iff the greedy matching exists; it is then three times the first position plus the characters skipped between matches |
| FuzzySearch.GapCostZeroIsAdjacent | js/fuzzy-search.js:58-76 | a zero gap sum means the needle sits in the haystack right after the previous match |
| FuzzySearch.ScoreCases | js/fuzzy-search.js:37-79 | Infinity for an empty needle or haystack; 0 for a prefix; 1 for a substring elsewhere; otherwise 3 times the first matched position plus the inner gaps, or Infinity |
| FuzzySearch.ScoreFiniteIffMatches | js/fuzzy-search.js:11-79 | the score is finite exactly when `match` holds |
| FuzzySearch.ScoreZeroIffPrefix | js/fuzzy-search.js:37-79 | the score is 0 exactly when the lowercased haystack starts with the non-empty lowercased needle |
| FuzzySearch.InsertByRank | js/fuzzy-search.js:100-106 | inserting one element into the sorted prefix makes it one longer |
| FuzzySearch.InsertByRankPermutes | js/fuzzy-search.js:100-106 | an insertion adds exactly the inserted element to the multiset |
| FuzzySearch.InsertByRankBounded | js/fuzzy-search.js:100-106 | a lower bound on the inserted element and on the sorted part bounds every element of the result |
| FuzzySearch.InsertByRankSorted | js/fuzzy-search.js:100-106 | an insertion into a score-sorted sequence leaves it score-sorted |
| FuzzySearch.InsertByRankStable | js/fuzzy-search.js:100-106 | among elements of one score, the inserted element comes first, before the rest in their order |
| FuzzySearch.SortByRank | js/fuzzy-search.js:100-106 | the sort keeps the length |
| FuzzySearch.SortByRankSortedAndStable | js/fuzzy-search.js:100-106 | the sort returns a permutation in non-decreasing score order, with the input order kept within each score |
| FuzzySearch.Search | js/fuzzy-search.js:88-91 | an empty query or an empty item list gives no results |
| FuzzySearch.SearchPermutesMatches | js/fuzzy-search.js:88-107 | the results are a permutation of the matching items, and an item is a result iff it matches |
| FuzzySearch.SearchSortedByScore | js/fuzzy-search.js:100-106 | the results are in non-decreasing score order, and every result has a finite score |
| FuzzySearch.SearchStable | js/fuzzy-search.js:94-106 | results of equal score keep their input order |
| FuzzySearch.ExamplePrefix | js/fuzzy-search.js:44-46 | "ab" against "Abc" scores 0, case being ignored |
| FuzzySearch.ExampleSubstring | js/fuzzy-search.js:49-51 | "bc" against "abc" scores 1 |
| FuzzySearch.ExampleScattered | js/fuzzy-search.js:53-78 | "ac" against "xabc" scores 4: a leading gap of 1 counted three times, plus an inner gap of 1 |
| FuzzySearch.ExampleSubsequence | js/fuzzy-search.js:11-28 | "abc" matches "xaxbxc" but not "acb" |
| Collections.Store.constructor | js/collections.js:10 | the store starts with the stored collections, or with an empty list when storage holds none |
| Collections.Store.Create | js/collections.js:33-47 | one collection with the fresh id, the name "New Collection" and no items is appended after the existing ones |
| Collections.Store.Delete | js/collections.js:53-61 | the data becomes the collections whose id differs |
| Collections.Store.Update | js/collections.js:68-78 | every collection with the id is replaced by its merge with the patch |
| Collections.Store.AddItem | js/collections.js:85-99 | the new item, made from the fresh id overlaid by the draft, is pushed onto the first collection with the id; an unknown id changes nothing |
| Collections.Store.RemoveItem | js/collections.js:106-117 | the first collection with the id keeps only items with another id; an unknown id changes nothing |
| Collections.Store.HandleDrop | js/collections.js:123-135 | a `tab` payload adds its title, url and favicon to the named collection; every other payload changes nothing |
| Collections.Store.DropOnCollection | js/collections.js:267-275 | a `tab` payload dropped on a collection adds its title, url and favicon there; every other payload changes nothing |
| Collections.Store.CommitRename | js/collections.js:186-192 | the rendered collection is renamed to the trimmed input when that is non-empty and new; otherwise nothing changes |
| Collections.FindIndex | js/collections.js:87 | `find` yields the first collection with the id, and fails only when no collection has it |
| Collections.DeleteKeepsOthers | js/collections.js:55 | `delete` keeps exactly the other-id collections, each as often as before and in order; an unknown id changes nothing |
| Collections.UpdatePatchesMatching | js/collections.js:70-72 | `update` keeps the length and every other collection; the patch's fields win on a match; applying it twice equals applying it once |
| Collections.AddItemAppendsOne | js/collections.js:87-92 | exactly one item is appended to the first matching collection, keeping its earlier items; the draft's own id is kept if present, the fresh id used otherwise; nothing else changes |
| Collections.AddItemAllowsDuplicateUrls | js/collections.js:89-92 | with no duplicate check, the target's count of the draft's URL rises by one, and other collections' counts stay the same |
| Collections.RemoveItemFromFirstMatch | js/collections.js:108-110 | only the first matching collection changes; it loses every item with that id and keeps the others in order |
| Collections.RenameRule | js/collections.js:187-192 | a new name is applied iff the trimmed input is non-empty and differs from the current name; it is that trimmed input |
| Collections.FindIndexWithUniqueIds | js/collections.js:87 | with unique ids, the first collection with an id is the only one |
| Collections.DeleteKeepsIdsUnique | js/collections.js:55 | deleting keeps collection ids unique |
| Collections.OtherChangesKeepIdsUnique | js/collections.js:33-117 | creating with an unused id, renaming, adding and removing items keep collection ids unique |
| GlobalSearch.Tagged | js/global-search.js:233-239 | each item of a collection is tagged with that collection's id and name, in item order |
| GlobalSearch.FlattenItems | js/global-search.js:230-241 | the nested `forEach`/`push` loop builds `Flattened` of the collections |
| GlobalSearch.FlattenedLength | js/global-search.js:230-241 | the flattened list's length is the total number of items |
| GlobalSearch.FlattenedAt | js/global-search.js:230-241 | item k of collection j sits after all items of earlier collections, tagged with its owner |
| GlobalSearch.FlattenedFromOwners | js/global-search.js:230-241 | every flattened entry is an item of some collection, tagged with that collection's id and name |
| GlobalSearch.GlobalResults | js/global-search.js:244-248 | the results are exactly the flattened entries whose "title url" text matches; they are ordered by score and each is tagged with its owner |
| GlobalSearch.SearchOverlay.constructor | js/global-search.js:4-9 | the overlay starts closed, with no results, selection 0, and a Shift count and last press time of 0 |
| GlobalSearch.SearchOverlay.OpenSearch | js/global-search.js:163-187 | opening is a no-op when open; otherwise it opens with no results and selection 0 |
| GlobalSearch.SearchOverlay.CloseSearch | js/global-search.js:192-214 | closing is a no-op when closed; otherwise it closes and clears the results and selection |
| GlobalSearch.SearchOverlay.HandleOutsideClick | js/global-search.js:107-111 | a click outside closes the overlay when it is open |
| GlobalSearch.SearchOverlay.HandleKeyDown | js/global-search.js:117-144 | a Shift within 500 ms of the last one increments the count, and reaching 2 opens the overlay and resets the count; any other Shift sets it to 1; each Shift records its time; Escape closes only when open; the count stays 0 or 1 |
| GlobalSearch.SearchOverlay.ShiftTimerFires | js/global-search.js:149-158 | the key-up timer clears the count only when more than 500 ms have passed since the last Shift |
| GlobalSearch.SearchOverlay.HandleSearch | js/global-search.js:219-256 | an empty trimmed query clears the results and sets selection 0; otherwise the results are the fuzzy search over the flattened items, with selection 0, or -1 when there are none |
| GlobalSearch.SearchOverlay.HandleResultsNavigation | js/global-search.js:344-371 | with no results nothing changes; ArrowDown gives min(i+1, n-1) and ArrowUp max(i-1, 0); Enter chooses the selected result only when it is in range |
| GlobalSearch.SearchOverlay.OpenResult | js/global-search.js:410-430 | opening a chosen result with a URL closes the search (resetting selection and results when it was open); a result without a URL changes nothing |
| Tabs.DomainOf | js/tabs.js:71-81 | the group key is the hostname, or "other" when the hostname is empty or the URL does not parse |
| Tabs.DomainAsWritten | js/tabs.js:66-82 | as written, a hostname that is not a property name of `Object.prototype` keys its own group |
| Tabs.AsWrittenIsRekeyed | js/tabs.js:66-82 | with `AsWrittenHostname(hostname)` as the URL-to-hostname function, the group key is the as-written key, so the grouping run with it is the source as written |
| Tabs.InheritedHostnameFiledUnderOther | js/tabs.js:66-82 | as written, a tab on `http://constructor/` is filed under "other", not under its hostname |
| Tabs.InsertDomain | js/tabs.js:86-89 | inserting a domain into the sorted domains adds exactly that domain |
| Tabs.SortDomains | js/tabs.js:86-89 | the sorted domains are the same domains |
| Tabs.BeforeIrreflexive | js/tabs.js:86-89 | the comparator never orders a domain before itself |
| Tabs.InsertDomainOrdered | js/tabs.js:86-89 | an insertion keeps the domains distinct and ordered by count descending, then by name, and adds its tab count |
| Tabs.SortDomainsOrdered | js/tabs.js:86-89 | sorting gives distinct domains ordered by count descending, then by name, with the same tab total |
| Tabs.OnDomainIsFilter | js/tabs.js:69-83 | the tabs filed under a domain are the remaining tabs filtered by group key |
| Tabs.FiledStep | js/tabs.js:73-76 | filing one tab pushes it onto its domain's list, creating the list and key when the domain is new |
| Tabs.FillByDomain | js/tabs.js:66-83 | after the `forEach`, each key holds exactly its domain's tabs in order, never none; every tab's domain is a key; the keys' tab counts sum to the number of tabs |
| Tabs.EmitGroups | js/tabs.js:91-97 | the emitted groups are `NonEmptyGroups` of the sorted domains: one group per domain with tabs, holding its tabs, in sorted order |
| Tabs.NonEmptyGroupsShape | js/tabs.js:91-97 | every emitted group has tabs and holds the tabs of one of the domains; there are no more groups than domains |
| Tabs.NonEmptyGroupsTotal | js/tabs.js:91-97 | the emitted groups hold as many tabs as the domains do, empty domains adding none |
| Tabs.NonEmptyGroupsAll | js/tabs.js:91-97 | when every domain has tabs, group j is domain j with its tabs |
| Tabs.GroupOpenTabs | js/tabs.js:65-97 | the groups satisfy `IsGrouping`: non-empty; each holds its domain's remaining tabs; every remaining tab has a group; one group per domain; ordered by count descending, then by name; sizes summing to the remaining count |
| Tabs.RemainingDropsActive | js/tabs.js:67-68 | exactly the tabs whose id differs from the active tab's remain, in order; with no active tab, all remain |
| Tabs.EachTabInOneGroup | js/tabs.js:69-83 | in a grouping, each remaining tab is in exactly one group, the one for its own domain |
| Tabs.GroupsKeepTabOrder | js/tabs.js:76-81 | within each group, tabs keep their original relative order |
| QuickFilter.ApplyFilter | js/search.js:7-31 | collection k gets `block` iff its lowercased title, or some item's lowercased title, contains the lowercased query |
| QuickFilter.EmptyQueryShowsAll | js/search.js:18 | an empty query shows every collection |
| QuickFilter.UrlsIgnored | js/search.js:13-24 | two collections with the same name and item titles are shown alike, whatever their URLs, ids and favicons |

## Left out

- Persistence: `collections.save`, `storage.load` and the browser storage behind them. Each operation's save is a no-op for the in-memory data; the initial load is the constructor's argument.
- Rendering and the DOM: `render`, `renderResults`, `updateSelectedResult`, `createSearchPopup`, popup animations, focus, `preventDefault`, and `createDomainGroup`. The quick filter's display values are returned rather than written to `style.display`.
- `openResult`: Enter returns the chosen result as `chosen`. The close that `openResult` then performs is the separate step `OpenResult`. `window.open` and the 150 ms animation before the close are left out. Mouse-over selection of a result is left out as well.
- `utils.generateId` (clock and random based) is the `freshId` parameter, and nothing assumes it is unused. `Collections.OtherChangesKeepIdsUnique` shows that `create` keeps collection ids unique when the fresh id is not already in use.
- `Date.now()` is the `now` parameter. The 500 ms `setTimeout` of `handleKeyUp` is the explicit step `ShiftTimerFires`, and the input debounces are left out: 300 ms before the quick filter runs, 200 ms before global search's `handleSearch` runs. Each filter or search is modelled as running on the input it is given.
- `new URL(url).hostname` is the parameter `hostname`, with `None` standing for a URL that throws; URL parsing itself is not modelled.
- FuzzySearch.Score, FuzzySearch.Match: strings are modelled as sequences of Unicode code points, but JavaScript indexes strings by UTF-16 code units. A character outside the Basic Multilingual Plane, such as an emoji, is two code units in the source and one character here. Before or between matched characters, it therefore adds 2 to the source's gap score but 1 to the model's. The proved score order of `search` and of global search can therefore differ from the program's on titles or URLs with such characters. `match` compares code units, so in the source a needle of one such character can also match the shared surrogate halves of two different ones; the model does not.
- `toLowerCase` is modelled for ASCII letters only. `localeCompare`, used for the domain tie-break, is modelled as code-point order. Unicode case mapping and locale collation are not modelled.
- Aliasing: collections are values in a sequence, so the in-place `push` onto a shared `collection.items` array, and any other reference to it, is not modelled.
- `addItem` and `update` use JavaScript spread: `ItemDraft` and `Patch` list the fields the callers pass; an extra field, or a field set to `undefined`, is not modelled.
- The `Array.isArray(collection.items)` guard in global search: items are always a sequence here, so a collection without an items array is not modelled.
- The `try`/`catch` blocks that only log an error: the operations modelled cannot throw. The exception is the tab filing's catch, which is part of `Tabs.DomainAsWritten`.
- The rendered text the quick filter reads is taken to be the collection's `name` and each item's `title`.
- Tabs.GroupOpenTabs: keys tabs by the corrected `Tabs.DomainOf` for the `hostname` given (see Findings). The source as written is `GroupOpenTabs` run with `AsWrittenHostname(hostname)` (`Tabs.AsWrittenIsRekeyed`), so `IsGrouping` holds for it too, with the as-written keys.
- Tabs.SortDomains: the source sorts `Object.keys(tabsByDomain)` with the engine's sort; the model uses an insertion sort. The comparator is a strict total order on distinct keys, so the result is the same.
- Everything outside these five files' logic: themes, favicon colour detection, tooltips, `chrome.tabs` queries, and item or collection reordering, which `js/collections.js` does not define.

## Findings

| source | as written | input that shows it | evidently intended | confidence | as-written member | corrected member |
|---|---|---|---|---|---|---|
| js/tabs.js:66-82 | `tabsByDomain` is a plain `{}`. For a hostname that names an inherited property, such as `constructor`, the `!tabsByDomain[domain]` test sees that property. The `push` then throws, and the catch files the tab under "other". | a tab with URL `http://constructor/` (hostname `constructor`) | every tab is filed under its own hostname, as the URL's hostname | high; not executed | Tabs.DomainAsWritten, Tabs.InheritedHostnameFiledUnderOther, Tabs.AsWrittenIsRekeyed | Tabs.DomainOf, Tabs.GroupOpenTabs |
