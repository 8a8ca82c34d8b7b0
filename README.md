# Searchable: a verified model of the restaurant search view model

Searchable is a small SwiftUI screen. It lists a fixed catalog of five
restaurants and lets the user search it by text and pick a cuisine "scope".
This project models the search engine behind that screen (`SearchableViewModel`
in `Searchable/Searchable.swift`) in Dafny and proves what it does:

- `text.dfy` (module `Text`): ASCII models of `lowercased()`, `capitalized` and
  `contains(_:)`, with their laws (lowercasing is idempotent, capitalizing only
  changes letter case, `contains` holds exactly when some window of the
  haystack equals the needle).
- `catalog.dfy` (module `Catalog`): `Restaurant`, `CuisineOption` with its raw
  values, the catalog `RestaurantManager.getAllRestaurants` returns, and the
  success/failure outcome of awaiting it.
- `search.dfy` (module `Search`): `SearchScopeOption` and its `title`, the
  per-restaurant match, the filter as a function on sequences, the cuisine set
  and the scope list built from it.
- `scenarios.dfy` (module `Scenarios`): the filter worked out on the fixed
  catalog for the queries "ra" and "a".
- `view_model.dfy` (module `ViewModel`): the class `SearchableViewModel` with
  the five published fields, whose methods `FilterRestaurants` and
  `LoadRestaurants` update them in place and are proved against the functions
  of `Search`; `LoadSession` and `SearchSession` drive a view model through a
  load and a search session on the fixed catalog.

What the code does that a reader might not expect:

- The selected scope never narrows the results. The block "Filter on search
  scope" (`Searchable/Searchable.swift:86-88`) is empty, so the scope argument
  of `filterRestaurants` is never consulted. With the Japanese scope selected,
  the query "a" still returns all five restaurants (`Scenarios.QueryAScenario`,
  `ViewModel.SearchSession`).
- The query "ra" gives `[Ratatouille, Ramen]`: both titles start with "ra"
  (`Scenarios.QueryRaScenario`).
- The cuisine scopes after `.all` are built by mapping over a `Set`
  (`Searchable/Searchable.swift:103-104`), so their order is whatever order the
  set is walked in. `Search.CuisineScopes` picks the next element of the set
  with `:|`, and `Search.ScopeListsArePermutations` shows that any two such
  lists are permutations of each other.

## Model

| member | source | states |
|---|---|---|
| Text.Contains | Searchable/Searchable.swift:93-94 | `contains` is true exactly when the needle occurs at some index of the haystack |
| Text.ContainsLonger | Searchable/Searchable.swift:93-94 | if a needle extended by one character occurs, the needle itself occurs |
| Text.Lowercase | Searchable/Searchable.swift:91 | lowercasing keeps the length of the string |
| Text.LowercaseIdempotent | Searchable/Searchable.swift:91 | lowercasing yields a string with no upper-case letters, and lowercasing twice equals lowercasing once |
| Text.LowercaseOfLower | Searchable/Searchable.swift:94 | a string already in lower case, such as a cuisine raw value, is unchanged by lowercasing |
| Text.Capitalized | Searchable/Searchable.swift:60 | capitalizing keeps the length of the string |
| Text.LowercaseOfCapitalized | Searchable/Searchable.swift:60 | capitalizing only changes letter case: lowercasing the result gives the lowercased input |
| Text.CapitalizedLowerWord | Searchable/Searchable.swift:60 | a lower-case word without separators is capitalized by upper-casing its first character only |
| Catalog.RawValueFacts | Searchable/Searchable.swift:19-21 | every raw value is a non-empty lower-case single word, and different cuisines have different raw values |
| Catalog.CatalogFacts | Searchable/Searchable.swift:25-33 | the catalog has five restaurants with distinct ids and distinct cuisines |
| Catalog.RawValue | Searchable/Searchable.swift:19-21 | the raw value of each cuisine case is its own name; its properties (non-empty, lower case, one word, injective) are proved in `Catalog.RawValueFacts` |
| Catalog.AllRestaurants | Searchable/Searchable.swift:25-33 | the five catalog entries in source order; five entries with distinct ids and cuisines is proved in `Catalog.CatalogFacts`, all five cuisines present in `Search.CatalogCuisines` |
| Search.Title | Searchable/Searchable.swift:55-62 | "All" for `.all`, the capitalized raw value for a cuisine; its properties are proved in `Search.TitleOfCuisine`, `Search.TitlesDistinct` and `Search.CuisineTitles` |
| Search.Matches | Searchable/Searchable.swift:93-95 | the filter closure: lowercased title or lowercased raw value contains the search; worked out on the catalog in `Scenarios.RaMatches` and `Scenarios.AMatches` |
| Search.Filtered | Searchable/Searchable.swift:92-96 | the `filter` call; its meaning is proved in `Search.FilteredMembers`, `Search.FilteredCounts`, `Search.FilteredIsSubsequence`, `Search.FilteredIdempotent`, `Search.FilteredAppend` and `Search.FilteredNarrows` |
| Search.TitleOfCuisine | Searchable/Searchable.swift:59-60 | a cuisine scope's title is its raw value with the first letter upper-cased, and lowercasing it gives the raw value back |
| Search.TitlesDistinct | Searchable/Searchable.swift:55-62 | different scopes have different titles |
| Search.CuisineTitles | Searchable/Searchable.swift:55-62 | the titles are "All", "Russian", "Georgian", "Italian", "French" and "Japanese" |
| Search.FilteredMembers | Searchable/Searchable.swift:91-96 | a restaurant is in the result exactly when it is in the catalog and its lowercased title or cuisine contains the query |
| Search.FilteredCounts | Searchable/Searchable.swift:92-96 | each matching restaurant is kept as many times as it occurs, and no other restaurant is kept |
| Search.FilteredIsSubsequence | Searchable/Searchable.swift:92-96 | the result keeps catalog order, only drops entries, and is no longer than the catalog |
| Search.FilteredIdempotent | Searchable/Searchable.swift:92-96 | filtering the result again with the same query changes nothing |
| Search.FilteredAppend | Searchable/Searchable.swift:92-96 | filtering a concatenation equals concatenating the filtered parts |
| Search.FilteredNarrows | Searchable/Searchable.swift:91-96 | typing one more character gives a result that is a subsequence of the previous result |
| Search.SubsequenceLength | Searchable/Searchable.swift:92 | a subsequence is never longer than the sequence it comes from |
| Search.CuisinesOf | Searchable/Searchable.swift:103 | the cuisine set has no more elements than the restaurant list |
| Search.CuisinesOfMembers | Searchable/Searchable.swift:103 | the cuisine set holds exactly the cuisines of the listed restaurants |
| Search.CuisineScopes | Searchable/Searchable.swift:104 | one cuisine scope per element of the set, no duplicates, nothing else |
| Search.ScopeList | Searchable/Searchable.swift:103-104 | the scope list starts with `.all`, then holds each cuisine present exactly once and nothing else |
| Search.NoDuplicatesCount | Searchable/Searchable.swift:103-104 | a duplicate-free list holds each value once or not at all |
| Search.ScopeListsArePermutations | Searchable/Searchable.swift:103-104 | two scope lists for the same catalog start with `.all`, have the same length and are permutations of each other |
| Search.ScopeMembership | Searchable/Searchable.swift:103-104 | a scope is in the list exactly when it is `.all` or its cuisine occurs in the catalog |
| Search.CuisinesOfCoveringCatalog | Searchable/Searchable.swift:103 | a catalog in which every cuisine occurs yields the full set of five cuisines |
| Search.CatalogCuisines | Searchable/Searchable.swift:25-33 | the fixed catalog holds all five cuisines |
| Search.CoveringCatalogScopeCount | Searchable/Searchable.swift:103-104 | a catalog with every cuisine yields six scopes |
| Scenarios.NoAdjacentPairNotContains | Searchable/Searchable.swift:93-94 | a string with no adjacent pair `a`,`b` does not contain the two-character needle `ab` |
| Scenarios.CatalogLowerTitles | Searchable/Searchable.swift:27-31 | the lowercased catalog titles are "khinkali", "syrniki", "lasania", "ratatouille" and "ramen" |
| Scenarios.RaMatches | Searchable/Searchable.swift:91-96 | of the catalog, exactly Ratatouille and Ramen match "ra" |
| Scenarios.AMatches | Searchable/Searchable.swift:91-96 | every catalog entry matches "a"; Syrniki matches only through its cuisine "russian", since its lowercased title does not contain "a" |
| Scenarios.QueryRaScenario | Searchable/Searchable.swift:91-96 | the query "ra" or "RA" on the fixed catalog gives exactly Ratatouille then Ramen |
| Scenarios.QueryAScenario | Searchable/Searchable.swift:91-96 | the query "a" or "A" on the fixed catalog gives the whole catalog |
| ViewModel.SearchableViewModel.constructor | Searchable/Searchable.swift:38-42 | everything starts empty, with the `.all` scope selected |
| ViewModel.SearchableViewModel.IsSearching | Searchable/Searchable.swift:47-49 | the view model is searching exactly when the search text is non-empty |
| ViewModel.SearchableViewModel.SetSearchText | Searchable/Searchable.swift:40 | the search field's binding sets the search text and nothing else |
| ViewModel.SearchableViewModel.SetSearchScope | Searchable/Searchable.swift:41 | the scope picker's binding sets the scope and nothing else |
| ViewModel.SearchableViewModel.FilterRestaurants | Searchable/Searchable.swift:79-97 | an empty query clears the results and resets the scope to `.all`; any other query leaves the scope alone and keeps exactly the matching catalog entries, in catalog order |
| ViewModel.SearchableViewModel.Refresh | Searchable/Searchable.swift:73-75 | the subscription's sink runs the filter on the current text and scope |
| ViewModel.SearchableViewModel.LoadRestaurants | Searchable/Searchable.swift:99-113 | on success the catalog is replaced and the scope list rebuilt from it; on failure neither changes |

## Left out

- The Combine pipeline (`Searchable/Searchable.swift:69-77`): `combineLatest` and the 0.3 s debounce are timing. The model has `Refresh`, which runs the filter on the current text and scope. Which edits get coalesced is not modelled.
- ViewModel.SearchableViewModel.Refresh models a single firing of the sink. With an empty query, `filterRestaurants` assigns `searchScope = .all` (`Searchable/Searchable.swift:82`) even when it already is `.all`. `@Published` emits on every assignment and the pipeline has no `removeDuplicates`, so the sink is re-armed and fires again after each debounce interval. That repetition is not modelled; each firing leaves the same state.
- Concurrency: `async`, `await` and `@MainActor` are left out. `LoadRestaurants` takes the awaited outcome as a parameter (`LoadResult`).
- `getAllRestaurants` never throws. The `Failure` case models the `catch` branch anyway. Printing the error (`Searchable/Searchable.swift:111`) is I/O and is not modelled.
- Text.Lowercase and Text.Capitalized cover ASCII only. Swift's Unicode case mapping and word-boundary rules are not modelled. The catalog strings are ASCII, but the query is user input, so a non-ASCII query can give a different result. For example, Swift lowercases U+212A KELVIN SIGN to "k", so that one-character query returns `[Khinkali, Syrniki]` in the app. The model's `Lower` leaves U+212A unchanged, so `Filtered` returns `[]`.
- Text.Contains is true for an empty needle. The filter never asks that, because its query is non-empty.
- The SwiftUI view `Searchable` (`Searchable/Searchable.swift:116-160`) is layout. It shows `filteredRestaurants` while searching and `allRestaurants` otherwise; that choice is modelled only through `IsSearching`.
- `SearchableApp.swift` is the app entry point and has no logic of its own.
- `ContentView.swift` is an earlier revision of the same screen. Its only logic is a load-only view model: `allRestaurants = try await manager.getAllRestaurants()` in `loadRestaurants`, with `catch { print(error) }` (`Searchable/ContentView.swift:35-47`). It has no filtering and no scopes, so it adds nothing beyond `LoadRestaurants`. Its catalog spells the second title "Syniki" (`Searchable/ContentView.swift:27`) where `Searchable.swift` has "Syrniki".
- Loading does not re-run the filter, and neither does the model: `filteredRestaurants` keeps its old value until the next `Refresh`.
