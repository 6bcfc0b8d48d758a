# User list state, modelled in Dafny

The script `index.js` shows a paginated, sortable and searchable list of user
records fetched from a remote user service. Its only logic is the list state
kept in module-level variables: the records (`users`), the page shown
(`currentPage`, from 1), the page size (`itemsPerPage`, 10) and the sort
attribute (`currentSortAttribute`). This project models that state as the
class `ListStates.ListState` and proves what its operations do:

- `Load` replaces the records with a fetched list and leaves the page alone.
- `Shown` is the slice `displayUsers` lists, with `Array.prototype.slice`
  clipping (section 23.1.3.28 of ECMA-262).
- `PageCount` is `Math.ceil(users.length / 10)`. It is 0 for an empty list.
- `Next`, `Prev` and `ChangePage` are the guarded page moves and `changePage`.
- `SortBy` is the sort select listener. It sorts stably
  (section 23.1.3.30 of ECMA-262, 2023 edition) with the comparator `sortUsers`
  builds, and it resets the page to 1. `localeCompare` is a parameter
  `collate` of the model. ECMA-262 requires it to be a consistent comparison
  on all strings (`SortUsers.IsCollation`), but which order it gives depends
  on the locale.
- `Filter` is the search input listener. A non-empty query overwrites the
  records with the matching ones, and the page goes back to 1.

Files and modules:

- `users.dfy` (`Users`): the record type and the full name `first + " " + last`.
- `paging.dfy` (`Paging`): slice, page count, and the Next/Previous guards
  and button states.
- `search.dfy` (`Search`): ASCII lower-casing, `includes`, and the filter.
- `sorting.dfy` (`Sorting`): `Array.prototype.sort` under a consistent
  comparator, as a stable insertion sort. It is proved to be the only stable
  sort result.
- `sort_users.dfy` (`SortUsers`): the requirement on `localeCompare`, the
  comparator for `"name"`, `"size"` and any other attribute, and what sorting
  with each one gives.
- `list_state.dfy` (`ListStates`): the `ListState` class.

`Tied(s, cmp, y)` is the subsequence of `s` that the comparator calls equal
to `y`. A sort is stable when every such subsequence is unchanged.

Behaviour of the script that a reader might not expect, which the model keeps:

- The page count has no floor of 1. An empty list has 0 pages, and the label
  reads "Page 1 of 0".
- The search filter is destructive. It overwrites `users` (index.js:148), so
  typing a longer query and then deleting characters never brings the
  removed records back. Clearing the box refetches, but the fetch brings 100
  new random records (index.js:18), not the removed ones.
- A fetch does not reset the page or the search text. The page is reset by
  the listeners only.
- The default sort attribute is `"name"`, but nothing is sorted until the
  select changes.

## Model

| member | source | states |
|---|---|---|
| `Users.FullName` | index.js:68-70 | the compared name is first name, one space, last name, so its length is the first name's length plus one plus the last name's length |
| `Paging.PageSlice` | index.js:30-32 | a page shows at most 10 records: exactly `s[min(start, n) .. min(start + 10, n))` for pages from 1, where n is the list length, and nothing exactly when the start index is at or past the end |
| `Paging.TotalPages` | index.js:79 | the page count is the ceiling of `n / 10`: the least count whose pages hold `n` records; 0 exactly for an empty list |
| `Paging.PageOfIndex` | index.js:30-32 | record `i` appears on page `i / 10 + 1` at position `i % 10`, and that page is at most the page count |
| `Paging.PageNonEmptyIff` | index.js:79 | a page from 1 shows some record exactly when it is at most the page count |
| `Paging.PagesArePrefix` | index.js:30-32 | pages 1 to k together show the first `10 * k` records in order |
| `Paging.PagesCoverList` | index.js:79 | paging through all pages shows every record once, in list order |
| `Paging.GuardsMatchButtons` | index.js:83-93 | with the page in range, the Next and Previous listener guards (index.js:46, index.js:51) hold exactly when the button is rendered (more than one page) and not disabled |
| `Search.ContainsIff` | index.js:146 | `includes` answers true exactly when the query occurs at some position of the text |
| `Search.MatchingCount` | index.js:145-147 | a matching record stays as many times as it occurs, and a non-matching record disappears |
| `Search.MatchingMembers` | index.js:145-147 | a record is in the filtered list exactly when it was in the list and its lower-cased first name contains the lower-cased query |
| `Search.MatchingSelectsExactly` | index.js:145-148 | the filtered list is the old list at exactly the matching positions, in increasing order |
| `Search.MatchingIsSubsequence` | index.js:145-148 | the filtered list is a subsequence of the old list |
| `Search.MatchingIdempotent` | index.js:145-148 | filtering twice with the same query gives the same list as filtering once |
| `Sorting.StableSort` | index.js:66 | `users.sort` returns a permutation of the records |
| `Sorting.StableSortSorted` | index.js:66 | under a consistent comparator, the sorted records are in comparator order |
| `Sorting.StableSortStable` | index.js:66 | records the comparator calls equal keep their relative order |
| `Sorting.StableSortIsUnique` | index.js:66 | every sorted arrangement that keeps the tied records in order equals `StableSort`, so the model is the one result a stable sort can give |
| `Sorting.StableSortIdempotent` | index.js:66 | sorting the sorted list again changes nothing |
| `SortUsers.LexCompareZero` | index.js:68 | code-point order, one possible `localeCompare`, calls two names equal only when they are the same string |
| `SortUsers.LexCompareAntisymmetric` | index.js:68 | swapping the two names flips the sign of code-point order |
| `SortUsers.LexCompareTransitive` | index.js:68 | "not after" under code-point order is transitive |
| `SortUsers.LexCompareIsCollation` | index.js:68 | code-point order meets the requirement on `localeCompare`, so the requirement of `SortBy` for `"name"` can be met |
| `SortUsers.ComparatorConsistent` | index.js:66-74 | the comparator is consistent for every attribute (antisymmetric and transitive) when `localeCompare` is |
| `SortUsers.NameSortOrdersByName` | index.js:67-68 | sorting by `"name"` gives a permutation with full names in `localeCompare` order; names it calls equal keep their relative order |
| `SortUsers.SizeSortOrdersByLength` | index.js:69-70 | sorting by `"size"` gives a permutation with full-name lengths non-decreasing; equal lengths keep their relative order |
| `SortUsers.OtherSortUnchanged` | index.js:71-72 | with any attribute other than `"name"` or `"size"` the comparator answers 0 and the order is unchanged |
| `ListStates.ListState.constructor` | index.js:7-13 | the start state: no records, page 1, sort attribute `"name"` |
| `ListStates.ListState.Load` | index.js:20 | the fetched records replace the list; the page and the sort attribute stay |
| `ListStates.ListState.Shown` | index.js:30-32 | the current page shows at most 10 records, the slice of the list from that page's first index, and nothing when it starts past the end |
| `ListStates.ListState.PageCount` | index.js:79 | the page count is the ceiling of the record count over 10 |
| `ListStates.ListState.ChangePage` | index.js:102-107 | the page moves by delta and is then clamped up to 1; it is never below 1 afterwards |
| `ListStates.ListState.Next` | index.js:45-49 | the page goes up by exactly 1 when it is below the page count; otherwise nothing changes; a page in range stays in range |
| `ListStates.ListState.Prev` | index.js:50-54 | the page goes down by exactly 1 when it is above 1; otherwise nothing changes; a page in range stays in range |
| `ListStates.ListState.SortBy` | index.js:57-61 | records are replaced by their stable sort under the attribute's comparator: a permutation in comparator order, and unchanged for other attributes; page 1; attribute recorded |
| `ListStates.ListState.Filter` | index.js:140-151 | a non-empty query leaves exactly the matching subsequence of the old records; an empty query leaves them; the page is 1 either way |

## Left out

- Rendering: list items, `innerHTML` writes, the pagination label and
  buttons, and the detail popup with its close button (index.js:29,
  index.js:34-39, index.js:80-98, index.js:117-135). They only display the state.
- The rendered Previous/Next buttons call `changePage` without a guard
  (index.js:88, index.js:94). Their `disabled` flags stand in for the guard.
  The model states when they agree, in `Paging.GuardsMatchButtons`. It does
  not model clicks on those buttons separately.
- `fetchRandomUsers` (index.js:16-25): the HTTP request, JSON parsing, and
  the error log on failure. A successful fetch is `Load`, with the records
  given as a parameter. A fetch that fails in `fetch` or `response.json()`
  (index.js:18-19) changes no state. The refetch that an empty query starts
  (index.js:143) is likewise a later `Load`.
- A response whose JSON has no `results` field still runs index.js:20 and
  leaves `users` undefined. `displayUsers` then throws at index.js:32. After
  that, Next, a sort change and a non-empty query throw (index.js:46,
  index.js:66, index.js:145); the sort throws after recording the attribute
  (index.js:58). Previous above page 1 lowers the page and then throws at
  index.js:112. Clearing the box throws at index.js:32, but the refetch it
  starts can give `users` a list again. The model's `users` is always a
  list, so it cannot represent this state.
- Event-listener wiring, and the order in which overlapping fetches resolve
  (last write wins). These are asynchronous event-loop behaviour.
- `localeCompare` (index.js:68) is a parameter of the model, assumed only to
  be a consistent comparison (`SortUsers.IsCollation`). The model does not
  say which order a locale gives. `SortUsers.LexCompare` is code-point order,
  which only shows that the assumption can be met. It is not the program's
  order, even for ASCII names: "McKay Lee" comes before "Mcarthur Lee" in
  code-point order, while locale collation compares letters ignoring case
  first and puts "Mcarthur Lee" first. Accented names differ the same way.
- Strings are sequences of Unicode scalar values, while JavaScript strings
  are sequences of UTF-16 code units. A character outside the Basic
  Multilingual Plane counts 1 toward a length in the model but 2 for
  `.length` (index.js:70). So `"size"` sorting can tie in the model where the
  program orders two names, and code-point order (`SortUsers.LexCompare`) can
  differ from code-unit order.
- `toLowerCase` (index.js:146) is modelled for ASCII letters only
  (`Search.LowerChar`). Other Unicode case mappings are not modelled.
- `Math.ceil(users.length / itemsPerPage)` is floating-point division. It is
  modelled as integer ceiling, which agrees for every list length below 2^53.
- `users.sort` reorders the array in place. The model assigns the sorted
  sequence to the `users` field. No other reference to that array exists in
  the script, so nothing observes the difference.
- `ListStates.ListState.Load` does not promise that the page stays in range.
  The script does not reset the page on a fetch, so a shorter list can leave
  the page past the last one.
- The argument `changePage` passes to `displayUsers` (index.js:109-113) is
  ignored by `displayUsers`, so it is not modelled.
