# HR dashboard: bookmark store, employee filters and star rows

A Dafny model of the logic in a small Next.js HR dashboard:

- **The HR provider** (`hr-management/context/HRContext.jsx`). It holds:
  - the shared list of bookmarked employees;
  - the `addBookmark`, `removeBookmark`, `isBookmarked` and `toggleBookmark` operations;
  - the step that normalises what browser storage held when the list is loaded;
  - the dark/light theme decision and the system-theme listener.

  The state updaters are pure functions on sequences (`Added`, `Removed`, `Toggled`, `LoadedBookmarks`). The provider is the class `HRContext.HRProvider`. Its fields are `bookmarks`, `darkMode` and `isLoading`, and its methods replace them.
- **The dashboard** (`hr-management/components/Dashboard.jsx`):
  - the filter effect, which narrows the users by a case-insensitive search over the joined full name, email and department, and then by an exact department;
  - the toast shown after a bookmark click;
  - `renderStars`, which draws a row of full, half and empty stars.
- **The search page** (`hr-management/pages/search.jsx`). It filters users by:
  - a query over first name, last name, email and department, each tested on its own;
  - a multi-select of departments;
  - a multi-select of integer ratings.
- **The bookmarks page** (`hr-management/pages/bookmarks.jsx`): remove-by-id, the pluralised count noun, the empty-state panel and the five rating slots.

Modules:

- `Text`: ASCII `toLowerCase` and `includes`.
- `Lists`: `filter` and the subsequence relation.
- `Employees`: the employee record, its two rating shapes and the rating slots.
- `HRContext`, `Dashboard`, `SearchPage`, `BookmarksPage`: one module per source file.

Ratings take two shapes:

- The dashboard stores a rating as a one-decimal string such as `"4.3"`. It is modelled as `Decimal(tenths)`.
- The search page stores an integer star count. It is modelled as `Whole(stars)`.

JavaScript's `Array.prototype.includes` compares with SameValueZero, under which a decimal-string rating never matches a selected integer rating. The model keeps that.

The fetched users, the wall-clock `bookmarkedAt` stamp, the value read from browser storage and the system colour-scheme preference are all parameters.

Two details of the search page:

- The search page's rating filter compares the integer rating exactly, with `includes` (`hr-management/pages/search.jsx:18,34`).
- The search page tests first name and last name separately (`hr-management/pages/search.jsx:26-27`). A query spanning both, such as `"ann lee"`, finds nobody there, but it does on the dashboard (`SearchPage.NoJoinedFullName`).

## Model

| member | source | states |
|---|---|---|
| `Text.Lower` | hr-management/pages/search.jsx:26-29 | the ASCII lower-casing keeps the length and lower-cases each character independently |
| `Text.LowerAppend` | hr-management/components/Dashboard.jsx:79 | lower-casing a concatenation is the concatenation of the lower-cased parts |
| `Text.LowerIdempotent` | hr-management/components/Dashboard.jsx:79-81 | lower-casing an already lower-cased string changes nothing |
| `Text.Includes` | hr-management/pages/search.jsx:26-29 | `includes` of the empty string holds for every string, and a string includes nothing longer than itself |
| `Text.IncludesAt` | hr-management/pages/search.jsx:26-29 | `includes(sub)` holds iff `sub` occurs at some index of the string |
| `Text.NotIncludedWithoutFirstChar` | hr-management/pages/search.jsx:26-29 | a query whose first character never occurs in a field is not included in it |
| `Lists.Filter` | hr-management/pages/search.jsx:24-37 | `filter` never grows the list; every kept element is from the input and passes; every passing element is kept |
| `Lists.FilterCounts` | hr-management/pages/search.jsx:24-37 | `filter` keeps every occurrence of a passing element and no occurrence of a failing one |
| `Lists.FilterIsSubsequence` | hr-management/pages/search.jsx:24 | a filtered list is a subsequence of its input in the original order |
| `Lists.FilterCommute` | hr-management/components/Dashboard.jsx:77-87 | two successive filters give the same result in either order |
| `Lists.FilterFuse` | hr-management/components/Dashboard.jsx:75-89 | two successive filters equal one filter by the conjunction of their predicates |
| `Employees.BelowRating` | hr-management/pages/bookmarks.jsx:95 | `i < rating` for a one-decimal rating holds iff `i` is below the rating rounded up |
| `Employees.StarSlots` | hr-management/pages/bookmarks.jsx:91-98 | five slots, and the filled ones form a prefix: a filled slot has only filled slots before it |
| `Employees.FilledSlotCount` | hr-management/pages/bookmarks.jsx:91-98 | an integer rating r in 0..5 fills exactly r slots; a one-decimal rating fills one slot per started star |
| `HRContext.HasId` | hr-management/context/HRContext.jsx:103-105 | the front-to-back `some` scan is true iff some entry carries the id |
| `HRContext.Added` | hr-management/context/HRContext.jsx:87-95 | the id is present afterwards; the list is unchanged iff the id was already present; otherwise exactly one entry, the stamped item, is appended at the end and earlier entries are kept; other ids' membership is unchanged |
| `HRContext.Removed` | hr-management/context/HRContext.jsx:98-100 | no entry keeps the id; every other entry is kept, as often as it occurred and in the original relative order; other ids' membership is unchanged; an absent id leaves the list unchanged |
| `HRContext.Toggled` | hr-management/context/HRContext.jsx:108-114 | membership of the item's id flips; membership of every other id is unchanged |
| `HRContext.AddIdempotent` | hr-management/context/HRContext.jsx:89-93 | adding the same record twice is the same as adding it once |
| `HRContext.AddKeepsUniqueIds` | hr-management/context/HRContext.jsx:87-95 | a list with unique ids still has unique ids after an add |
| `HRContext.RemoveKeepsUniqueIds` | hr-management/context/HRContext.jsx:98-100 | a list with unique ids still has unique ids after a remove |
| `HRContext.ToggleKeepsUniqueIds` | hr-management/context/HRContext.jsx:108-114 | a list with unique ids still has unique ids after a toggle |
| `HRContext.ToggleTwiceRestoresMembership` | hr-management/context/HRContext.jsx:108-114 | two toggles of one record restore the membership of every id |
| `HRContext.ToggleTwiceFromAbsent` | hr-management/context/HRContext.jsx:108-114 | toggling an absent record twice gives back exactly the original list |
| `HRContext.ReplayMembership` | hr-management/context/HRContext.jsx:86-114 | after any run of add, remove and toggle, an id is bookmarked exactly when a one-bit reference semantics says it is |
| `HRContext.ReplayKeepsUniqueIds` | hr-management/context/HRContext.jsx:86-114 | any run of add, remove and toggle keeps unique ids unique |
| `HRContext.AddAddRemoveScenario` | hr-management/context/HRContext.jsx:87-100 | from empty: adding id 7 gives one entry, adding it again still one, removing 7 gives none |
| `HRContext.LoadedBookmarks` | hr-management/context/HRContext.jsx:45-56 | a stored array becomes the list; an unparsable or non-array value gives the empty list; a missing or empty value leaves the current list |
| `HRContext.Persisted` | hr-management/context/HRContext.jsx:59-65 | the save step always writes an array |
| `HRContext.PersistRoundTrip` | hr-management/context/HRContext.jsx:46-61 | saving a list and loading it again reproduces it, entries and order |
| `HRContext.InitialDarkMode` | hr-management/context/HRContext.jsx:20-42 | dark iff the saved theme is "dark", or no theme is saved (null or empty) and the system prefers dark; unreadable storage gives light |
| `HRContext.SavedThemeOverridesSystem` | hr-management/context/HRContext.jsx:26-32 | with a non-empty saved theme the system preference is ignored, and the mode is dark iff that theme is "dark" |
| `HRContext.DarkModeAfterSystemChange` | hr-management/context/HRContext.jsx:120-125 | the mode follows the new system preference when no theme is saved, and stays as it was otherwise |
| `HRContext.HRProvider.constructor` | hr-management/context/HRContext.jsx:15-17 | no bookmarks, light mode, loading |
| `HRContext.HRProvider.IsBookmarked` | hr-management/context/HRContext.jsx:103-105 | true iff some bookmark carries the id; reads the state and changes nothing |
| `HRContext.HRProvider.AddBookmark` | hr-management/context/HRContext.jsx:87-95 | the new list is `Added` of the old one; unique ids stay unique |
| `HRContext.HRProvider.RemoveBookmark` | hr-management/context/HRContext.jsx:98-100 | the new list is `Removed` of the old one; unique ids stay unique |
| `HRContext.HRProvider.ToggleBookmark` | hr-management/context/HRContext.jsx:108-114 | removes when bookmarked and adds otherwise, so `IsBookmarked` of the id flips; unique ids stay unique |
| `HRContext.HRProvider.SetBookmarks` | hr-management/context/HRContext.jsx:139 | the list becomes exactly the given one |
| `HRContext.HRProvider.LoadBookmarks` | hr-management/context/HRContext.jsx:45-56 | the list becomes `LoadedBookmarks` of the old list and the stored value |
| `HRContext.HRProvider.InitializeTheme` | hr-management/context/HRContext.jsx:20-42 | the mode becomes `InitialDarkMode` and loading ends |
| `HRContext.HRProvider.HandleSystemThemeChange` | hr-management/context/HRContext.jsx:117-129 | the mode becomes `DarkModeAfterSystemChange` of the old mode |
| `Dashboard.MatchesSearch` | hr-management/components/Dashboard.jsx:78-82 | the empty term matches everyone; a match needs the full name, email or department to be at least as long as the term |
| `Dashboard.PassesSearch` | hr-management/components/Dashboard.jsx:77-83 | the `if (searchTerm)` guard changes nothing: passing the step is exactly matching the search, since every field includes the empty term |
| `Dashboard.PassesDepartment` | hr-management/components/Dashboard.jsx:85-87 | "all" passes everyone; any other selection passes exactly the users whose department equals it |
| `Dashboard.FilterUsers` | hr-management/components/Dashboard.jsx:74-90 | the result is the subsequence of users passing both steps: every kept user passes, every passing user is kept; an empty term with "all" keeps every user |
| `Dashboard.FilterStepsCommute` | hr-management/components/Dashboard.jsx:77-87 | narrowing by search then department, or by department then search, gives the same list as keeping users that pass both |
| `Dashboard.FullNameLowered` | hr-management/components/Dashboard.jsx:79 | the searched full name is the lowercased first name, a space and the lowercased last name |
| `Dashboard.SearchIgnoresTermCase` | hr-management/components/Dashboard.jsx:78-82 | lower-casing the term first does not change the outcome |
| `Dashboard.SearchFindsOwnFields` | hr-management/components/Dashboard.jsx:80-81 | searching for a user's own email or department finds that user |
| `Dashboard.BookmarkToast` | hr-management/components/Dashboard.jsx:94-98 | "Removed from bookmarks" iff the user was bookmarked, "Added to bookmarks" otherwise |
| `Dashboard.HandleBookmark` | hr-management/components/Dashboard.jsx:92-99 | the list is toggled; the toast reads "Removed" iff the user was bookmarked before the click and "Added" iff the user is bookmarked after it |
| `Dashboard.FullStars` | hr-management/components/Dashboard.jsx:102 | `Math.floor` of a rating in tenths is the greatest whole number at or below it |
| `Dashboard.HasHalfStar` | hr-management/components/Dashboard.jsx:103 | a half star iff the rating is non-negative and its part above the floor is at least one half; such a star is always a started one (floor below ceil) |
| `Dashboard.CeilStars` | hr-management/components/Dashboard.jsx:114 | `Math.ceil` of a rating in tenths is the least whole number at or above it |
| `Dashboard.StarRow` | hr-management/components/Dashboard.jsx:101-120 | the drawn row has its full stars first and its empty stars last, and slot `i` is a full star iff `i` is below the floor of the rating |
| `Dashboard.RenderStars` | hr-management/components/Dashboard.jsx:101-120 | the two counting loops build the row of floor-many full stars, a half star when the rating is non-negative with first decimal 5 or more, and `5 - ceil` empty stars |
| `Dashboard.StarRowCounts` | hr-management/components/Dashboard.jsx:102-117 | for 0.0 to 5.0: `t/10` full stars, one half star iff `t % 10 >= 5`, and `5 - ceil(t/10)` empty stars |
| `Dashboard.StarRowLength` | hr-management/components/Dashboard.jsx:102-117 | the row has five icons when the first decimal is 0 or at least 5, and four otherwise |
| `Dashboard.StarRowDropsSlot` | hr-management/components/Dashboard.jsx:114 | rating 3.2 draws three full stars and one empty star |
| `Dashboard.FiveSlotStarRow` | hr-management/components/Dashboard.jsx:101-120 | the corrected row always has five icons, with floor-many full stars first and a half star iff the first decimal is 5 or more |
| `Dashboard.FiveSlotRowAgrees` | hr-management/components/Dashboard.jsx:101-120 | the corrected row equals the drawn row wherever the drawn row has five icons |
| `SearchPage.MatchesQuery` | hr-management/pages/search.jsx:25-29 | the empty query matches everyone; a match needs one of the four fields to be at least as long as the query |
| `SearchPage.MatchesDepartments` | hr-management/pages/search.jsx:31-32 | no selection passes everyone; otherwise a user passes iff some selected department equals theirs exactly |
| `SearchPage.MatchesRatings` | hr-management/pages/search.jsx:34 | no selection passes everyone; a decimal-string rating passes only then; an integer rating passes iff it equals a selected one |
| `SearchPage.Filtered` | hr-management/pages/search.jsx:24-37 | the result is a subsequence of users; a user is kept iff it passes the query, department and rating tests, with every occurrence of a kept user kept; an empty query with no selections keeps every user |
| `SearchPage.NoJoinedFullName` | hr-management/pages/search.jsx:25-29 | a query spanning first and last name, such as "ann lee", matches no field, because each field is tested on its own |
| `SearchPage.QueryMatchesDepartmentText` | hr-management/pages/search.jsx:24-37 | the query "eng" picks out the Engineering record and keeps nothing else |
| `SearchPage.RatingFilterIsExact` | hr-management/pages/search.jsx:34 | a 4-star user matches bucket 4 and not bucket 5 |
| `BookmarksPage.HandleRemove` | hr-management/pages/bookmarks.jsx:8-11 | afterwards no bookmark has the id; the rest keep their original order; an absent id leaves the list unchanged |
| `BookmarksPage.EmployeeNoun` | hr-management/pages/bookmarks.jsx:35 | the noun is "employee", followed by "s" iff the count is not 1 |
| `BookmarksPage.ShowsEmptyState` | hr-management/pages/bookmarks.jsx:46 | the empty-state panel shows iff no id is bookmarked |
| `BookmarksPage.RemovingLastShowsEmptyState` | hr-management/pages/bookmarks.jsx:8-11 | removing the only bookmark leaves the empty state; the header read "employee" before |

The search page draws its star row (`hr-management/pages/search.jsx:95-97`) with the same `i < rating` rule, so `Employees.StarSlots` covers it too.

## Left out

- Network fetches: axios at `hr-management/components/Dashboard.jsx:50`, and `fetch` at `hr-management/pages/search.jsx:12` and `hr-management/pages/analytics.jsx:20`. The fetched users are an input sequence.
- Random enrichment of department, rating, salary, join date, performance and avatar (`Dashboard.jsx:51-59`, `search.jsx:15-19`). It uses `Math.random` and floating point. Ratings enter the model as given values.
- The analytics page (float averages, `toFixed`, chart.js) and the dashboard's "Avg Rating" card (`Dashboard.jsx:126`). They are floating point and a foreign library.
- Browser storage I/O and `JSON.stringify`/`JSON.parse`. The value read is the `StoredValue` or `SavedTheme` parameter. The parse itself is abstract: an array is assumed to hold bookmark records.
- HRContext.Persisted: assumes that serialising the list to JSON and parsing it back is lossless. It does not model storage write failures, which the source logs and ignores.
- The theme effect that toggles the `dark` class and writes `"dark"` or `"light"` to storage (`HRContext.jsx:68-84`), and the `matchMedia` listener registration. Both are browser I/O. Because that effect writes a theme as soon as loading ends, the listener in a running app will nearly always see a saved theme. `HandleSystemThemeChange` takes the saved theme as a parameter and does not capture that coupling.
- React scheduling. State updates are applied at once and in call order, and re-rendering is not modelled. Within one sequential call, the functional updaters and the render-time reads see the same list. The one place this matters is the toast in `handleBookmark`, which reads the list from before the toggle; `Dashboard.HandleBookmark` models that.
- `Text.Lower` lower-cases ASCII letters only. JavaScript's `toLowerCase` also folds other scripts.
- BookmarksPage.EmployeeNoun: models only the noun and its plural `s`. The decimal count printed before it is markup.
- `handlePromote` (`bookmarks.jsx:13-16`): it only writes to the console.
- Toast display, all JSX markup, `Navbar.jsx`, `_app.jsx`, the sign-in and session redirect (`pages/auth/signin.jsx`, `pages/index.js`), the employee detail page and `postcss.config.mjs`. These are UI, foreign calls and configuration.

## Findings

| source | as written | input that shows it | evidently intended | confidence | as-written member | corrected member |
|---|---|---|---|---|---|---|
| hr-management/components/Dashboard.jsx:114 | `renderStars` draws floor-many full stars, a half star only for a first decimal of 5 or more, then `5 - Math.ceil(rating)` empty stars | rating "3.2": 3 full stars, no half star, 5 - 4 = 1 empty star, so four icons instead of five (every first decimal 1 to 4 loses a slot) | a row of five icons for every rating from 0.0 to 5.0 | not executed; high | `Dashboard.StarRowDropsSlot` | `Dashboard.FiveSlotStarRow` |

`Dashboard.RenderStars` models the code as written. `Dashboard.StarRowLength` states the general shape of the defect. `Dashboard.FiveSlotRowAgrees` shows that the corrected row differs only where the drawn row is short.
