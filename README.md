# Book Finder session controller, modelled in Dafny

The Book Finder page (`src/App.js`) lets a user search the Open Library
catalog and keeps three small client-side collections beside the results:

- the **search history**, a most-recent-first list of search terms capped
  at ten entries, into which blank terms never enter;
- the **recently viewed** books, a most-recent-first list of clicked books,
  each stamped with the time of the click, capped at ten entries;
- the **favorites**, starred books in starring order, membership decided by
  catalog key, never two with the same key.

Both stored lists are read back from browser storage as they were stored
(src/App.js:32-36). When what was read back has no duplicate term, one entry
per catalog key and at most ten entries each, every handler keeps it that way
(`App.ListsWellFormed`), so lists the page built up from empty storage always have that shape.

Two flags, `showFavorites` and `showRecents`, choose between the search
results, the favorites and the recently viewed section.

The model is in Dafny modules, one per concern:

- `keyed_list.dfy` (`KeyedList`) holds the two list idioms the handlers share. `Without` is filter-by-key. `PushFront` moves an item to the front, drops older items with its key and caps the length. The module proves what both guarantee: multiplicities, order preservation as a subsequence, unique keys, and that pushing one key twice equals pushing it once.
- `js_string.dfy` (`JsString`) models JavaScript's `trim` and the blank test `!s.trim()`.
- `catalog.dfy` (`Catalog`) holds the `Book` record and an `Option` type.
- `search_history.dfy`, `recently_viewed.dfy` and `favorites.dfy` hold the three collection updates as pure functions, with their lemmas.
- `view_mode.dfy` (`ViewMode`) holds the two flags, the button transitions, `displayedBooks`, and the three-valued view the flags encode.
- `app.dfy` (`BookFinder`) holds class `App`. It has the component's state fields (`query`, `books`, `favorites`, `recents`, `showFavorites`, `showRecents`, `searchHistory`). Each handler is a method that assigns the pure functions above. Ghost fields record what the page has written to browser storage and which catalog queries it has sent. The invariant `Valid()` says four things. The two flags are never both set. No two favorites share a catalog key. The stored recents equal the in-memory list. The stored history equals the in-memory list, or is absent while the list is empty.

Three consequences of how `src/App.js` is written show in the model:

- A search saves its term to the history as soon as it is submitted, before
  the lookup settles and whatever its outcome (src/App.js:63-64).
- On mount the stored lists are read with `JSON.parse(item) || []`
  (src/App.js:32, 35). An absent item, or a stored falsy JSON value such as
  `null`, reads as the empty list. Malformed stored text makes the mount
  effect throw.
- `clearRecents` removes the stored item, but the effect that persists
  `recents` on every change then writes the empty list back
  (src/App.js:40-42, 114-117), so the stored recents end as `[]`.
  `clearHistory` leaves its item absent (src/App.js:54-57).

## Model

| member | source | states |
|---|---|---|
| `KeyedList.Without` | src/App.js:82 | The filtered list is no longer than the input and keeps no element with the key. It equals the input when no element has the key and is strictly shorter when one does. |
| `KeyedList.WithoutCounts` | src/App.js:82 | Filtering keeps every element whose key differs exactly as often as it occurs, and drops every element with the key. |
| `KeyedList.WithoutMembership` | src/App.js:82 | An element survives filtering exactly when it occurs in the input and its key differs. |
| `KeyedList.WithoutIsSubsequence` | src/App.js:82 | The filtered list is a subsequence of the input, so the kept elements keep their relative order. |
| `KeyedList.WithoutKeepsUnique` | src/App.js:92 | Filtering a list whose keys are unique leaves them unique. |
| `KeyedList.PushFront` | src/App.js:47-48 | The pushed item is at index 0. No later entry has its key. The length is between 1 and the cap. The rest is a prefix of the old list without the key, as long as the cap allows. |
| `KeyedList.PushFrontKeepsOrder` | src/App.js:105-108 | The entries after the front are a subsequence of the old list. |
| `KeyedList.PushFrontKeepsUnique` | src/App.js:105-108 | A push onto a list with unique keys leaves the keys unique. |
| `KeyedList.PushFrontSameKeyTwice` | src/App.js:105-108 | Pushing two items with the same key in a row gives the same list as pushing only the second. |
| `JsString.TrimStart` | src/App.js:46 | The result is a suffix of the input. Everything it drops is whitespace or a line terminator, and it does not start with one. |
| `JsString.TrimEnd` | src/App.js:46 | The result is a prefix of the input. Everything it drops is whitespace or a line terminator, and it does not end with one. |
| `JsString.TrimEmptyIffBlank` | src/App.js:62 | `trim()` yields the empty string exactly when every character is whitespace or a line terminator. |
| `SearchHistory.Saved` | src/App.js:45-51 | A blank term leaves the history unchanged. Otherwise the term is at index 0 and appears nowhere else, and the length is at most 10. The rest is the first entries of the old history without the term. |
| `SearchHistory.SavedTermOnce` | src/App.js:47-48 | After saving a non-blank term it occurs exactly once. |
| `SearchHistory.SavedKeepsOrder` | src/App.js:47-48 | The surviving older terms keep their relative order. |
| `SearchHistory.SavedKeepsDistinct` | src/App.js:47-48 | Saving keeps a duplicate-free history duplicate-free. |
| `SearchHistory.SavedTwice` | src/App.js:47-48 | Saving the same term twice in a row gives the same history as saving it once. |
| `SearchHistory.SavedAllDistinct` | src/App.js:47-48 | Saving distinct non-blank terms into an empty history leaves exactly the 10 most recent, newest first. |
| `SearchHistory.SavedOntoPrefix` | src/App.js:47-48 | Saving a non-blank term onto a history that starts with other terms puts it in front of them, as far as the cap of 10 allows. |
| `SearchHistory.SavedAllRecentFirst` | src/App.js:47-48 | From any starting history, after saving distinct non-blank terms the first entries are the most recent of them, newest first, up to the cap of 10. |
| `SearchHistory.ElevenTermsDropFirst` | src/App.js:47-48 | From any starting history, after saving 11 distinct non-blank terms exactly the last 10 remain, newest first, and the first term is gone. |
| `SearchHistory.Removed` | src/App.js:81-85 | Every occurrence of the term is gone, and every other term is kept as often as it occurred. An absent term leaves the list unchanged, with no error. A present term makes it shorter. |
| `SearchHistory.RemovedKeepsOrder` | src/App.js:82 | Removing a term keeps the relative order of the others. |
| `SearchHistory.RemovedKeepsDistinct` | src/App.js:82 | Removing a term keeps a duplicate-free history duplicate-free. |
| `RecentlyViewed.Clicked` | src/App.js:98-111 | The clicked book with the supplied stamp is at index 0, and no other entry has its key. The length is between 1 and 10. The rest is a prefix of the old list without that key. |
| `RecentlyViewed.ClickedKeepsOrder` | src/App.js:105-108 | The surviving older entries keep their relative order. |
| `RecentlyViewed.ClickedKeepsUniqueKeys` | src/App.js:105-108 | A click keeps the keys of the list unique. |
| `RecentlyViewed.ClickedListedKeyKeepsLength` | src/App.js:105-108 | Clicking a book already listed never makes the list longer, whatever its length. |
| `RecentlyViewed.ClickedTwice` | src/App.js:98-110 | Two clicks on the same key leave one entry for it, at the front, with the later stamp. |
| `Favorites.Toggled` | src/App.js:88-95 | Toggling flips whether the book's key is a favorite. When the key was present, no entry with it remains and the list shrinks. When it was absent, the old list is kept and the book is appended at the end. |
| `Favorites.ToggledOffIsFilter` | src/App.js:92 | Unstarring drops exactly the entries with the key. Every other entry keeps its multiplicity and the relative order. |
| `Favorites.ToggledOtherKeys` | src/App.js:88-94 | Toggling one book leaves the favorite status of every other key unchanged. |
| `Favorites.ToggledTwiceMembership` | src/App.js:88-94 | Toggling the same book twice restores the favorite status of every key. |
| `Favorites.ToggledTwiceFromAbsent` | src/App.js:88-94 | Starring and then unstarring a book that was not a favorite restores the exact list. |
| `Favorites.ToggledKeepsUniqueKeys` | src/App.js:88-94 | Toggling keeps a list without duplicate keys free of them. |
| `ViewMode.PressFavorites` | src/App.js:176-179 | After the Favorites button `showFavorites` has flipped and `showRecents` is cleared, so the flags are never both set. |
| `ViewMode.PressRecents` | src/App.js:187-190 | After the Recent button `showRecents` has flipped and `showFavorites` is cleared, so the flags are never both set. |
| `ViewMode.PressFavoritesMode` | src/App.js:176-179 | From exclusive flags, the Favorites button toggles between the favorites view and the results. From the recents view it goes to favorites. |
| `ViewMode.PressRecentsMode` | src/App.js:187-190 | From exclusive flags, the Recent button toggles between the recents view and the results. From the favorites view it goes to recents. |
| `ViewMode.ModeDeterminesFlags` | src/App.js:198 | Among exclusive flag pairs, the view shown determines the flags and the flags determine the view. |
| `ViewMode.DisplayedBooks` | src/App.js:120 | The favorites view shows the favorites. The results view, and the hidden list behind the recents section, is the search results. |
| `BookFinder.LookupQuery` | src/App.js:16-18 | The lookup query is never empty. It is the search text when that is non-empty, and `classic+books` otherwise. |
| `BookFinder.AfterLookup` | src/App.js:20-26 | A failed lookup leaves the results unchanged. An answer replaces them with its `docs`, or with the empty list when there are none. |
| `BookFinder.App.constructor` | src/App.js:4-37 | The state starts empty with both flags clear, and the default lookup has been sent. History and recents are the stored lists, and an absent item reads as empty. The favorites have unique keys. The history and recents are well formed (distinct, at most 10) exactly when the stored lists are. |
| `BookFinder.App.EditQuery` | src/App.js:132 | Typing sets the query and changes nothing else. |
| `BookFinder.App.ReceiveBooks` | src/App.js:20-26 | A settled lookup sets the results as `AfterLookup` says. |
| `BookFinder.App.SaveSearchHistory` | src/App.js:45-51 | The history becomes `Saved(old, term)`. A blank term leaves storage alone. Otherwise storage holds the new history. A well-formed history stays well formed. |
| `BookFinder.App.ClearHistory` | src/App.js:54-57 | The history is empty and the stored item is removed. Well-formedness is kept. |
| `BookFinder.App.HandleSearch` | src/App.js:60-68 | A blank query changes nothing. Otherwise the query is looked up and saved, both flags are cleared, and nothing else changes. A well-formed history stays well formed. |
| `BookFinder.App.HandleHistoryClick` | src/App.js:71-78 | The query becomes the term. The term is looked up and saved, and both flags are cleared. A well-formed history stays well formed. |
| `BookFinder.App.RemoveHistoryItem` | src/App.js:81-85 | The history becomes `Removed(old, term)` and is stored. A well-formed history stays well formed. |
| `BookFinder.App.ToggleFavorite` | src/App.js:88-95 | The favorites become `Toggled(old, book)`, and nothing else changes. No two favorites share a key afterwards. |
| `BookFinder.App.HandleBookClick` | src/App.js:98-111 | The recents become `Clicked(old, book, now)` and are stored. Well-formed recents (one entry per key, at most 10) stay well formed. |
| `BookFinder.App.ClearRecents` | src/App.js:114-117 | The recents are empty, and the stored item ends as the empty list. Well-formedness is kept. |
| `BookFinder.App.PressFavoritesButton` | src/App.js:176-179 | The flags follow `PressFavorites` and stay exclusive. The view toggles between favorites and results. |
| `BookFinder.App.PressRecentsButton` | src/App.js:187-190 | The flags follow `PressRecents` and stay exclusive. The view toggles between recents and results. |
| `BookFinder.App.Displayed` | src/App.js:120 | `displayedBooks` is the favorites exactly in the favorites view, and the search results otherwise. |

## Left out

- The network request in `fetchBooks` (src/App.js:15-27) is not modelled, nor is JSON decoding of the response. A lookup is recorded in the ghost list `lookups`, and its outcome arrives through `ReceiveBooks` as a parameter. The model lets any outcome arrive at any time, so a stale response overwriting fresher results is allowed, as in the code. The search text is sent without URL encoding, and that is not modelled either.
- Browser storage and `JSON.stringify`/`JSON.parse` are not modelled as such. They appear only as the ghost fields `storedHistory` and `storedRecents`, holding the decoded list or `None` for an absent item. A stored value that is neither a list nor absent is not modelled: a falsy JSON value that reads as `[]`, another non-list value that the page keeps as it is, or malformed text that makes the mount effect throw.
- `new Date().toISOString()` (src/App.js:101) is not modelled. The click time is the opaque parameter `now`.
- The `showHistory` focus flag and the 200 ms blur timer (src/App.js:12, 133-134) are not modelled, because they concern only timing and event ordering in the input box.
- React's asynchronous state batching and stale closures are not modelled. Each handler is one atomic step on the current state.
- JSX rendering, cover URL building, author joining and date formatting (src/App.js:122-284) are not modelled. src/components/BookCard.js and src/components/BookList.js are presentational and are not part of this model.
- `BookFinder.App.IsFavorited`, the per-card star state (src/App.js:201), is defined but has no row, because it is the favorites membership test `Favorites.IsFavorite` read from the state.
