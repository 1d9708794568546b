# Favourites bookkeeping of the FoodOrderingApp

This Dafny model covers the one piece of state logic in the restaurant app's `App` component (App.js). The rest of the app is layout, navigation and styling.

- **Favourites list.** The user's favourites are a list of restaurant ids.
  - A tap on a restaurant's heart toggles that id. An absent id is appended at the end. A present id is removed, with every copy of it.
  - The new list replaces the component state and is written to key-value storage.
  - At startup the stored list, if there is one, replaces the initial empty list.
  - These live in `favourites.dfy`: the pure `Remove` and `Toggle` functions, the icon choice `IconFor`, and the class `FavouritesStore`, which holds the in-memory list (`favourites`) and the persisted value (`stored`).
- **Restaurant screens.** Each screen shows either the whole catalog (the "Restaurants" tab) or only the catalog entries whose id is a favourite (the "Favourites" tab), in catalog order.
  - The shown list is re-derived whenever the favourites change.
  - These live in `catalog.dfy`: the pure `FavouritesOnly` and `Visible` functions, and the class `RestaurantScreen`, whose `dataToShow` field holds the shown list.
- **Helpers.** `sequences.dfy` defines what "subsequence" (order kept) and "no duplicates" mean. Each recursive definition is proved equal to its positional meaning: a subsequence's elements sit at strictly increasing positions (`SubsequenceIffEmbedding`), and distinct positions hold distinct values (`NoDuplicatesPairwise`). `wrappers.dfy` holds an `Option` type.

The favourites are a list, as in the code, and not a set. Two things follow:
- Toggling an absent id twice gives back the very same list.
- Toggling a present id twice restores membership, but the id moves to the end of the list (`ToggleTwice`). On a list without duplicates the entries are the same as a multiset (`ToggleTwicePermutation`).

Favourite ids that match no catalog entry are tolerated: the views ignore them (`StaleIdIgnored`). Restaurant ids are modelled as `int`, compared with plain equality. This is what the JavaScript `includes` and `!==` do on numbers.

## Model

| member | source | states |
|---|---|---|
| Favourites.Remove | App.js:104 | the result holds exactly the entries of the list that differ from the id, and is no longer |
| Favourites.RemoveAbsent | App.js:104 | removing an id that is not in the list leaves the list unchanged |
| Favourites.RemoveAppend | App.js:104 | removal distributes over concatenation, so the remaining entries keep their relative order |
| Favourites.RemoveCounts | App.js:104 | removal drops every copy of the id and keeps every copy of every other id (multiset) |
| Favourites.RemoveSubsequence | App.js:104 | what removal keeps is a subsequence of the original list |
| Favourites.RemoveNoDuplicates | App.js:104 | removal from a duplicate-free list leaves a duplicate-free list |
| Favourites.Toggle | App.js:97-105 | the id is in the result exactly when it was not in the input; every other id keeps its membership; an absent id is appended after the unchanged old list |
| Favourites.ToggleRemovesInOrder | App.js:102-104 | toggling a present id keeps exactly the other entries, with their multiplicities and in their original order |
| Favourites.ToggleNoDuplicates | App.js:99-104 | toggling a duplicate-free list gives a duplicate-free list |
| Favourites.ToggleTwice | App.js:97-105 | toggling twice restores every id's membership; from an absent id it restores the exact list; a present id comes back at the end |
| Favourites.ToggleTwicePermutation | App.js:97-105 | on a duplicate-free list, toggling twice gives a permutation of the original list |
| Favourites.IconFor | App.js:144 | the heart is filled exactly when the restaurant's id is among the favourites, outlined otherwise; `IconAfterToggle` shows that a tap on that id flips it and a tap on any other id leaves it |
| Favourites.IconAfterToggle | App.js:139-144 | a tap flips the tapped restaurant's heart between filled and outlined and leaves every other heart as it was |
| Favourites.FavouritesStore.constructor | App.js:62 | the favourites start empty, and storage holds whatever it held before launch |
| Favourites.FavouritesStore.Load | App.js:68-77 | a stored value replaces the in-memory list; an absent value or a failed read leaves the list as it was |
| Favourites.FavouritesStore.ToggleFavourite | App.js:97-108 | the state becomes the toggled list; the same list is written to storage unless the write fails; membership flips only for the tapped id; no duplicates are introduced |
| Favourites.FavouritesStore.IsFavourite | App.js:144 | the icon state is a membership test on the current favourites |
| Favourites.FavouritesStore.Relaunch | App.js:68-92 | a new launch over the same storage gets back the last written list, or the empty list when nothing was written; after a successful write that is the running app's list |
| Catalog.FavouritesOnly | App.js:208-211 | the result holds exactly the catalog entries whose id is a favourite, and is no longer than the catalog |
| Catalog.Visible | App.js:208-212 | with favouritesOnly false the shown list is the catalog unchanged; with it true, exactly the catalog entries whose id is a favourite, as the favourites-only filter computes them, so catalog order and copies carry over |
| Catalog.FavouritesOnlyAppend | App.js:209-211 | the filter distributes over concatenation of catalogs, so catalog order is kept |
| Catalog.FavouritesOnlySubsequence | App.js:209-211 | the favourites view is a subsequence of the catalog |
| Catalog.FavouritesOnlyCounts | App.js:209-211 | each favourite entry appears as often as in the catalog, every other entry not at all |
| Catalog.FavouritesOnlyEmpty | App.js:209-211 | an empty favourites list gives an empty view |
| Catalog.FavouritesOnlyAll | App.js:209-211 | when every catalog entry is a favourite, the view is the whole catalog |
| Catalog.FavouritesOnlyMembership | App.js:209-211 | the view depends on the favourites only through which catalog ids they contain, not on order, repeats or other ids |
| Catalog.StaleIdIgnored | App.js:209-211 | a favourite id that matches no catalog entry contributes nothing: removing or toggling it leaves the view unchanged |
| Catalog.VisibleAfterToggle | App.js:207-214 | after a toggle, the favourites tab shows or hides exactly the entries with the tapped id; toggling twice gives back the same view |
| Catalog.RestaurantScreen.constructor | App.js:206 | a screen first shows the whole catalog |
| Catalog.RestaurantScreen.Refresh | App.js:207-214 | the shown list becomes the visible list for the screen's tab; it is a subsequence of the catalog, and empty on the favourites tab when there are no favourites |
| Catalog.ThreeRestaurantsScenario | App.js:208-211 | with restaurants 1, 2 and 3, starring 2 then 3 gives [2, 3] and the favourites tab shows restaurants 2 and 3 in catalog order; toggling 2 twice from [2, 3] gives [3, 2] |

## Left out

- JSON serialisation: `JSON.stringify` and `JSON.parse` (App.js:72, 87) are not modelled. Storage holds the id list itself, as an optional value. A stored value that is not an array of ids is not modelled.
- Asynchronous storage: the AsyncStorage reads and writes (App.js:68-92) are modelled as synchronous updates of `stored`. Their failures are boolean parameters (`readFails`, `writeFails`). Logging to the console is left out.
- Ordering of writes: writes that complete out of order after rapid taps are not modelled. Neither are taps handled before a re-render (stale closures). Both depend on the framework's scheduler.
- React reactivity: `useState`/`useEffect` re-rendering is not modelled. The effect at App.js:207-214 is the explicit `RestaurantScreen.Refresh` method, which takes the current favourites as a parameter.
- Rendering: cells, menus, navigation, tab icons, the image table and the styles are not modelled, nor is the screen-size arithmetic, which uses floats.
- Catalog data: the bundled catalog file that App.js imports (`./assets/restaurantData.json`) is not part of this model. The catalog is an arbitrary sequence of `Restaurant` records.
- Id equality: ids are `int`. String ids, and the difference between `includes` and `!==` on `NaN`, are not modelled.
