# Favorites store of ReelCine, modelled in Dafny

ReelCine is a React Native app. It lists popular movies and lets the user keep
a list of favorites. The favorites provider (`FavoritesProvider` in
`App/context/FavoritesContext.jsx`) holds an ordered list of movie records in
memory and writes the whole list through to the device's key-value storage under
the fixed key `@favorites`. This project models that provider as pure functions
over a state record and proves the properties it promises:

- adding is a duplicate-checked append;
- removing is an order-preserving filter;
- no two favorites share an `id`;
- after a successful write, the stored copy equals the in-memory one;
- hydration reads that copy back.

Modules:

- `Movies` (`movies.dfy`): the `Movie` record. Its fields are `id`, `title`,
  `posterPath` (the JSON key `poster_path`) and `voteAverage` (the JSON key
  `vote_average`). The stored records are whole catalog results
  (`App/services/tmdbService.jsx` returns `response.data.results`) and carry
  more keys. The model keeps only the keys the screens read: `poster_path`,
  `title`, `vote_average` and `id` (`App/screens/Favorites/index.jsx` lines 28,
  47, 49 and 53). The store inspects only `id` and never the other keys, so
  dropping them changes no operation. Also the id predicates `Listed` and
  `IdUnique`, and `Contains`, the `favorites.some(...)` scan.
- `Subsequences` (`subsequences.dfy`): order-preserving sub-lists, with the
  facts the removal lemmas need.
- `Storage` (`storage.dfy`): the key-value store as a `map<string, Blob>` and the
  key `"@favorites"`. It also holds the list encoding, `Encode`/`Decode`, which
  stand in for `JSON.stringify`/`JSON.parse`. `Raw(text)` stands only for the
  empty string or for text that `JSON.parse` rejects.
- `FavoritesList` (`favorites_list.dfy`): the list logic, `Add` and `Remove`,
  and its lemmas.
- `FavoritesStore` (`favorites_store.dfy`): the provider state
  `Store(favorites, disk)`. It holds the three operations `AddToFavorites`,
  `RemoveFromFavorites` and `LoadFavorites`, plus sequential sessions of calls
  (`Run`) and the session invariants.

Storage I/O is a parameter. Each operation takes a boolean that says whether
its one `getItem`/`setItem` call succeeds. A mutation reports `NoWrite`, `Saved`
or `SaveFailed`, so "performs no write" is observable.

In two places the intended behaviour and the code differ. The model follows
the code:

- Hydration is meant to fall back to an empty list on a missing key or a parse
  error. The code (lines 19-24) leaves the current list unchanged instead. That
  list is `[]` only at mount (line 9). `LoadFavorites` models the code. The
  mount effect (line 13) is the only caller of `loadFavorites`. With calls in
  sequence, hydration therefore starts from `[]` and the difference is not
  visible. Sessions (`Run`) still allow a load at any point, which makes
  `RunConsistent` and `RunSynced` stronger.
- Removing an absent id is meant to be a no-op. The code (line 53) still writes
  the unchanged list. `RemoveFromFavorites` always reports a write attempt.

## Model

| member | source | states |
|---|---|---|
| Movies.Contains | App/context/FavoritesContext.jsx:32 | the `some` scan is true exactly when some entry carries the identifier |
| FavoritesList.Add | App/context/FavoritesContext.jsx:32-35 | an id already listed leaves the list unchanged; otherwise the result is the old list with the movie at the end, every earlier entry in place; afterwards the id is listed, and exactly the old ids plus the new one are listed |
| FavoritesList.Remove | App/context/FavoritesContext.jsx:49 | no entry with the id remains; every other entry is kept; the result is an order-preserving subsequence of the input, shorter by exactly the number of entries with that id |
| FavoritesList.AddIdempotent | App/context/FavoritesContext.jsx:32-34 | adding the same movie twice equals adding it once |
| FavoritesList.AddKeepsUnique | App/context/FavoritesContext.jsx:32-35 | add keeps an id-unique list id-unique |
| FavoritesList.RemoveKeepsUnique | App/context/FavoritesContext.jsx:49 | remove keeps an id-unique list id-unique |
| FavoritesList.RemoveAbsent | App/context/FavoritesContext.jsx:49 | removing an id that is not listed returns the input list |
| FavoritesList.RemoveIdempotent | App/context/FavoritesContext.jsx:49 | removing the same id twice equals removing it once |
| FavoritesList.RemoveDropsOne | App/context/FavoritesContext.jsx:49 | on an id-unique list that holds the id, remove drops exactly one entry |
| FavoritesList.RemoveConcat | App/context/FavoritesContext.jsx:49 | the filter distributes over list concatenation |
| FavoritesList.AddThenRemove | App/context/FavoritesContext.jsx:32-49 | adding a movie with a fresh id and then removing that id gives back the original list |
| FavoritesList.RemoveUnique | App/context/FavoritesContext.jsx:49 | `Filters` (an order-preserving subsequence that avoids the id and is shorter by exactly its number of occurrences) admits only one list, and it is the one Remove returns; so Remove's contract fully specifies the filter |
| Storage.Encode | App/context/FavoritesContext.jsx:39 | the written blob parses back to exactly the list (lossless encoding) and is never the empty, falsy string |
| Storage.Get | App/context/FavoritesContext.jsx:19 | `getItem` yields a value exactly when the key is stored, and then the stored value; a missing key yields nothing (`null`) |
| Storage.Truthy | App/context/FavoritesContext.jsx:20 | a stored value passes the `if (storedFavorites)` test exactly when it is not the empty string |
| Storage.Decode | App/context/FavoritesContext.jsx:21-24 | `JSON.parse` succeeds exactly on text the store wrote, and yields the list that was written; every other blob is a parse failure (the caught throw); a parsable blob is never falsy |
| FavoritesStore.Initial | App/context/FavoritesContext.jsx:9 | a mounted provider starts with an empty list and leaves storage as it found it |
| FavoritesStore.Commit | App/context/FavoritesContext.jsx:36-39 | the new list is installed in memory whatever the write does; a successful write reports `Saved` and leaves storage mirroring memory; a failed one reports `SaveFailed` and leaves storage as it was; no other key changes (the same step follows the filter at lines 50-53) |
| Storage.Put | App/context/FavoritesContext.jsx:39 | a successful `setItem` makes the key read back the blob; a failed one leaves the storage as it was; no other key changes |
| FavoritesStore.AddToFavorites | App/context/FavoritesContext.jsx:29-44 | a duplicate id leaves the store unchanged with no write; otherwise the movie is appended and a write is attempted, reported as `Saved` exactly when it succeeds and as `SaveFailed` (the logged error) otherwise; on success storage mirrors the new list; a failed write keeps the in-memory update and leaves storage as it was; keys other than `@favorites` are never touched |
| FavoritesStore.RemoveFromFavorites | App/context/FavoritesContext.jsx:47-57 | the id is no longer listed; the other entries are kept in their original relative order and nothing new appears; the list shrinks by exactly the number of entries with the id, so duplicates of other records all survive; an absent id leaves the list equal; a write is always attempted, reported as `Saved` exactly when it succeeds and as `SaveFailed` (the logged error) otherwise; on success storage mirrors the new list, and on failure storage is unchanged |
| FavoritesStore.LoadFavorites | App/context/FavoritesContext.jsx:17-26 | when the read succeeds and a parsable list is stored, the in-memory list becomes that list; on a missing key, empty text, a parse failure or a read failure the store is unchanged; storage is never written |
| FavoritesStore.SaveThenLoad | App/context/FavoritesContext.jsx:19-39 | once a write has succeeded, a fresh provider that hydrates from the same storage holds the same list |
| FavoritesStore.LoadNothingStored | App/context/FavoritesContext.jsx:9-22 | with no `@favorites` key, a freshly mounted provider keeps its empty list after hydration |
| FavoritesStore.LoadIdempotent | App/context/FavoritesContext.jsx:17-26 | hydrating twice equals hydrating once |
| FavoritesStore.StepConsistent | App/context/FavoritesContext.jsx:17-57 | every add, remove or load keeps both the in-memory list and the stored list id-unique, whatever the storage calls do |
| FavoritesStore.RunConsistent | App/context/FavoritesContext.jsx:17-57 | no sequence of adds, removes and loads, with any storage failures, leaves two favorites with one id in memory or in storage |
| FavoritesStore.InitialConsistent | App/context/FavoritesContext.jsx:9 | a provider mounted on empty storage starts id-unique |
| FavoritesStore.StepSynced | App/context/FavoritesContext.jsx:17-57 | when storage mirrors memory and the call's write succeeds, storage still mirrors memory after the call |
| FavoritesStore.RunSynced | App/context/FavoritesContext.jsx:17-57 | starting from a store whose storage mirrors memory, a session whose writes all succeed ends with storage mirroring memory |
| FavoritesStore.Scenario | App/context/FavoritesContext.jsx:29-57 | a typical session: add A (id 1), add B (id 2) gives [A, B]; adding A again changes nothing and writes nothing; removing 1 gives [B], and [B] is what is stored |

## Left out

- React wiring is not modelled. This covers `createContext`/`useContext`, the
  Provider render, and the mount `useEffect` that triggers hydration (lines
  12-14). `Initial` followed by `LoadFavorites` stands for it.
- The `useFavorites` throw outside a provider (lines 73-78) is not modelled. It
  is framework misuse detection, not store logic.
- `console.error` logging is not modelled. The only trace of it is the
  `SaveFailed` outcome of a mutation.
- Real JSON is not modelled. The encoding is assumed lossless (`Encode`/`Decode`).
  Stored text that `JSON.parse` accepts but that is not a movie array (for
  example `null`) is not modelled. `Raw` covers only the empty string and text
  that `JSON.parse` rejects, so such text is outside the `Blob` type. In the
  source, line 21 would install `null` as the list, and the `some`/`filter`
  calls at lines 32 and 49 would then throw into their catch blocks. Storage
  under this key is written only by the provider, which always writes an array.
- Interleaved asynchronous calls are not modelled. Each call in the source reads
  the `favorites` captured at render time, and concurrent `setItem` calls may
  complete out of order. Calls here are sequential, and each one sees the
  previous one's result.
- The movie catalog client (`App/services/tmdbService.jsx`) is not modelled. It
  is a network call with a `[]` fallback.
- The screens, navigation and app entry files are not modelled. They are
  rendering, styling and poster-URL string composition.
- The swipe-to-favorite gesture controller is not modelled. Its source is not
  part of this model, and its threshold and rotation rules use floating-point
  animation values.
