# Local persistence layer of spotted-app, in Dafny

This project models the browser-side persistence layer of spotted-app
(`assets/js/persistence-context.js`). Users, posts and locations are kept in
`localStorage`, one value per collection name (`"users"`, `"posts"`,
`"locations"`). Each value is the list of `[id, record]` pairs of a JavaScript
`Map`, written in insertion order.

- **Keyed store.** Loading a collection rebuilds the `Map` from the stored
  pairs; a collection that was never stored loads as an empty map. Saving a
  record loads the collection, lower-cases a string id, sets the record under
  that key (an existing key keeps its place), and writes the whole collection
  back.
- **Sequence allocator.** `getNextSequenceForEntity` returns `false` for an
  empty collection. Otherwise it looks up the record whose key *equals the
  collection's size* and returns that record's `id + 1`. It also returns
  `false` when no record has that key.
- **Repositories.** The post, user and location repositories save records
  as they are. The post and user repositories also create records, taking
  the allocator's id when it offers a truthy one. All three list every record,
  and find one by exact key. The user repository can also scan users by
  username or email address, where the last match wins.
- **Joins.** `getAllPostsByUserId` and `getLocationByPostId` first check that
  the referenced user or post exists. They then filter the other collection.

## Layout

- `ids.dfy` (module `Ids`): the id type `IntId(n) | StrId(s)`. It also holds
  the ASCII lower-casing used for keys, the key normalisation, JavaScript's
  `id + 1` (addition for numbers, concatenation of "1" for strings) and
  JavaScript truthiness of ids.
- `ordered_maps.dfy` (module `OrderedMaps`): a JavaScript `Map` as the
  datatype `JsMap(entries)`. It covers `has`, `get`, `set`, `size`, `keys`,
  `values`, spreading into pairs, and `new Map(pairs)`. `View()` gives the
  dictionary the map stands for, as an independent reference; lemmas tie the
  list operations to it.
- `arrays.dfy` (module `Arrays`): `Array.prototype.filter` and the subsequence
  relation.
- `entities.dfy` (module `Entities`): the records (`Post`, `User`, `Location`)
  and the three-way result `False | Undefined | Value(v)`. It also holds the
  collection names and the field comparisons the repositories make.
- `keyed_store.dfy` (module `KeyedStore`): the class `Store` holds
  `localStorage` as the field `storage: map<string, seq<(Id, Entity)>>`.
  `Load` is a function, `Save` a method, and `NextSequence` the allocator,
  with the allocator's lemmas beside them. `Store.Valid()` says that every
  stored collection has one pair per key and files each record under its
  normalised id; `Save` preserves it.
- `repositories.dfy` (module `Repositories`): the classes `PostRepository`,
  `UserRepository` and `LocationRepository`. Each holds the store it works
  on. The user and location repositories also hold the post repository they
  consult, as the program's global `postRepository`. Operations that change
  the store are methods; read-only lookups and the joins are functions. The
  two user scans share one loop method.

## Model

| member | source | states |
|---|---|---|
| `KeyedStore.Store.Load` | assets/js/persistence-context.js:6-17 | A collection that was never stored loads as the empty map. Any load gives a map with at most one entry per key. |
| `OrderedMaps.FromPairs` | assets/js/persistence-context.js:16 | Rebuilding a `Map` from any list of pairs gives a map with distinct keys. |
| `OrderedMaps.FromPairsView` | assets/js/persistence-context.js:16 | Rebuilding from pairs that repeat a key keeps the last pair's record for that key. |
| `OrderedMaps.FromDistinctPairs` | assets/js/persistence-context.js:16 | Pairs with distinct keys rebuild into exactly those entries, in the same order. |
| `OrderedMaps.RoundTrip` | assets/js/persistence-context.js:16-31 | Spreading a map into `[id, record]` pairs and rebuilding it gives back the same map in the same order. |
| `OrderedMaps.JsMap.Set` | assets/js/persistence-context.js:28 | After `set(k, v)`, `k` maps to `v`. Every other key keeps its presence and its value, and distinct keys are preserved. Every entry is an old entry or `(k, v)`. |
| `OrderedMaps.SetView` | assets/js/persistence-context.js:28 | On the dictionary view, `set(k, v)` is the update at `k` alone. |
| `OrderedMaps.SetKeepsOrder` | assets/js/persistence-context.js:28 | Setting a present key keeps the size and the key order, and replaces that value in place. Setting a new key appends it, and the size grows by one. |
| `OrderedMaps.ViewAgrees` | assets/js/persistence-context.js:94-95 | On a map with distinct keys, `has` and `get` agree with the dictionary view. |
| `OrderedMaps.ValuesInKeyOrder` | assets/js/persistence-context.js:82 | On a map with distinct keys, `values()` lists at each position the value the dictionary gives to `keys()` at that position. |
| `OrderedMaps.SizeIsKeyCount` | assets/js/persistence-context.js:41 | The `size` of a map with distinct keys is its number of keys. |
| `Ids.SameKeyIffSameUpToCase` | assets/js/persistence-context.js:25 | Two string ids get the same key if and only if they differ only in the case of letters. |
| `Ids.NormalizeIdIdempotent` | assets/js/persistence-context.js:25 | A normalised key has no upper-case letter, and normalising it again changes nothing. |
| `Ids.UpperIsNotNormalized` | assets/js/persistence-context.js:25 | A string with an upper-case letter is never the key of any id. |
| `KeyedStore.Store.Save` | assets/js/persistence-context.js:20-32 | The collection becomes the loaded one with the record set under its normalised id, written back as pairs. Other collections are unchanged. Reloading gives exactly that map, and store validity is preserved. |
| `KeyedStore.CaseVariantsCollapse` | assets/js/persistence-context.js:25-28 | Setting two records whose string ids differ only in case, as two saves do, leaves one entry, under the lower-cased id, holding the later record. The size grows by exactly one when the lower-cased key was new, and otherwise stays the same. |
| `KeyedStore.LoadOfValidStore` | assets/js/persistence-context.js:8-16 | On a valid store, loading gives back exactly the written pairs, in order. |
| `KeyedStore.StoredKeysAreNormalized` | assets/js/persistence-context.js:25-31 | On a valid store, every key of a loaded collection is the normalised id of its record. |
| `KeyedStore.Store.NextSequence` | assets/js/persistence-context.js:34-50 | The result is never `undefined`, and is `false` for an empty collection. It is a value if and only if some record is keyed by the collection's size, and then it is that record's `id + 1`. |
| `KeyedStore.NextSequenceOnValidStore` | assets/js/persistence-context.js:39-43 | On a valid store the allocator gives `false` or size + 1, nothing else. |
| `KeyedStore.NextSequenceOnDenseIds` | assets/js/persistence-context.js:41-42 | If the keys are exactly 1..n and each record's id is its key, the result is n + 1 (`false` when n = 0). |
| `KeyedStore.NextSequenceFailsOnGap` | assets/js/persistence-context.js:42-48 | With posts keyed 1 and 3, nothing is keyed by the size 2, so the result is `false`. |
| `KeyedStore.NextSequenceCollides` | assets/js/persistence-context.js:42 | With posts keyed 2 and 3, the allocator offers 3, which is already a key. |
| `Repositories.WithNextId` | assets/js/persistence-context.js:70-71 | Create takes the allocator's id exactly when it is a truthy value, and otherwise keeps the record unchanged. No other field changes. |
| `Repositories.PostRepository.SavePost` | assets/js/persistence-context.js:54-64 | Returns the post. The posts collection is the old one with the post set under its normalised id; nothing else changes. |
| `Repositories.PostRepository.CreatePost` | assets/js/persistence-context.js:66-78 | Returns the post with the id chosen by `WithNextId` from the allocator's result before the call. That record is saved into posts. |
| `Repositories.PostRepository.FindAll` | assets/js/persistence-context.js:80-87 | One post per stored key, and every stored post is listed. The list is in insertion order: position i holds the post stored under the map's i-th key. |
| `Repositories.PostRepository.FindPostById` | assets/js/persistence-context.js:89-102 | The post stored under exactly this key, or `false` when the key is absent; never `undefined`. A found post is among `FindAll`. |
| `Repositories.FindPostByIdIsCaseSensitive` | assets/js/persistence-context.js:94 | The lookup does not lower-case its key. On a valid store, a string id with an upper-case letter finds nothing, even the post saved with that id. |
| `Repositories.UserRepository.SaveUser` | assets/js/persistence-context.js:109-119 | Returns the user. The users collection is the old one with the user set under its normalised id; nothing else changes. |
| `Repositories.UserRepository.CreateUser` | assets/js/persistence-context.js:121-133 | Returns the user with the id chosen by `WithNextId` from the allocator's result. That record is saved into users. |
| `Repositories.UserRepository.FindAll` | assets/js/persistence-context.js:135-142 | One user per stored key, and every stored user is listed. The list is in insertion order: position i holds the user stored under the map's i-th key. |
| `Repositories.UserRepository.FindUserById` | assets/js/persistence-context.js:144-157 | The user stored under exactly this key, or `false`; never `undefined`. |
| `Repositories.UserRepository.FindLastUserWith` | assets/js/persistence-context.js:164-168 | The loop over all users returns the last one whose field matches, or `false` when none does. |
| `Repositories.UserRepository.FindUserByUsername` | assets/js/persistence-context.js:159-174 | The last user in storage order with this username, or `false` when there is none. |
| `Repositories.UserRepository.FindUserByEmail` | assets/js/persistence-context.js:176-191 | The last user in storage order with this email address, or `false` when there is none. |
| `Repositories.IsLastMatchUnique` | assets/js/persistence-context.js:164-169 | The last-match description of the scan determines its result uniquely. |
| `Repositories.UserRepository.GetAllPostsByUserId` | assets/js/persistence-context.js:193-207 | `false` exactly when the user is not stored. Otherwise the result is a subsequence of the posts' `FindAll` holding every post with that `userId`, as often as it occurs there, and no other record. |
| `Repositories.LocationRepository.SaveLocation` | assets/js/persistence-context.js:213-223 | Returns the location. The locations collection is the old one with the location set under its normalised id; nothing else changes. |
| `Repositories.LocationRepository.FindAll` | assets/js/persistence-context.js:225-232 | One location per stored key, and every stored location is listed. The list is in insertion order: position i holds the location stored under the map's i-th key. |
| `Repositories.LocationRepository.FindLocationById` | assets/js/persistence-context.js:234-247 | The location stored under exactly this key, or `false`; never `undefined`. |
| `Repositories.LocationRepository.GetLocationByPostId` | assets/js/persistence-context.js:248-262 | `false` exactly when the post is not stored. `undefined` exactly when the post is stored and no location has its `postId`. Otherwise the first such location in storage order. |
| `KeyedStore.SetKeepsKeyedByNormalizedId` | assets/js/persistence-context.js:25-28 | Setting a record under its normalised id keeps a collection with one pair per key, each filed under its record's normalised id. |
| `Repositories.AllocatorAfterFirstPost` | assets/js/persistence-context.js:39-45 | With one post stored under id 1, the allocator offers 2, and setting a post under 2 appends it after the first. |
| `Repositories.CreateFirstPost` | assets/js/persistence-context.js:66-78 | On an empty store, `createPost` keeps the caller's id 1 and stores exactly that one post. |
| `Repositories.CreateSecondPost` | assets/js/persistence-context.js:66-78 | After the first post, `createPost` assigns id 2 and appends the post after the first. |
| `Repositories.CreateTwoPosts` | assets/js/persistence-context.js:66-78 | Two creates on an empty store give ids 1 and 2, stored in that order. |
| `Repositories.FindsBothPosts` | assets/js/persistence-context.js:89-102 | With posts stored under 1 and 2, `findPostById` finds each under its id. |
| `Arrays.Filter` | assets/js/persistence-context.js:199 | `filter` returns a subsequence of its input with every satisfying element, as often as it occurs, and no other element. |
| `Arrays.FilterFirst` | assets/js/persistence-context.js:254 | `[0]` of a non-empty filter is the first satisfying element of the input. |
| `Arrays.FilterEmpty` | assets/js/persistence-context.js:254 | A filter is empty exactly when no element satisfies the predicate. |

`Repositories.CreateTwoPosts` is a client of the post repository that starts
from an empty store. The first create keeps the caller's id 1, because an
empty collection gets `false` from the allocator. The second create receives
id 2. `Repositories.FindsBothPosts` then finds both posts by their ids.

Three behaviours of the code that the model keeps as written:
- On an empty collection the allocator returns `false`
  (assets/js/persistence-context.js:39-45), so a create keeps the caller's id
  rather than assigning 1.
- For a stored post without a location, `getLocationByPostId` yields
  `undefined` (assets/js/persistence-context.js:254), which the model keeps
  apart from `false`.
- Only the storage key is lower-cased (assets/js/persistence-context.js:25,28,
  despite the comment at line 24). The record keeps its id as given, and the
  `find*ById` lookups do not lower-case their argument.

## Left out

- Real `localStorage` I/O and JSON text: a stored value is modelled as the
  list of pairs the JSON text would encode.
- Corrupt stored text, parse faults and failed writes (quota) are not
  modelled, so the `catch` branches never run in the model. Those branches
  return `false`, `[]`, or `[]` from the `find*ById` lookups, and log with
  `console.error`. As a result, `savePost`, `saveUser` and `saveLocation`
  always return the record.
- Values written to `localStorage` by anything other than `Store.Save`:
  `Load` accepts any list of pairs, but the lemmas that require
  `Store.Valid()` assume only `Save` wrote.
- Records without an id (`undefined` or `null`) and non-integral numeric ids.
  So are JSON's rewriting of an `undefined` key to `null`, and the `NaN`
  that `undefined + 1` would give.
- Numeric ids are unbounded integers, not IEEE 754 doubles: the rounding of
  `id + 1` (assets/js/persistence-context.js:42) once an id passes 2^53 is not
  captured.
- Full Unicode `toLowerCase`: only ASCII letters are lower-cased.
- Repositories.PostRepository.CreatePost: the in-place assignment to the
  caller's object is modelled as returning the updated record. The caller's
  alias of that object is not modelled.
- Repositories.UserRepository.CreateUser: the same as for `CreatePost`.
- Record fields the layer never inspects are carried along as plain values:
  coordinates as text, `createdAt` as an integer.
- Writes from two browser tabs racing each other (concurrency).
- The unused module-level `users`, `posts` and `locations` maps
  (assets/js/persistence-context.js:1-3).
- `assets/js/compose.js`: DOM rendering, the editor, asynchronous flows,
  date formatting and the map iframe, which only consume repository
  results.
