# Translations pipeline of pesanyuk, in Dafny

This project models the translation core of the pesanyuk storefront (`lib/translations`):

- **`TranslationCache`** (`cache.ts`): a size-bounded, insertion-ordered map from cache keys to entries that expire after 24 hours.
- **`t`** (`index.ts`): the resolver behind `useTranslation`. It validates the options and, when caching is requested, builds the key `key:language:section:provider` and consults the cache. It then walks a dotted key through the static translation table, stores what it found, and falls back to the key itself on any error.
- **The reduce in `fetchTranslations`** (`db.ts`): turns database rows `(section, dotted key, value)` into nested translation objects.
- **The types** (`types.ts`): languages, providers, cache entries, and the options schema.

Files:

- `wrappers.dfy`: `Option`.
- `nested.dfy`: translation values as a tree (a string, or an object of values), JavaScript truthiness of values, `split`/`join` on a separator, and walking a path of property names.
- `types.dfy`: `Language`, `Provider`, `CacheEntry`, and options validation.
- `cache.dfy`: the cache. It has a pure specification over `CacheState` (insertion order plus entries) and the `TranslationCache` class, whose methods are proved against that specification.
- `db.dfy`: the row-to-object transform. It has a loop method, the fold it computes, and the proof that with prefix-free keys every row's key leads to its last-written value.
- `resolver.dfy`: cache keys, the walk loop, the meaning of one call of `t` (`Translation`), and the method `Translate`, which drives the cache object.

The cache's map keeps insertion order, as a JavaScript `Map` does. In the model that order is an explicit sequence `order`, which is always a duplicate-free list of exactly the map's keys. `Date.now()` is a `now: nat` parameter of each operation.

The comment at `cache.ts:39` calls the eviction policy LRU, and a natural reading would evict only to make room for a new key. The test at `cache.ts:40` looks only at `size >= MAX_CACHE_SIZE`, and the model follows the code:
- The oldest entry is evicted whenever the map holds 1000 or more entries, even when the key being set is already present.
- An update of any existing key other than the oldest therefore shrinks a full cache to 999 (`Cache.SetFullOnOther`).
- An update of the oldest key deletes it and re-appends it, so the size stays at 1000 (`Cache.SetFullOnOldest`).
- `get` never refreshes an entry's position, so eviction is by insertion order, not by recency of use.
- A key that is overwritten without eviction keeps its place, because `Map.set` on an existing key does not move it.

## Model

| member | source | states |
|---|---|---|
| Types.ParseLanguage | lib/translations/types.ts:4 | a language code is accepted exactly when it is `id` or `en` |
| Types.LanguageCodeRoundTrip | lib/translations/types.ts:4 | each `Language` has exactly one code, and parsing that code gives the language back |
| Types.ParseProvider | lib/translations/types.ts:7 | a provider name is accepted exactly when it is `google`, `microsoft` or `openai` |
| Types.ProviderNameRoundTrip | lib/translations/types.ts:7 | each provider has exactly one name, and parsing it gives the provider back |
| Types.Validate | lib/translations/types.ts:17-23 | validation succeeds exactly when every present field has its schema type: provider is one of the three names; cache, detect and batch are booleans; timeout is a number in range |
| Types.ValidateExactly | lib/translations/types.ts:17-23 | `Validate` returns `o` exactly when the raw options are `o`'s own fields and `o`'s timeout, if any, lies in 1000..30000 |
| Types.EmptyOptionsValid | lib/translations/types.ts:17-23 | `{}` validates to options with every field absent |
| Types.TimeoutBounds | lib/translations/types.ts:22 | a timeout validates iff 1000 <= timeout <= 30000 (both bounds inclusive) |
| Nested.Truthy | lib/translations/index.ts:45 | JavaScript truthiness of a translation value: exactly the empty string is falsy (the `if (cached)` test; the same test is the `!current[...]` check at db.ts:55) |
| Nested.WalkPath | lib/translations/index.ts:52-57 | following property names: the empty path stays put; a string has no properties; a successful step needs an object that has the property |
| Nested.Split | lib/translations/index.ts:49 | `key.split('.')` gives at least one part, and no part contains the separator |
| Nested.JoinSplit | lib/translations/index.ts:49 | joining the parts of a split gives back the original key |
| Nested.SplitJoin | lib/translations/db.ts:51 | splitting a join of separator-free parts gives back the parts |
| Nested.SplitInjective | lib/translations/index.ts:49 | different keys split into different part lists |
| Nested.WalkAppend | lib/translations/index.ts:52-57 | walking `p + q` is walking `p`, then `q` from where `p` stopped; a failure along `p` is a failure of the whole |
| Cache.Fetch | lib/translations/cache.ts:19-30 | `get` returns a value exactly when the key is stored and not expired, and the value is the stored text |
| Cache.Evict | lib/translations/cache.ts:40-43 | eviction removes exactly the first-inserted key: the order loses its head, every other entry is kept, and the size drops by one |
| Cache.AfterGet | lib/translations/cache.ts:19-30 | a read keeps the cache well formed (order and map agree, no duplicates) and never grows it |
| Cache.AfterSet | lib/translations/cache.ts:38-50 | after a write the key maps to `(text, now, provider)`; every other key still present keeps its old entry; the state stays well formed |
| Cache.SetKeepsBound | lib/translations/cache.ts:40-43 | a cache of at most 1000 entries still has at most 1000 after a write |
| Cache.Cleared | lib/translations/cache.ts:55-57 | clearing leaves no entries and an empty order |
| Cache.GetAbsent | lib/translations/cache.ts:20-21 | a missing key gives null and changes nothing |
| Cache.GetExpired | lib/translations/cache.ts:24-27 | an entry older than 24 hours gives null and is deleted: only that key goes, and the order closes the gap it left |
| Cache.GetFresh | lib/translations/cache.ts:24-29 | an entry at most 24 hours old is returned as stored and nothing changes |
| Cache.ExpiryBoundary | lib/translations/cache.ts:24 | an entry is still served exactly 86,400,000 ms after its timestamp and gone one millisecond later |
| Cache.SetWhenFull | lib/translations/cache.ts:40-49 | on a full cache the first-inserted key is dropped before the write, even when the written key already exists; all other entries are unchanged |
| Cache.SetFullOnOldest | lib/translations/cache.ts:40-49 | rewriting the oldest key on a full cache moves it to the end and keeps the size |
| Cache.SetFullOnOther | lib/translations/cache.ts:40-49 | rewriting any other existing key on a full cache evicts the oldest and shrinks the cache by one |
| Cache.SetBelowLimit | lib/translations/cache.ts:45-49 | below the limit a new key is appended, an existing key keeps its position, and nothing else changes |
| Cache.SetThenGet | lib/translations/cache.ts:19-50 | a read straight after a write returns the written value and changes nothing |
| Cache.ClearThenGet | lib/translations/cache.ts:55-57 | after clearing, the size is 0 and every read misses |
| Cache.LastWriteOfDistinct | lib/translations/cache.ts:38-50 | in a run of writes with pairwise different keys, each write is the last write of its key |
| Cache.SetAllFrame | lib/translations/cache.ts:38-50 | a run of `set` calls, each with its own key, value, provider and time, leaves every key it does not write either evicted or unchanged |
| Cache.DistinctInsertsKeepNewest | lib/translations/cache.ts:38-50 | after a run of writes of distinct new keys, whatever their values and times, the cache holds exactly the newest 1000 keys, in insertion order |
| Cache.SetAllEntries | lib/translations/cache.ts:45-49 | every key a run writes that is still present holds the entry (text, time, provider) of its last write |
| Cache.OverflowOrder | lib/translations/cache.ts:40-43 | after 1001 writes of distinct keys into an empty cache, the order is the keys without the first |
| Cache.OverflowKeepsLater | lib/translations/cache.ts:40-49 | after 1001 writes of distinct keys into an empty cache, every key but the first holds its own write's entry |
| Cache.OverflowLosesFirst | lib/translations/cache.ts:40-49 | after 1001 writes of distinct keys into an empty cache, the first key reads as null at any time, and every later key holds the entry its write stored |
| Cache.TranslationCache.constructor | lib/translations/cache.ts:10-12 | a new cache is empty and valid |
| Cache.TranslationCache.Get | lib/translations/cache.ts:19-30 | returns `Fetch` of the old state and leaves exactly `AfterGet` of it |
| Cache.TranslationCache.Set | lib/translations/cache.ts:38-50 | leaves exactly `AfterSet` of the old state and keeps at most 1000 entries |
| Cache.TranslationCache.Clear | lib/translations/cache.ts:55-57 | leaves the cleared state |
| Cache.TranslationCache.GetStats | lib/translations/cache.ts:62-67 | reports the current number of entries and the maximum of 1000; the size never exceeds the maximum |
| Db.InsertPath | lib/translations/db.ts:51-61 | storing a value along a key's path: a one-part key always succeeds; a success adds only the first property to the object and leaves its other properties as they were |
| Db.AddRow | lib/translations/db.ts:43-63 | the reduce callback: an undotted key always succeeds; a success adds the row's section and leaves every other section as it was |
| Db.Built | lib/translations/db.ts:42-64 | the reduce over all rows: when it succeeds, its sections are exactly the rows' sections |
| Db.StoreRow | lib/translations/db.ts:43-63 | the callback body run on the accumulator (create the section if missing, split the key, store the value) computes `AddRow` |
| Db.BuildTranslations | lib/translations/db.ts:42-64 | the loop over the rows computes the fold `Built`, stopping at the first row whose write throws |
| Db.PrefixFailureStops | lib/translations/db.ts:55-58 | once a row has failed, the whole transform fails |
| Db.BuiltEmpty | lib/translations/db.ts:42-64 | no rows give `{}` |
| Db.UndottedKeyStoredDirectly | lib/translations/db.ts:46-61 | a key without a dot is stored directly under its section, and the section object is created if missing |
| Db.InsertThenWalk | lib/translations/db.ts:51-61 | after a row is written, walking its key reaches the written string |
| Db.InsertElsewhere | lib/translations/db.ts:54-61 | a write leaves untouched every path that is not a prefix of its key and does not extend it |
| Db.InsertSucceeds | lib/translations/db.ts:54-59 | a write succeeds whenever every intermediate on its path is an object or absent |
| Db.InsertKeepsRouteOpen | lib/translations/db.ts:54-61 | a write keeps every route open, as long as its own key is not a proper prefix of that route |
| Db.BuiltInvariant | lib/translations/db.ts:42-64 | over prefix-free rows, the fold succeeds on every prefix, creates exactly the rows' sections, and keeps each row's key leading to its last write |
| Db.BuiltFindsLastWrite | lib/translations/db.ts:42-64 | over prefix-free rows, the result has one object per section, and walking any row's key gives the value of the last row with that section and key |
| Db.LastWriteWins | lib/translations/db.ts:42-64 | whatever rows came before, when the fold over them and one more row succeeds, the result has that row's section and walking its key there reaches that row's value |
| Db.InsertFails | lib/translations/db.ts:51-61 | a write throws exactly when some proper prefix of its key, walked from the section object, reaches a non-empty string (the loop keeps a truthy string as `current`, and assigning a property on it throws in strict mode) |
| Db.AddRowFails | lib/translations/db.ts:43-63 | the callback throws on a row exactly when its key is blocked that way in the row's section as it stands (an absent section counts as `{}`) |
| Db.BuiltFails | lib/translations/db.ts:42-64 | the transform fails exactly when there is a row whose preceding rows fold successfully and on which the callback throws |
| Resolver.CacheKey | lib/translations/index.ts:38-40 | the cache key starts with the text key and a colon, and ends with a colon and the provider's name |
| Resolver.SectionRoot | lib/translations/index.ts:50 | `translations[section][language]` is the walk of the two-step path section, language |
| Resolver.Lookup | lib/translations/index.ts:49-57 | looking up a dotted key is one walk of the path section, language, then the key's parts |
| Resolver.Translation | lib/translations/index.ts:28-74 | the result of one call of `t` is the key, the table's value, or the cached value; the call touches no cache entry except its own key's, and keeps the cache well formed |
| Resolver.CacheKeyInjective | lib/translations/index.ts:38-40 | cache keys `key:language:section:provider` of colon-free sections are equal only when all four parts are equal |
| Resolver.Walk | lib/translations/index.ts:50-57 | the loop over the key's parts returns exactly the walk of the path: None at the first missing property |
| Resolver.Translate | lib/translations/index.ts:28-74 | returns the text and leaves the cache state of `Translation`, and keeps the cache valid |
| Resolver.CachingOffLeavesCacheAlone | lib/translations/index.ts:38-62 | without `cache: true`, `t` neither reads nor writes the cache: it returns the table's value, or the key |
| Resolver.DefaultsLeaveCachingOff | lib/translations/index.ts:30-31 | with the defaults (section `common`, options `{}`), `t` looks in `common` and leaves the cache alone |
| Resolver.InvalidOptionsFallBack | lib/translations/index.ts:35-73 | options that fail the schema make `t` return the key and leave the cache alone |
| Resolver.ShortTimeoutIsInvalid | lib/translations/types.ts:22 | a timeout of 500 fails the schema |
| Resolver.CacheHitSkipsTable | lib/translations/index.ts:43-46 | for any valid options with `cache: true`, a truthy cached value is returned as it is, whatever the table holds, and the cache is unchanged |
| Resolver.EmptyCachedStringIsMiss | lib/translations/index.ts:45 | for any valid options with `cache: true`, an empty cached string is falsy: the table is consulted and its value written back |
| Resolver.MissingKeyFallsBack | lib/translations/index.ts:52-73 | a key that does not resolve gives back the key; the only cache effect is the read, which may drop an expired entry |
| Resolver.FoundValueIsCached | lib/translations/index.ts:49-64 | for any valid options with `cache: true`, a value found on a miss (a whole object when the key names an inner node) is returned and can then be read back under its cache key |
| Resolver.FixtureLeaf | lib/translations/index.ts:49-57 | in the products table, any key that splits into `sort`, `popularity` resolves in English to "Popularity" |
| Resolver.FixtureSubtree | lib/translations/index.ts:49-57 | any key that splits into `sort` alone resolves to the whole sort object |
| Resolver.FixtureMiss | lib/translations/index.ts:52-55 | any key that splits into `sort`, `missing` resolves to nothing |
| Resolver.FixtureCached | lib/translations/index.ts:43-64 | on an empty cache with `{cache: true}`, a key splitting like `sort.popularity` gives "Popularity" and leaves it cached |
| Resolver.FixtureFallback | lib/translations/index.ts:52-73 | a key splitting like `sort.missing` gives back the key and leaves the empty cache empty |
| Resolver.FixtureKeyLeaf | lib/translations/index.ts:49 | `'sort.popularity'.split('.')` is `sort`, `popularity` |
| Resolver.FixtureKeySort | lib/translations/index.ts:49 | `'sort'.split('.')` is `sort` alone |
| Resolver.FixtureKeyMiss | lib/translations/index.ts:49 | `'sort.missing'.split('.')` is `sort`, `missing` |
| Resolver.FixturePopularity | lib/translations/index.ts:49-57 | the literal key `sort.popularity` in products resolves in English to "Popularity" |
| Resolver.FixtureSortObject | lib/translations/index.ts:49-57 | the literal key `sort` resolves to the whole sort object |
| Resolver.FixtureMissingKey | lib/translations/index.ts:52-55 | the literal key `sort.missing` resolves to nothing |
| Resolver.FixtureCachedPopularity | lib/translations/index.ts:43-64 | `t('sort.popularity', 'products', {cache: true})` on an empty cache gives "Popularity" and leaves it cached under its cache key |
| Resolver.FixtureFallbackMissing | lib/translations/index.ts:52-73 | `t('sort.missing', 'products', {cache: true})` on an empty cache gives back `sort.missing` and leaves the cache empty |

## Left out

- The Supabase client, its environment checks and the query in `fetchTranslations` (`db.ts:1-40`) are I/O. The transform takes the rows as a parameter, and a query error is not modelled.
- `store.ts` (the zustand store) is not modelled. The current language and provider are parameters of `t`, and the one shared `TranslationCache` is the object passed in.
- `providers/base.ts` and `content.ts` are not modelled. The static table is a parameter; a small fixture with the shape of the products section is used in lemmas.
- `console.error` logging in `t` is left out because it is output only. The `TranslationError` class is not modelled as a value: both catch branches return the key, so a failed lookup is None.
- React's hook plumbing (`useTranslation` returning `{ t, language }`) is not modelled.
- `Date.now()` is a `now` parameter. `Resolver.Translate` passes the same `now` to its read and its write, where the code reads the clock twice.
- Schema validation covers only the checks the schema states: field presence and types, the provider enum, and the timeout range. Numbers are reals, so NaN and the infinities are not modelled. Stripping unknown keys and non-object inputs are not modelled.
- JavaScript property-access quirks are not modelled: indexing into a string (`"abc"["0"]`, `length`) and inherited prototype properties. Reading any property of a string is modelled as `undefined`, and a table object holds only its own properties.
- `CacheEntry.text` is declared `string`, but `t` stores whatever the walk reached, including an object. The model's entry therefore holds a translation value of either kind.
- Row values in the database are strings. A falsy intermediate that the transform replaces is an empty string; any other string intermediate makes the write throw (a TypeError in strict mode), which the model turns into a failed transform (None).
- Db.StoreRow: the inner `for` loop of the callback walks a mutable `current` reference into the shared object. The model computes the same result on values, with the recursive `Db.InsertPath`, so update in place and aliasing between sections are not captured (the code never shares objects between sections).
