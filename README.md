# glob-github: the caching filesystem adapter, in Dafny

glob-github runs a glob pattern against the tree of a GitHub repository. An external glob
matcher walks the tree through two calls, `stat(path)` and `readdir(path)`. This module
answers those calls. Directory listings come from the GitHub contents API. Every fetched
fact is kept in a cache that lives as long as the cache object, so a directory listed
successfully is not fetched again by a later call on the same cache. A failed fetch stores
nothing, so the next call for that directory fetches again. At the end, each matched path is mapped to its raw API record, and
the run reports `{limit, cacheHits, apiCalls}`.

The model has four modules:

- `Wrappers` (`wrappers.dfy`): `Option`, which stands for JavaScript's `undefined`, and a
  map lookup.
- `PathKey` (`path_key.dfy`): `toCacheStr`, which sorts the keys of an options object and
  joins their values with `/`. It also holds the path normalisation done by `readdir`, the
  listing-cache key and the bucket key. `Array.prototype.sort` is modelled as an insertion
  sort. `SortedUnique` proves that any correct sort gives the same result.
- `RepoCache` (`repo_cache.dfy`): the cache store (a class whose map of buckets is keyed by
  `user/repo`) and the bucket (a class with three lazily created maps: `stat`, `readdir`
  and `http`). It also holds the lazy initialisation and the in-place writes made for a
  successful listing. The loop over the entries is specified by the fold `Overlay`.
- `Adapter` (`adapter.dfy`): the module-global rate `limit` (class `RateLimit`) and one run
  (class `Session`). A run holds the bucket, its two counters and the `Stat`, `Readdir` and
  `Finish` methods. `Session.Readdir` is proved against the pure function `ReaddirStep`.
  The hit/miss, counter, limit and caching properties are lemmas about `ReaddirStep` and
  about `Replay`, a sequence of calls.

The model follows what the code does, including these points where it may surprise a
reader:

- The code has no in-flight coordinator. Two overlapping misses on the same key both call
  the API.
- The fetch key is built only from `{user, repo, path}`. `opts.branch` is never used.
- Normalisation removes at most one leading and at most one trailing `/`. It does not add
  a leading `/`, and it is not idempotent: `"//a"` becomes `"/a"`, which becomes `"a"`
  (`NormalizeNotIdempotent`).
- `stat` looks the path up exactly as given, with no normalisation. An unknown path gives
  `undefined`, not a fatal error.
- `limit` is a module-level variable. It is shared by every run in the process and is not
  reset per run.
- Only `/` is seeded, not the glob's base path. A stat record is overwritten when a listing
  writes the same path again.

## Model

| member | source | states |
|---|---|---|
| `PathKey.SortKeysSorted` | index.js:10 | sorting the keys gives a sorted permutation of them |
| `PathKey.InsertSorted` | index.js:10 | one insertion step keeps the keys sorted and adds exactly the inserted key |
| `PathKey.SortedUnique` | index.js:10 | two sorted sequences with the same elements are equal, so the key order depends only on the set of keys |
| `PathKey.ToCacheStrOrderFree` | index.js:9-11 | two objects with the same key/value pairs, inserted in any order, give the same fetch key |
| `PathKey.FetchKeyLayout` | index.js:61-66 | the fetch key of `{user, repo, path}` is `path/repo/user` |
| `PathKey.CacheKeySameDirectory` | index.js:61-68 | in one repository, two `readdir` paths share a listing key exactly when they normalise to the same string |
| `PathKey.NormalizeStripsAtMostOne` | index.js:64 | normalising gives exactly the slice of the path between one optional leading `/` and one optional trailing `/`; a path with neither is unchanged |
| `PathKey.NormalizeRoot` | index.js:64 | `'/'` and `''` both normalise to `''` |
| `PathKey.NormalizeSpellings` | index.js:64 | `q`, `/q`, `q/` and `/q/` all normalise to `q` |
| `PathKey.NormalizeNotIdempotent` | index.js:64 | stripping happens once: `//a` gives `/a`, and normalising again gives `a` |
| `RepoCache.StatOf` | index.js:91-99 | a listed entry's stat record has the entry's size, is a file iff its type is `file`, and is a directory iff its type is `dir` |
| `RepoCache.Names` | index.js:86-88 | the pushed names list has one name per entry, in response order |
| `RepoCache.OverlayHas` | index.js:87-100 | after the per-entry writes, the keys are the old keys plus one key per entry |
| `RepoCache.OverlayLast` | index.js:87-100 | a written key holds the value of the last entry written under it |
| `RepoCache.OverlayElsewhere` | index.js:87-100 | a key that no entry writes keeps its old presence and value |
| `RepoCache.InitialisedReady` | index.js:27-47 | after set-up, all three maps exist and `/` is in the stat map; it is the size-0 directory root unless an entry was already there |
| `RepoCache.InitialisedKeeps` | index.js:27-47 | set-up never overwrites: existing stat entries are kept, only `/` may be added, and existing `readdir` and `http` maps are untouched |
| `RepoCache.InitialisedIdempotent` | index.js:27-47 | running the set-up again, as a second run on the same cache does, changes nothing |
| `RepoCache.RootIsDirectory` | index.js:32-40 | the seeded root has size 0, is not a file, and is a directory |
| `RepoCache.Bucket.constructor` | index.js:24 | a new bucket has none of the three maps |
| `RepoCache.Bucket.Initialise` | index.js:27-47 | the bucket's new state is the set-up applied to its old state |
| `RepoCache.Bucket.Record` | index.js:86-101 | after a successful fetch, the names are the entries' names, `stat` and `http` have each entry written in order, and `readdir[key]` is the name list |
| `RepoCache.CacheStore.constructor` | index.js:7 | a new store has no buckets |
| `RepoCache.CacheStore.Open` | index.js:21-26 | the `user/repo` bucket is returned untouched if it exists; otherwise an empty bucket is added under that key and nothing else changes |
| `Adapter.MinLimit` | index.js:80 | the new limit is at most the old limit and at most the reported count, and equals one of them |
| `Adapter.ObserveAllIsMinimum` | index.js:79-81 | over any sequence of responses the limit never rises; it ends at most every reported count and equals the start or one of them |
| `Adapter.SessionLimit` | index.js:13 | starting from `Infinity`, the limit stays unbounded iff no response had the header; otherwise it is the smallest count reported |
| `Adapter.ReaddirCountsOne` | index.js:68-76 | each call adds one to exactly one counter: `cacheHits` on a hit, `apiCalls` on a miss whatever the fetch returns |
| `Adapter.ReaddirHit` | index.js:68-74 | a hit returns the stored listing with no error and changes no map and not the limit |
| `Adapter.ReaddirFailure` | index.js:77-84 | a failed fetch returns the error with no names and adds nothing to any map; only the limit may move |
| `Adapter.ReaddirLimit` | index.js:79-81 | no call raises the limit, and a miss whose response has the header lowers the limit to at most the reported count, failed fetches included |
| `Adapter.ReaddirListing` | index.js:86-102 | a successful fetch returns the names in response order and stores them under the key; every entry gets a stat record at `/`+path and a raw record at its path, and no other key is added |
| `Adapter.ReaddirRecordsEntry` | index.js:90-99 | for each entry (the last one if a path repeats), `http[path]` is the entry and `stat['/'+path]` has its size, isFile iff type `file`, and isDirectory iff type `dir` |
| `Adapter.ReaddirKeeps` | index.js:68-102 | no call removes or changes a stored listing, drops a stat or raw key, or lowers a counter |
| `Adapter.ReaddirAgainHits` | index.js:64-74 | after a successful `readdir(p)`, a `readdir` of any path normalising like `p` is a hit: same names, no fetch, no map change |
| `Adapter.ReaddirOtherDirectoryMisses` | index.js:61-76 | an uncached path that normalises differently from `p` is not answered from `p`'s listing; it fetches |
| `Adapter.ReaddirFailureRetries` | index.js:82-84 | after a failed fetch, the next `readdir` of the same path fetches again |
| `Adapter.ReplayAccounts` | index.js:49-104 | over a whole run, `cacheHits + apiCalls` grows by the number of calls, stored listings survive, and the limit does not rise |
| `Adapter.ReplayAllCached` | index.js:68-74 | a run whose directories are all cached already makes no fetch; only `cacheHits` grows, by the number of calls |
| `Adapter.RateLimit.constructor` | index.js:13 | the limit starts unbounded (`Infinity`) |
| `Adapter.Session.constructor` | index.js:49-50 | a run starts with both counters at 0 |
| `Adapter.Session.Stat` | index.js:55-58 | `stat` returns the record stored under the path exactly as given, or undefined; `/` is always found |
| `Adapter.Session.Readdir` | index.js:60-104 | the new bucket, counters and limit, and the `(err, names)` answer, are those of `ReaddirStep` on the old state, for the key of the normalised path |
| `Adapter.Session.Finish` | index.js:106-114 | each matched path maps to its raw record, or undefined if absent, in matcher order; meta is `{limit, cacheHits, apiCalls}` |
| `Adapter.Start` | index.js:21-50 | a run opens the `user/repo` bucket in the given store and applies the set-up to it; its counters start at 0, the shared limit is unchanged, and no other repository's bucket is changed |

## Left out

- The glob matcher (`wildglob`, index.js:52) is not modelled. Its pattern semantics and
  the order of its calls belong to an external library. `Replay` takes the sequence of
  `readdir` calls as a parameter, and `Finish` takes the matched paths as a parameter.
- The error the matcher passes to the final callback (index.js:106-108) is not modelled.
  How it collects `readdir` errors is up to the matcher.
- The GitHub client is not modelled: its construction, `authenticate`, `opts.github` and
  the `getContent` network call (index.js:2-5, 16-20, 77). The response is the `Reply`
  parameter of `Readdir`.
- `process.nextTick` (index.js:56, 69) is not modelled. Answers are delivered at once, and
  a hit counts at once instead of on the next tick.
- Concurrency is not modelled. The code has no coalescing, and overlapping misses are not
  a sequential behaviour.
- The rate-limit header is taken to be an integer. The model does not cover `parseInt`
  returning `NaN`, which would make `limit` `NaN` for good, and `Infinity` is the
  `Unbounded` case.
- The process-wide `sharedCache` is not a global. A `CacheStore` is passed explicitly,
  and the module-global `limit` is a `RateLimit` object shared by sessions.
- JavaScript object quirks are not modelled: inherited keys such as `constructor` or
  `__proto__` looked up in the cache maps, and integer-like keys that `Object.keys`
  lists first. Maps are plain Dafny maps, and an object is a list of distinct key/value
  pairs.
- Strings are compared by character code. Dafny characters are Unicode scalar values, so
  sorting keys outside the Basic Multilingual Plane may differ from the UTF-16 order
  JavaScript uses. The keys actually used are `user`, `repo` and `path`.
- `isFile()` and `isDirectory()` are closures in the source. Here they are two booleans
  computed from the entry's type.
- Aliasing of the names array is not modelled. The source stores the same `names` array
  it hands to the matcher (index.js:101-102), and every hit hands out that same object
  (index.js:71), so a matcher that mutated it would change the cache. Names are Dafny
  `seq` values here, which cannot be mutated.
- test/example.js is a demo script that calls the network and checks nothing. It is not
  part of this model.
