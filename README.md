# node-wreq client core, modelled in Dafny

This project models the sequential logic in `rust/src/client.rs` of node-wreq. That file is the Rust side of a browser-impersonating HTTP client. The networking itself goes through the external `wreq` engine and is not modelled. Four pieces of logic around it are:

- **The client cache.** `ClientCache` is a bounded LRU cache of built HTTP clients.
  - Clients are keyed by `ClientKey`: the emulation label, the proxy URL and a timeout bucket.
  - `get_or_try_insert` returns a cached client on a hit. On a miss it runs a builder that may fail, stores the built client and returns it.
  - `bump_key` keeps the recency queue. It moves the key to the back, then evicts keys from the front while the queue holds more than 1024 keys.
  - The model is a class, `ClientCaching.ClientCache`. The concurrent map becomes a `map<ClientKey, C>` field and the queue becomes a `seq<ClientKey>` field.
  - The methods are proved against the specification functions `Without`, `Bumped` and `Evicted`. The invariant `Valid()` says the queue has no duplicates, holds exactly the map's keys and never exceeds the limit.
- **Timeout buckets.** `bucket_timeout` rounds a timeout in milliseconds up to a multiple of 5000, with at least one bucket (`Timeouts.BucketTimeout`).
- **Method normalisation.** This is the start of `make_request`:
  - an empty method means `GET`;
  - the method is upper-cased;
  - only GET, POST, PUT, DELETE, PATCH and HEAD are accepted, and anything else gives "Unsupported HTTP method: X".
- **Set-Cookie splitting.** Only the first `set-cookie` value is read, and only if it is visible ASCII.
  - The value is cut at every `;`. Each piece is trimmed and cut at its first `=`, and the pair is inserted into a map, so later names overwrite earlier ones.
  - This is deliberately simpler than RFC 6265. Attributes such as `Path=/` end up in the map as if they were cookies, and pieces without `=` are skipped.
  - A specification function, `CookieMap`, describes the fold over the pieces. The loop, `CollectCookies`, is proved against it.

`Requests` ties the parts together:
- `get_or_build_client` derives the key and consults the cache.
- At the start of `make_request` the client is fetched, and on a miss built and cached, before the method is checked. So a request with an unsupported method still leaves its client in the cache.
- A failure to build the client is reported ahead of an unsupported method.

Modules: `Results` (Option/Result), `Timeouts`, `ClientCaching`, `Methods`, `Cookies`, `Requests`.

## Model

| member | source | states |
|---|---|---|
| `Timeouts.BucketTimeout` | rust/src/client.rs:209-212 | the bucket is a positive multiple of 5000 that is at least the timeout. For a positive timeout it is below timeout + 5000, and timeout 0 gives 5000. Requires that `timeout + 5000` does not overflow `u64` |
| `Timeouts.BucketIsLeastCover` | rust/src/client.rs:209-212 | the bucket is the least positive multiple of 5000 that covers the timeout (reference characterisation) |
| `Timeouts.BucketMonotone` | rust/src/client.rs:209-212 | a longer timeout never gets a smaller bucket |
| `Timeouts.BucketIdempotent` | rust/src/client.rs:209-212 | rounding a bucket again leaves it unchanged |
| `Timeouts.ShortTimeoutsShareFirstBucket` | rust/src/client.rs:209-212 | every timeout from 0 to 5000 gets the bucket 5000 |
| `Timeouts.BucketOfPositive` | rust/src/client.rs:209-212 | for a positive timeout t the bucket is ((t - 1) / 5000 + 1) * 5000 |
| `Timeouts.SameBucketIff` | rust/src/client.rs:209-212 | two positive timeouts share a bucket exactly when they lie in the same interval (5000k, 5000(k+1)] |
| `ClientCaching.Without` | rust/src/client.rs:63 | `retain(existing != key)` keeps exactly the other keys and never lengthens the queue |
| `ClientCaching.WithoutNoDup` | rust/src/client.rs:63 | `retain` keeps a duplicate-free queue duplicate-free |
| `ClientCaching.WithoutPresentLength` | rust/src/client.rs:63 | removing a key that occurs once shortens the queue by exactly one |
| `ClientCaching.WithoutKeepsOrder` | rust/src/client.rs:63 | `retain` is order-preserving: any two other keys keep their relative order |
| `ClientCaching.Bumped` | rust/src/client.rs:61-71 | after a bump the queue holds between 1 and 1024 keys, and the bumped key is at the back |
| `ClientCaching.Evicted` | rust/src/client.rs:66-70 | the popped keys are a proper prefix of the requeued queue, oldest first. Nothing is popped while the requeued queue fits in 1024 keys, and at most one key is popped when the queue held at most 1024 |
| `ClientCaching.BumpPartition` | rust/src/client.rs:61-71 | after a bump the queue has no duplicates, and its keys are the old keys plus the bumped one minus the evicted ones. The bumped key is never evicted |
| `ClientCaching.BumpHitEvictsNothing` | rust/src/client.rs:61-71 | bumping a key that is already queued (a hit) evicts nothing and keeps the queue's length |
| `ClientCaching.BumpMissEvictsOldest` | rust/src/client.rs:61-71 | bumping a new key evicts nothing below the limit, and exactly the front (oldest) key when the queue was full |
| `ClientCaching.BumpKeepsOrder` | rust/src/client.rs:61-71 | keys other than the bumped one keep their relative order across a bump, in both directions |
| `ClientCaching.BumpEvictsLeastRecent` | rust/src/client.rs:66-70 | LRU eviction: every evicted key was queued before every surviving key other than the bumped one |
| `ClientCaching.ClientCache.constructor` | rust/src/client.rs:37-42 | a new cache is empty and satisfies the invariant |
| `ClientCaching.ClientCache.BumpKey` | rust/src/client.rs:61-71 | the new queue is `Bumped(old queue, key)`, and the map loses exactly the keys popped from the front |
| `ClientCaching.ClientCache.GetOrTryInsert` | rust/src/client.rs:44-59 | keeps the invariant (no duplicates, queue keys equal map keys, at most 1024 keys). A hit returns the stored client whatever the builder's outcome, leaves the map unchanged and moves the key to the back. A failed miss returns the error and changes nothing. A successful miss stores the built client under the key at the back of the queue and evicts only front keys |
| `Methods.ToUpper` | rust/src/client.rs:112 | upper-casing never shortens a string |
| `Methods.UpperChar` | rust/src/client.rs:112 | an ASCII lower-case letter becomes the upper-case letter 32 code points below it, and any other ASCII character is kept. Every character upper-cases to at least one character and leaves no ASCII lower-case letter |
| `Methods.ToUpperHasNoAsciiLower` | rust/src/client.rs:112 | the upper-cased method contains no ASCII lower-case letter |
| `Methods.ToUpperIdempotent` | rust/src/client.rs:112 | upper-casing twice equals upper-casing once |
| `Methods.EffectiveMethod` | rust/src/client.rs:106-112 | an empty method stands for `GET`. The method matched on is never shorter than the given one, contains no ASCII lower-case letter and is already its own upper case |
| `Methods.NormalizeMethod` | rust/src/client.rs:106-123 | an empty method gives GET. An accepted method's verb is spelled exactly as the upper-cased input. A rejected input is one whose upper-cased form is none of the six verbs; its error is "Unsupported HTTP method: " followed by that form |
| `Methods.NormalizeIgnoresCase` | rust/src/client.rs:106-123 | a method and its upper-cased spelling normalise alike |
| `Methods.NormalizeAcceptsVerb` | rust/src/client.rs:115-121 | each of the six verbs is accepted in upper case and in lower case (e.g. `post`) |
| `Methods.NormalizeLongS` | rust/src/client.rs:112-117 | the Unicode-aware upper-casing makes "po" + U+017F (long s) + "t" an accepted POST |
| `Methods.NormalizeRejectsUnknown` | rust/src/client.rs:122 | an upper-case word that is none of the six verbs is rejected with "Unsupported HTTP method: " and the word, whether written in upper or lower case |
| `Cookies.TrimStart` | rust/src/client.rs:162 | the result is a suffix that does not start with whitespace, and only whitespace was dropped |
| `Cookies.TrimEnd` | rust/src/client.rs:162 | the result is a prefix that does not end with whitespace, and only whitespace was dropped |
| `Cookies.Trim` | rust/src/client.rs:162 | a trimmed piece neither starts nor ends with whitespace |
| `Cookies.TrimIsSlice` | rust/src/client.rs:162 | trimming yields the slice between a whitespace-only prefix and a whitespace-only suffix |
| `Cookies.SplitOnce` | rust/src/client.rs:162 | no result exactly when the separator is absent. Otherwise the first half has no separator, and first half + separator + second half is the input |
| `Cookies.SplitOnceAt` | rust/src/client.rs:162 | the cut is at the first separator; later separators stay in the value |
| `Cookies.Split` | rust/src/client.rs:161 | there is at least one piece, and no piece contains the separator |
| `Cookies.JoinSplit` | rust/src/client.rs:161 | joining the pieces with the separator gives the input back |
| `Cookies.SplitJoin` | rust/src/client.rs:161 | splitting pieces joined by the separator gives the pieces back |
| `Cookies.SplitConcat` | rust/src/client.rs:161 | splitting `a;b` gives the pieces of `a` followed by those of `b` |
| `Cookies.PiecePair` | rust/src/client.rs:162 | a piece yields no pair exactly when its trimmed text has no `=`. Otherwise the name has no `=`, and name, `=` and value spell the trimmed piece |
| `Cookies.InsertAll` | rust/src/client.rs:161-165 | the map never has more names than there were pairs, and the pair inserted last is always present with its value |
| `Cookies.CookieMap` | rust/src/client.rs:160-165 | the pieces never yield more cookies than there are pieces |
| `Cookies.CollectCookies` | rust/src/client.rs:161-165 | the loop's map is `CookieMap` of the pieces |
| `Cookies.ParseCookies` | rust/src/client.rs:161-165 | the cookies of a header value are `CookieMap` of its `;`-pieces |
| `Cookies.HeaderValueToStr` | rust/src/client.rs:159 | text is produced exactly when every byte is a tab or visible ASCII, and it has the same code points as the bytes |
| `Cookies.CookiesFromSetCookie` | rust/src/client.rs:157-167 | with no set-cookie value, or a first value that is not visible ASCII, the map is empty. Otherwise it is the cookies of the first value; later values are ignored |
| `Cookies.InsertAllConcat` | rust/src/client.rs:161-165 | inserting two runs of pairs gives the right-biased union of their maps, so later names overwrite earlier ones |
| `Cookies.InsertAllDomain` | rust/src/client.rs:163 | a name is in the map exactly when some pair names it |
| `Cookies.LastDefinitionWins` | rust/src/client.rs:163 | the value stored for a name is that of the last pair naming it |
| `Cookies.CookieMapOfPieces` | rust/src/client.rs:161-165 | the value stored for a name is that of the last piece defining it |
| `Cookies.PieceWithoutEqualsSkipped` | rust/src/client.rs:162-164 | a piece without `=` after trimming contributes nothing |
| `Cookies.CookieHeaderConcat` | rust/src/client.rs:161-165 | the cookies of `a;b` are those of `a` overwritten by those of `b` |
| `Cookies.SingleCookie` | rust/src/client.rs:161-165 | `name=value` yields exactly that cookie, even when the value contains `=` |
| `Cookies.BareFlagIgnored` | rust/src/client.rs:162 | a flag such as `HttpOnly` (no `=`) yields no entry |
| `Cookies.AttributeStoredAsCookie` | rust/src/client.rs:160-165 | an attribute piece such as ` Path=/` is stored like a cookie named `Path` (simplified parsing, not RFC 6265) |
| `Requests.KeyFor` | rust/src/client.rs:185-189 | the key carries the options' emulation label and proxy, and a timeout bucket that is a multiple of 5000 covering the timeout |
| `Requests.ShortTimeoutsShareKey` | rust/src/client.rs:185-189 | requests that differ only in timeouts of at most 5000 ms share a key, and so share a client |
| `Requests.SameKeyIff` | rust/src/client.rs:185-189 | two requests share a key exactly when label, proxy and timeout bucket agree |
| `Requests.GetOrBuildClient` | rust/src/client.rs:184-192 | keeps the cache invariant. On a hit the stored client is returned and the map is unchanged. On a miss whose build failed the error is returned and the cache is unchanged. On a miss whose build succeeded the new client is returned, stored under the key, and only the evicted keys leave the map. Either success bumps the key |
| `Requests.PrepareRequest` | rust/src/client.rs:94-123 | on a hit the stored client is paired with the method check, and the map is unchanged. On a failed miss the build error is returned and the cache is unchanged. On a successful miss the built client is stored and paired with the method check. The key is bumped before the method is checked, so an unsupported method still leaves the client cached |
| `Requests.WithMethod` | rust/src/client.rs:106-123 | succeeds exactly when the method normalises. It then pairs the given client with the verb named by the upper-cased method; otherwise it returns "Unsupported HTTP method: " and the upper-cased method |

## Left out

- The asynchronous send and the response-body read of `make_request` (rust/src/client.rs:139-142, 170-173). They are network I/O through the external `wreq` engine.
- `build_client` and `Proxy::all` (rust/src/client.rs:194-207) are foreign builder calls. Their outcome is the input `built: Result<C>`. The client type is the type parameter `C`.
- `HTTP_RUNTIME` and the `CLIENT_CACHE` global (rust/src/client.rs:15-22) are process-wide lazy statics. The cache is passed in as an object.
- The concurrency of `DashMap` and the `Mutex` around the queue. The model is single-threaded, and the agreement between map and queue is proved only for sequential use.
- `emulation_label` (rust/src/client.rs:214-219) depends on serialising a foreign enum. The options carry the label string directly.
- Request header application (rust/src/client.rs:126-128) iterates the caller's `HashMap<String, String>` in unspecified order and calls the engine's foreign header API.
- Response header extraction (rust/src/client.rs:149-154) iterates the engine's `HeaderMap` and keeps only the values whose `to_str` succeeds. The map type and its iteration belong to the foreign `http` crate.
- The request body and applying the timeout as a `Duration` (rust/src/client.rs:131-136). They are handed to the engine unchanged.
- `Methods.UpperChar`: maps ASCII letters and the non-ASCII letters whose upper-case form is all ASCII (ß, ı, ſ and the Latin ligatures U+FB00 to U+FB06). It keeps every other character unchanged, whereas `str::to_uppercase` changes many of them: some to other non-ASCII letters, some (such as U+0149 and U+01F0) to an ASCII letter combined with a non-ASCII character. No such result is all ASCII, so it can never spell one of the six verbs.
- `Methods.ToUpper`: inherits the gap of `Methods.UpperChar`. Acceptance is modelled exactly, but the text of the unsupported-method error can differ for inputs holding other non-ASCII letters.
- `Timeouts.BucketTimeout`: requires `timeout + 5000 <= u64::MAX`, because the source forms that sum first. Above it the addition overflows (a panic in debug builds, wrap-around in release builds), which is not modelled.
- `ClientCaching.ClientCache.GetOrTryInsert`: whether the builder runs is not observable in the model. What stands for "not invoked on a hit" is that the hit's result and new state do not depend on `built`.
