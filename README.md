# asnjson.com lookup pipeline in Dafny

This project models the core of asnjson.com, a small web service that maps IP
addresses to their Autonomous System ownership records. The modelled part is
the cache-aside batch lookup `process` and the bounded memo in front of it.

- **Records** (`records.dfy`): the resolver's answer (`Attrs`), the stored
  record `{ip, asn, prefix, owner}` (`Record`) and the body a lookup returns
  (`Output`). A body holds either the results with `count` and `cached`, or the
  message "`<ip>` is not a valid IP address".
- **Text** (`text.dfy`): `Split` models Python's `str.split(',')`. Pieces are
  not trimmed, empty pieces are kept, and the empty request is one empty
  piece. `Join` is its inverse, and round trips are proved both ways.
- **Pipeline** (`pipeline.dfy`): the redis store is the class `Store`, whose
  `entries` is a `map` that `Set` updates in place. The resolver is a total
  function parameter `string -> Option<Attrs>`, where `None` stands for the
  `AttributeError` the WHOIS client raises. `Walk` is the reference definition
  of the loop: one `Visit` per piece, in order. `Process` runs that loop
  imperatively and is proved to return `Respond(Walk(...))` and to leave the
  store as `Walk` leaves it. The lemmas cover what `Walk` guarantees:
  - results keep the order of the pieces;
  - `count` and `cached` obey their invariants;
  - the batch succeeds exactly when every piece is stored or resolvable;
  - an abort names the first failing piece;
  - the store only grows, and only under pieces of the batch;
  - the resolver is consulted only for misses;
  - a repeated address is resolved once.
- **Memoize** (`memoize.dfy`): `functools.lru_cache(maxsize=32)` as the class
  `LruCache`. It holds a map from raw request string to body and a recency
  list, least recently used first. A repeated string returns the stored body
  and leaves the store untouched. A new string runs `Process`. When 32 strings
  are already held, the least recently used one is evicted first.
- **Endpoint** (`endpoint.dfy`): the `/` route. A non-empty `q` goes through
  the memoized lookup; otherwise the route returns the fixed banner.

Three behaviours of the code the model keeps:

- The code has no fallback to the resolver on a store read error. The model
  does not take such a path either; its store reads cannot fail, and the
  raise itself is listed under "Left out".
- The code never checks whether a stored value deserializes. A present key
  is a hit, because `process` only writes non-empty JSON.
- The memo is the standard LRU that `lru_cache` implements.

## Model

| member | source | states |
|---|---|---|
| `Text.Split` | app.py:49 | the request splits into at least one comma-free piece, and joining the pieces with commas gives back the request exactly |
| `Text.SplitJoin` | app.py:49 | splitting comma-free pieces that were joined with commas gives back the same pieces, empty ones included, so nothing is trimmed or dropped |
| `Pipeline.Store.Get` | app.py:50-51 | a read finds a record exactly when the key is present, and then it is the stored record |
| `Pipeline.Store.Set` | app.py:67 | a write inserts or overwrites one key and leaves every other entry as it was |
| `Records.MakeRecord` | app.py:59-64 | the record carries the piece as its `ip`, and its other three fields give back exactly the resolver's answer |
| `Records.InvalidAddress` | app.py:57 | the error message is the rejected piece followed by " is not a valid IP address", so the piece can be read back from it |
| `Pipeline.Visit` | app.py:50-68 | one turn succeeds exactly when the piece is stored or the resolver accepts it; on success the appended record is what the store now holds under the piece, `cached` goes up by one exactly on a hit, a hit leaves the store as it was, and a miss writes only the resolver's `{ip, asn, prefix, owner}` record under that piece; an abort names the piece and leaves the store alone |
| `Pipeline.Walk` | app.py:49-68 | the loop over the pieces, in order: a finished walk has one record per piece with `cached` at most that number; an aborted walk names a piece the store lacked and the resolver rejected; the store never loses a key |
| `Pipeline.Respond` | app.py:57-71 | a finished walk becomes a results body with the walk's records and `cached` and with `count` set to the number of records; an aborted walk becomes the error body naming the rejected piece |
| `Pipeline.StoreGrowth` | app.py:50-67 | after a batch, successful or aborted, every entry the store held before is unchanged, and every new key is a piece of the batch holding the resolver's record for it |
| `Pipeline.AbortedPrefix` | app.py:55-57 | once a piece aborts the batch, the later pieces change neither the outcome nor the store |
| `Pipeline.SuccessfulOrder` | app.py:49-68 | a successful batch has one record per piece, in the order of the pieces, and each is the record the final store holds under that piece |
| `Pipeline.SuccessfulKeys` | app.py:50-67 | after a successful batch the store's keys are its old keys plus the pieces it lacked |
| `Pipeline.SuccessfulCount` | app.py:50-67 | `cached` plus the number of distinct missing pieces equals the number of pieces, so the resolver answers once per distinct miss |
| `Pipeline.SuccessIff` | app.py:50-57 | a batch succeeds exactly when every piece is already stored or accepted by the resolver |
| `Pipeline.SuccessfulResults` | app.py:50-68 | on success, the record for each piece in order is the store's old record for it if there was one, and otherwise the resolver's record for it |
| `Pipeline.FirstFailure` | app.py:55-67 | an aborted batch names the first piece, in order, that the store lacks and the resolver rejects; every earlier piece resolves, and the store is left holding what the earlier pieces wrote |
| `Pipeline.ResolverOnlyOnMisses` | app.py:50-55 | two resolvers that agree on the pieces missing from the store give the same outcome and store, so hits never consult the resolver |
| `Pipeline.CountsConsistent` | app.py:49-71 | a successful body has `count` equal to the number of records and of pieces, with `cached` at most `count`; an error body names a piece that the store lacked and the resolver rejected |
| `Pipeline.RepeatedAddress` | app.py:49-68 | "a,a" with `a` uncached and resolvable gives two copies of the resolver's record, `count` 2 and `cached` 1, and stores `a` once |
| `Pipeline.Process` | app.py:39-71 | the loop over the pieces returns the body of `Walk` and leaves the store as `Walk` does, on success and on abort alike |
| `Memoize.Touch` | app.py:38 | marking a string as most recently used takes it out of its one position, keeps every other string in its relative order, and puts it at the end; a string not yet listed is simply appended |
| `Memoize.WithoutSplice` | app.py:38 | in a recency list without repeats, taking a string out removes it from its one position and leaves the rest in order |
| `Memoize.LruCache.constructor` | app.py:38 | the memo starts empty |
| `Memoize.LruCache.Admit` | app.py:38 | a new string's body is recorded and the string goes to the end of the recency list; when 32 strings are already held, the list's head, the least recently used string, is dropped with its body and the others keep their order; no other memoized body changes |
| `Memoize.LruCache.Lookup` | app.py:38-71 | a memoized string returns its stored body, leaves the store unchanged and is moved to the most recently used end by `Touch`; any other string returns what `Process` returns, changes the store as `Process` does, and is appended after evicting the list's head when 32 strings are held; the memo never holds more than 32 strings and never changes a body it keeps |
| `Endpoint.Index` | app.py:89-93 | an empty `q` returns the banner and touches nothing; a non-empty memoized `q` returns its memoized body, leaves the store and the memoized bodies alone and moves `q` to the most recently used end by `Touch`; a non-empty `q` not yet memoized returns the body of `Walk` over the pieces of `q`, leaves the store as `Walk` does, and is appended to the recency list after evicting its head when 32 strings are held; no other memoized body changes |

## Left out

- HTTP routing, the CORS and content-type decorators, `OPTIONS` short-circuits, and the `/ping` route (app.py:9-24, 35-37, 84-87). These are framework plumbing.
- `return_error`'s logging and its setting of `response.status` (app.py:26-33). Only the body is modelled. On a memo hit the status is not set again, because only the body is memoized.
- The `/cache` admin endpoint (app.py:73-82). It enumerates redis keys over the network.
- Argument parsing, logging setup, the redis connection and server start-up (app.py:95-132). These are configuration and I/O.
- Redis expiry (`ex=args.redis_ttl`, app.py:67). This is wall-clock time. The store is an untimed map, so the model cannot show an entry expiring between the write at line 67 and the re-read at line 68.
- A memoized body can outlive the store entries it was computed from. The model shows this only as "a memo hit ignores the store".
- JSON serialization of stored values (app.py:51, 67-68). The store holds the record itself.
- The WHOIS client (app.py:55). It is a network call, modelled as the `resolve` parameter. Calls are not counted directly. "Resolved once per distinct miss" is stated through `cached` and `Misses`. The `try` at app.py:54-56 covers only the lookup call. If the client returns normally with a value lacking `asn`, `prefix` or `owner` (for example `None`), the `AttributeError` is raised at app.py:61-63, outside the `try`, and escapes uncaught with no error body. `resolve` returning `Some(Attrs)` assumes the lookup either raises or returns all three fields.
- Store read and write failures. The store is an in-memory map, so redis connection errors are not modelled.
- Thread safety of the memo under concurrent requests. Concurrency is out of scope.
- Two memo keys for one string. The `/get/<ip>` route calls `process` with a keyword argument and `index` calls it positionally, so `lru_cache` keeps separate entries for the same string, one per route, and both count toward the same 32. The model has a single key space of request strings, which matches calls through `index` only.
- Resolver exceptions other than `AttributeError`, such as network errors at app.py:55. These escape `process` uncaught and are never memoized. The total `resolve` parameter cannot express them.
- The double read on a hit (app.py:50-51). If the entry expires between the two reads, `json.loads(None)` raises. The model reads once, because the store has no expiry.
