# Price data: lookup, sync and signed words

This project models the core of `py/utils.py` of the price-data tool, in three parts:

- **Point lookup** (`get_price_from_timestamp` and its module-global flag `_timestamp_warning_shown`).
  A target time in seconds is converted to milliseconds. The series is scanned for the first adjacent pair of samples that brackets the target, and the left sample's price is returned.
  If no pair brackets the target, the lookup falls back to the last sample's price. The first fallback in a process prints a warning.
- **Price sync** (the `if update_prices:` block of `get_prices`).
  The pass computes the catalog addresses not cached under any key, in catalog order, and requests each one's series with at most three attempts.
  This pending list is the corrected one. The source's own list (`ReservedKeyStall.PendingAsWritten`) does not count a cached "eth_to_usd" entry as cached. The two lists agree unless the catalog lists the reserved key (see Findings). The attempts go as follows:
  - 429: wait 30 × retry.
  - 503: wait 60.
  - Exception: wait 10 × retry, except after the last attempt.
  - Any other status, or a 200 without prices: skip the address.
  A 200 with prices stores the series. The cache is written to disk after every fifth stored series, and a 2-second cooldown follows every store. The cache is saved once more at the end.
- **Signed 256-bit words** (`toSigned256`). This masks an integer to 256 bits and reads the result as two's complement.

Files and modules:

| file | module | contents |
|---|---|---|
| `option.dfy` | `Wrappers` | `Option` |
| `lookup.dfy` | `PriceLookup` | The lookup as a function (`PriceAt`). The warning flag is a field of the class `Lookup`, whose method `GetPriceFromTimestamp` has the loop. |
| `sync.dfy` | `PriceSync` | The sync pass as functions over a `SyncState`. The same pass as methods with loops: `TryOnce`, `FetchAddress`, `SyncPending`, `SyncPrices`. |
| `sync_facts.dfy` | `PriceSyncFacts` | What the pass promises, as lemmas. |
| `stall.dfy` | `ReservedKeyStall` | The pending-list finding below. |
| `signed.dfy` | `Signed` | `&` and `^` on Python's unbounded integers, bit by bit, and `ToSigned256`. |

How the effects are modelled:
- The network, the clock and the disk are inputs or logs.
  - `respond(k, marketId)` is the response to the k-th request of the pass: a raised exception, or a status with a body. The body is one of three kinds:
    - a JSON object with a "prices" field;
    - a body on which `"prices" in data` is false without raising (an object without the field, or a list or string without "prices");
    - a body whose reading raises (text that `response.json()` rejects, JSON null, a number or a bool, or a list or string that contains "prices").
  - Every `time.sleep` appends its duration to `waits`.
  - Every `json.dump` appends the snapshot it writes to `saves`.
  - Every request appends its address to `requests`.
- Prices are a type parameter, because they are only copied.
- The catalog (`coin_list`) is a sequence of `Token(address, marketId)` in dict order, with distinct addresses (`UniqueAddresses`).

Where the code and the documented behaviour differ, the model follows the code:
- A 200 response whose body cannot be read raises inside the `try`. Reading fails when `response.json()` rejects the text, when `"prices" in data` fails on null, a number or a bool, or when `data["prices"]` fails on a list or string that contains "prices". Such a response is retried as an exception, not treated as a terminal "empty data" outcome.
- The 2-second cooldown follows every stored series, not only checkpoints.
- A 429 or 503 on the third attempt still sleeps before the loop ends. An exception on the third attempt does not.

## Model

| member | source | states |
|---|---|---|
| `Signed.ToSigned256` | py/utils.py:305-307 | The result lies in [-2^255, 2^255) and is congruent to `n` modulo 2^256. It is the identity on [0, 2^255) and subtracts 2^256 on [2^255, 2^256). It equals the arithmetic reference `Wrapped`, which uses no bit operations. |
| `Signed.MaskIsMod` | py/utils.py:306 | Masking with 256 one-bits is the Euclidean remainder modulo 2^256, also for negative `n` (Python's two's-complement `&`). |
| `Signed.AndLowBits` | py/utils.py:306 | `a & (2^k - 1)` is `a mod 2^k` for every integer `a` and every `k`. |
| `Signed.FlipIsShift` | py/utils.py:307 | For a 256-bit word `m`, `(m ^ 2^255) - 2^255` is `m` below the sign bit and `m - 2^256` from it on. |
| `Signed.XorTopBit` | py/utils.py:307 | Flipping bit `k` of a (k+1)-bit value adds 2^k if the bit was clear and subtracts 2^k if it was set. |
| `Signed.FlipSignBit` | py/utils.py:305-307 | The masked-and-flipped expression of the source equals the reference `Wrapped(n)`. |
| `Signed.WordConstants` | py/utils.py:306-307 | The two hexadecimal constants are 2^256 - 1 and 2^255. |
| `Signed.And` | py/utils.py:306 | Python's `&` with a non-negative mask, bit by bit. It has no contract of its own; `AndLowBits` states what it computes. |
| `Signed.Xor` | py/utils.py:307 | Python's `^` on non-negative integers, bit by bit. It has no contract of its own; `XorTopBit` states what it computes. |
| `Signed.ToSigned256Periodic` | py/utils.py:305-307 | Inputs that differ by 2^256 give the same result. |
| `Signed.ToSigned256Idempotent` | py/utils.py:305-307 | Applying the conversion to its own result gives that result back. |
| `PriceLookup.FirstBracket` | py/utils.py:287-290 | The result is the first index from `from` whose pair brackets the target. None means that no pair from `from` brackets it. |
| `PriceLookup.PriceAt` | py/utils.py:285-296 | If the first bracketing pair is at `i`, the result is `prices[i]`'s price. With no bracketing pair it is the last sample's price. It is always one of the series' prices, so it is never interpolated. |
| `PriceLookup.BracketIffInSpan` | py/utils.py:287-290 | On a sorted series of at least two samples, a bracketing pair exists exactly when the target lies between the first and the last timestamp. |
| `PriceLookup.ExactHitTakesPrevious` | py/utils.py:288-290 | On a strictly increasing series, a target equal to the timestamp of sample `i > 0` returns sample `i-1`'s price, because the earlier pair already brackets it. |
| `PriceLookup.ThreeSampleExample` | py/utils.py:285-296 | Series `[[1000,a],[2000,b],[3000,c]]`: lookups at 1 and 2 s give `a`, at 3 s give `b`, at 0 and 4 s fall back to `c`. |
| `PriceLookup.Lookup.constructor` | py/utils.py:280-281 | A new process starts with the flag clear and no warning printed. |
| `PriceLookup.Lookup.GetPriceFromTimestamp` | py/utils.py:283-296 | Returns `PriceAt` and needs a non-empty series, because the last sample is read first. The flag becomes old flag OR fallback, so it only goes from false to true and a hit leaves it alone. A warning is printed exactly on a fallback with the flag clear. |
| `PriceLookup.LookupAll` | py/utils.py:280-296 | Over any sequence of lookups in one process, each result is its `PriceAt`. The warning is printed once if some lookup falls back, and never otherwise. |
| `PriceSync.Classify` | py/utils.py:218-263 | The branch a response takes. A 200 with prices stores its series and a 200 without prices is skipped. A 429 or 503 backs off, and any other status is skipped. An exception is retried, and so is a 200 whose body cannot be read. It has no contract of its own; `PriceSyncFacts.StepFacts` states each branch's effect on the cache, the retry count and the exact wait. |
| `PriceSync.Step` | py/utils.py:213-263 | One attempt appends exactly one request for the address. It either ends the address or uses up one retry, and the retry count never exceeds 3. |
| `PriceSync.Attempts` | py/utils.py:213-263 | The retry loop from a given retry count. It has no contract of its own; `PriceSyncFacts.AttemptsRequests`, `AttemptsStore` and `AttemptsWaits` state what it does. |
| `PriceSync.Fetch` | py/utils.py:209-263 | The retry loop for one address, from a retry count of 0. It has no contract of its own; `PriceSyncFacts.FetchFacts`, `FetchRequestCount` and `FetchProgress` state what it does. |
| `PriceSync.Pass` | py/utils.py:199-271 | The outer loop: one `Fetch` per pending token, in order. It has no contract of its own; `PriceSyncFacts.PassProgress`, `PassRequestCount` and `PassAllServed` state what it does. |
| `PriceSync.Pending` | py/utils.py:193-197 | The corrected pending list. A catalog token is kept iff its address is not cached under any key, the reserved key included, and distinct catalog addresses stay distinct. The source's list is `ReservedKeyStall.PendingAsWritten`; `ReservedKeyStall.AsWrittenAgrees` shows the two agree unless the catalog lists "eth_to_usd". |
| `PriceSync.Sync` | py/utils.py:189-275 | The whole `if update_prices:` block over the corrected pending list, with its final save, or nothing when updates are off. It has no contract of its own; `PriceSyncFacts.SyncStores`, `SyncRequests`, `AllCachedIsNoOp`, `NoUpdateIsNoOp` and `AllServedCachesCatalog` state what it does. |
| `PriceSync.TryOnce` | py/utils.py:214-263 | The loop body on the pass's variables gives the state, retry count and success flag of `Step`. It adds at most the current address to the cache. |
| `PriceSync.FetchAddress` | py/utils.py:209-263 | The retry loop's final state is `Fetch`'s, and the only key it can add is its own address. |
| `PriceSync.Filter` | py/utils.py:193-197 | A token is kept iff it is in the catalog and its address is not excluded. Distinct addresses stay distinct. |
| `PriceSync.StillUncached` | py/utils.py:199-205 | If the fetch of pending token `i` adds only that token's address, the later pending tokens are still uncached, so the guard at line 205 holds for each of them. |
| `PriceSync.SyncPending` | py/utils.py:192-271 | The outer loop over the corrected pending list `Pending` ends in the state of `Pass` over that list. Every token it reaches is still uncached. |
| `PriceSync.SyncPrices` | py/utils.py:189-275 | The returned cache and the request, wait and save logs are those of `Sync`: the pass over the corrected pending list followed by the final save when updates are on, and nothing otherwise. |
| `PriceSyncFacts.StepFacts` | py/utils.py:213-263 | An attempt stores the series and cools down 2 s exactly when the response is a 200 with prices. It ends the address iff the response is not retryable, or it is an exception on the last attempt. The wait uses the retry count shared by all three kinds of retry: a 429 waits 30 × (retry count + 1) s, a 503 waits 60 s, and an exception waits 10 × (retry count + 1) s, or nothing on the last attempt. A terminal attempt without a series waits nothing. |
| `PriceSyncFacts.StepWaits` | py/utils.py:231-260 | One attempt sleeps at most once. It keeps the earlier waits and appends one wait of 2 to 90 s. |
| `PriceSyncFacts.AttemptsRequests` | py/utils.py:213-215 | From any retry count, the retry loop appends between one and the remaining number of requests, all for its address. |
| `PriceSyncFacts.AttemptsStore` | py/utils.py:218-263 | Every response but the last was retryable (429, 503 or exception). The cache, counter and checkpoints change only by the last response's series, and only when that response is a 200 with prices. |
| `PriceSyncFacts.AttemptsWaits` | py/utils.py:231-260 | The retry loop sleeps at most once per attempt, each time between 2 and 90 s, appended to the wait log. |
| `PriceSyncFacts.FetchFacts` | py/utils.py:209-263 | The retry loop for one address: 1 to 3 requests, every response but the last retryable, a store only from a final 200 with prices, and at most 3 sleeps. |
| `PriceSyncFacts.RateLimitedThrice` | py/utils.py:235-239 | Three 429 responses: three requests, waits of 30, 60 and 90 s, nothing stored. |
| `PriceSyncFacts.UnavailableThenRateLimited` | py/utils.py:235-244 | A 503 and then two 429s share one retry count: three requests, waits of 60, 60 and 90 s, nothing stored. |
| `PriceSyncFacts.UnavailableThrice` | py/utils.py:240-244 | Three 503 responses: three requests, three waits of 60 s, nothing stored. |
| `PriceSyncFacts.RaisesThrice` | py/utils.py:255-263 | Three exceptions: three requests, waits of 10 and 20 s only, nothing stored. |
| `PriceSyncFacts.RejectedAtOnce` | py/utils.py:245-253 | A status other than 200, 429 or 503 ends the address after one request, with no wait and nothing stored. |
| `PriceSyncFacts.NoPricesAtOnce` | py/utils.py:232-234 | A 200 without prices ends the address after one request, with no wait and nothing stored. |
| `PriceSyncFacts.ServedAfterRateLimit` | py/utils.py:218-239 | A 429 and then a 200 with prices: two requests, waits of 30 and 2 s, the series stored and counted. |
| `PriceSyncFacts.FetchProgress` | py/utils.py:218-231 | Fetching an uncached address keeps `Progress`, overwrites no entry and adds at most that address. |
| `PriceSyncFacts.PassProgress` | py/utils.py:199-271 | Over uncached tokens with distinct addresses, the pass keeps `Progress`: no loaded entry overwritten, one count per stored series, one checkpoint per 5 stores, each checkpoint still a sub-map of the cache. It adds only pending addresses. |
| `PriceSyncFacts.FetchRequestCount` | py/utils.py:213-215 | The retry loop requests its address 1 to 3 times and no other address. |
| `PriceSyncFacts.PassRequestCount` | py/utils.py:199-271 | The pass requests every pending address 1 to 3 times and no other address: each pending address is processed exactly once. |
| `PriceSyncFacts.FilterAppend` | py/utils.py:193-197 | Filtering keeps catalog order: the pending list of a catalog `a + b` is the pending list of `a` followed by that of `b`. |
| `PriceSyncFacts.PendingFacts` | py/utils.py:193-197 | On the corrected pending list, the pending addresses are exactly the catalog addresses minus the cached keys. They are distinct and all uncached. |
| `PriceSyncFacts.FinalSave` | py/utils.py:273-275 | After a pass that kept `Progress`, the final save makes the save log `Durable`. |
| `PriceSyncFacts.SyncStores` | py/utils.py:189-275 | With updates on: no loaded entry (the reserved key included) is overwritten, and only catalog addresses are added. The cache grows by the counter. There are counter/5 checkpoints plus the final save, which is the final cache. Checkpoint `i` holds the loaded entries plus exactly 5(i+1) series, and later stores do not change them. |
| `PriceSyncFacts.SyncRequests` | py/utils.py:192-271 | With updates on, each uncached catalog address is requested 1 to 3 times. Cached and non-catalog addresses are never requested. |
| `PriceSyncFacts.AllCachedIsNoOp` | py/utils.py:193-197 | If every catalog address is cached, a sync makes no request and no wait, leaves the cache unchanged and saves it once. |
| `PriceSyncFacts.NoUpdateIsNoOp` | py/utils.py:189 | With updates off, nothing is requested, waited for or saved, and the loaded cache is returned. |
| `PriceSyncFacts.FetchServed` | py/utils.py:218-231 | If the first response is a 200 with prices, the address takes one request and its series is stored. |
| `PriceSyncFacts.PassAllServed` | py/utils.py:199-271 | If every response is a 200 with prices, the pass caches every pending address with one request each. |
| `PriceSyncFacts.AllServedCachesCatalog` | py/utils.py:189-275 | A sync in which every request is served caches the loaded keys plus the whole catalog. A later sync from that cache requests nothing. |
| `ReservedKeyStall.PendingAsWritten` | py/utils.py:196-197 | The source's pending list keeps a catalog token iff its address is uncached or is the reserved key. |
| `ReservedKeyStall.OuterStep` | py/utils.py:200-271 | One iteration of the outer loop with the guard at line 205. An uncached address is fetched and the index advances; a cached one leaves the index and the state unchanged. It has no contract of its own; `RunStaysBefore` states its effect. |
| `ReservedKeyStall.Run` | py/utils.py:199-271 | The outer loop run for at most `n` iterations. It has no contract of its own; `RunStaysBefore`, `ReservedKeyStalls` and `RunFinishes` state what it does. |
| `ReservedKeyStall.FetchKeepsKeys` | py/utils.py:218-263 | The retry loop never removes a cached key. |
| `ReservedKeyStall.RunStaysBefore` | py/utils.py:199-271 | Once the outer loop is at or before a pending address that is cached, no number of iterations moves it past that address. |
| `ReservedKeyStall.ReservedKeyStalls` | py/utils.py:196-205 | As written: if the catalog lists the reserved key and it is cached, the outer loop is still running after any number of iterations. |
| `ReservedKeyStall.AsWrittenAgrees` | py/utils.py:196-197 | If no catalog address is the reserved key, the source's pending list equals the corrected one. |
| `ReservedKeyStall.RunFinishes` | py/utils.py:199-271 | From a state reached by the pass over the first `index` tokens, with the rest uncached, the outer loop ends after one iteration per remaining token, in the state of the whole pass. |
| `ReservedKeyStall.CorrectedRunFinishes` | py/utils.py:199-271 | Over the corrected pending list, the outer loop with its guard ends after exactly one iteration per pending token, in the state of `Pass`. |

## Left out

- `get_events`, `get_events_hash`: JSON-RPC and web3 calls whose client and network choice only selects an I/O path.
- `get_coin_list`: HTTP and file I/O. Checksum addresses depend on keccak. The catalog is an input.
- `encode_with_signature`: a thin wrapper over keccak and ABI encoding, which are not part of this model.
- The reference-series bootstrap fetch and the `time.time()` window of `get_prices`. The loaded cache is an input, and the window only enters the request URL, which is not modelled.
- Console output, colours and the progress counter `total` are left out. The fallback warning is kept, as a count.
- JSON (de)serialisation and file writes are recorded as snapshots in a save log. A `json.dump` or `time.sleep` that itself raises inside the `try` (an I/O failure) is not modelled.
- Prices are opaque values (floats in the source). Lookup targets and sample timestamps are integers, so a fractional target in seconds is not modelled.
- PriceLookup.Lookup.GetPriceFromTimestamp: an empty series raises `IndexError` in the source. The model requires a non-empty series instead of modelling the exception.
- PriceSyncFacts.AttemptsWaits: bounds each wait of the whole retry loop to [2, 90] s rather than listing it. The exact wait of each attempt, for any mix of responses, is stated by `StepFacts`. The scenario lemmas spell out some whole schedules.
- PriceSync.Pending: models the corrected pending list, which leaves out every cached address. The source leaves a cached "eth_to_usd" entry in the list; `ReservedKeyStall.PendingAsWritten` models that list and the Findings table states what it does.
- PriceSync.SyncPending: runs the outer loop over the corrected pending list, so it always ends. Over the source's list it would not end when the catalog lists a cached "eth_to_usd" (`ReservedKeyStall.ReservedKeyStalls`).
- PriceSync.SyncPrices: models the corrected pending list, like `PriceSync.Sync`. The lemmas about `Sync` in `PriceSyncFacts` (`SyncStores`, `SyncRequests`, `AllCachedIsNoOp`, `AllServedCachesCatalog`) therefore hold for the corrected pass. They agree with the source whenever the catalog does not list "eth_to_usd" (`ReservedKeyStall.AsWrittenAgrees`).
- The API's request URL, headers and timeouts. A response is given by its status and body only.

## Findings

| source | as written | input that shows it | evidently intended | confidence | as-written member | corrected member |
|---|---|---|---|---|---|---|
| py/utils.py:196-205 | The pending list subtracts the reserved key "eth_to_usd" from the cached keys. A cached catalog entry with that address therefore stays pending, fails the guard at line 205, and `index` is never advanced. | A cache holding "eth_to_usd" and a catalog listing a token with address "eth_to_usd". | Leave out every cached address, so each pending address is fetched once and the loop ends. | low: catalog keys are checksummed token addresses, so the reserved key is unlikely in the catalog; not executed | `ReservedKeyStall.ReservedKeyStalls` | `ReservedKeyStall.CorrectedRunFinishes` |
