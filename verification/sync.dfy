/**
 * Incremental price-cache synchronisation: the `if update_prices:` block of
 * `get_prices`.
 *
 * The cache maps token addresses (and the reserved key "eth_to_usd") to price
 * series. A pass computes the catalog addresses not yet cached, in catalog
 * order, and requests each one's series from the price API with at most
 * three attempts, backing off on rate limits, outages and exceptions. A
 * series is stored only from a 200 response that carries one; every fifth
 * stored series the whole cache is written to disk, and once more at the end.
 *
 * The network, the clock and the disk are replaced by an oracle and by logs:
 * `respond(k, marketId)` is the answer to the k-th request of the pass
 * (which asks for `marketId`); every `time.sleep` appends its duration to a
 * wait log, every `json.dump` appends the snapshot it writes to a save log,
 * and every request appends the address it is for to a request log.
 */
module PriceSync {
  import opened Wrappers

  /** The cache key of the native-asset reference series. */
  const RESERVED_KEY: string := "eth_to_usd"

  /** Attempts per address. */
  const MAX_RETRIES: nat := 3

  /** The cache is written after every this many stored series. */
  const CHECKPOINT_EVERY: nat := 5

  /** Seconds of cooldown after each stored series. */
  const COOLDOWN: nat := 2

  /** Seconds per retry waited after a 429. */
  const RATE_LIMIT_WAIT: nat := 30

  /** Seconds waited after a 503. */
  const UNAVAILABLE_WAIT: nat := 60

  /** Seconds per retry waited after an exception. */
  const EXCEPTION_WAIT: nat := 10

  /**
   * The body of a 200 response, by how reading it goes. `Json(Some(series))`
   * is an object with a "prices" field. `Json(None)` is a body on which the
   * test `"prices" in data` is false without raising: an object without the
   * field, or a list or string that does not contain "prices". `Malformed` is
   * any body whose reading raises: text that `response.json()` rejects, JSON
   * null, a number or a boolean (the `in` test raises), or a list or string
   * that contains "prices" (indexing it with "prices" raises). The body of
   * any other status is only printed, so it does not matter there.
   */
  datatype Body<S> = Json(prices: Option<S>) | Malformed

  /** What one `requests.get` gives: a response, or an exception raised by the request itself. */
  datatype Response<S> = Response(status: int, body: Body<S>) | Raised

  /** How the retry loop treats one response. */
  datatype Outcome<S> =
    | Stored(series: S)       // 200 with "prices": store it and stop
    | NoPrices                // 200 without "prices": skip the address
    | RateLimited             // 429: back off and retry
    | Unavailable             // 503: back off and retry
    | Rejected(status: int)   // any other status: skip the address
    | Failed                  // an exception inside the try block: back off and retry

  /**
   * The branch of the retry loop a response takes. A 200 whose body cannot
   * be read raises inside the `try`, so it is handled as an exception, not
   * as a response without prices.
   */
  function Classify<S>(response: Response<S>): Outcome<S>
  {
    match response
    case Raised => Failed
    case Response(status, body) =>
      if status == 200 then
        match body
        case Malformed => Failed
        case Json(Some(series)) => Stored(series)
        case Json(None) => NoPrices
      else if status == 429 then RateLimited
      else if status == 503 then Unavailable
      else Rejected(status)
  }

  /** Everything a pass changes or records. */
  datatype SyncState<S> = SyncState(
    prices: map<string, S>,       // the in-memory cache
    counter: nat,                 // series stored so far in this pass
    requests: seq<string>,        // the address of every request, in order
    waits: seq<nat>,              // the duration of every sleep, in order
    saves: seq<map<string, S>>)   // every snapshot written to the cache file, in order

  /** The state a pass starts from: the loaded cache, nothing done yet. */
  function Start<S>(prices: map<string, S>): SyncState<S>
  {
    SyncState(prices, 0, [], [], [])
  }

  /** The state after one iteration of the retry loop, with the loop's `retry_count` and `success`. */
  datatype Attempt<S> = Attempt(state: SyncState<S>, retryCount: nat, success: bool)

  /**
   * One iteration of the retry loop for `address`: one request, then the
   * branch its response takes. Every iteration either ends the address
   * (`success`) or uses up one retry.
   */
  function Step<S>(respond: (nat, string) -> Response<S>, address: string, marketId: string,
                   st: SyncState<S>, retryCount: nat): (a: Attempt<S>)
    requires retryCount < MAX_RETRIES
    ensures a.retryCount <= MAX_RETRIES
    ensures a.success || a.retryCount == retryCount + 1
    ensures a.retryCount == retryCount || a.retryCount == retryCount + 1
    ensures a.state.requests == st.requests + [address]
  {
    var response := respond(|st.requests|, marketId);
    var st := st.(requests := st.requests + [address]);
    match Classify(response)
    case Stored(series) =>
      var prices := st.prices[address := series];
      var counter := st.counter + 1;
      var saves := if counter % CHECKPOINT_EVERY == 0 then st.saves + [prices] else st.saves;
      Attempt(st.(prices := prices, counter := counter, saves := saves, waits := st.waits + [COOLDOWN]),
              retryCount, true)
    case NoPrices => Attempt(st, retryCount, true)
    case Rejected(_) => Attempt(st, retryCount, true)
    case RateLimited =>
      Attempt(st.(waits := st.waits + [RATE_LIMIT_WAIT * (retryCount + 1)]), retryCount + 1, false)
    case Unavailable =>
      Attempt(st.(waits := st.waits + [UNAVAILABLE_WAIT]), retryCount + 1, false)
    case Failed =>
      if retryCount + 1 < MAX_RETRIES then
        Attempt(st.(waits := st.waits + [EXCEPTION_WAIT * (retryCount + 1)]), retryCount + 1, false)
      else
        Attempt(st, retryCount + 1, true)
  }

  /** The retry loop for `address`, run from the given `retry_count` and `success` to its end. */
  function Attempts<S>(respond: (nat, string) -> Response<S>, address: string, marketId: string,
                       st: SyncState<S>, retryCount: nat, success: bool): SyncState<S>
    requires retryCount <= MAX_RETRIES
    decreases MAX_RETRIES - retryCount, !success
  {
    if success || retryCount >= MAX_RETRIES then st
    else
      var a := Step(respond, address, marketId, st, retryCount);
      Attempts(respond, address, marketId, a.state, a.retryCount, a.success)
  }

  /** The whole retry loop for one address. */
  function Fetch<S>(respond: (nat, string) -> Response<S>, address: string, marketId: string,
                    st: SyncState<S>): SyncState<S>
  {
    Attempts(respond, address, marketId, st, 0, false)
  }

  /** One catalog entry (a `coin_list` item): a token address and its market id at the price API. */
  datatype Token = Token(address: string, marketId: string)

  /**
   * The token catalog is a dict from address to market id, kept here as its
   * items in dict order; dict keys are unique.
   */
  predicate UniqueAddresses(catalog: seq<Token>)
  {
    forall i, j :: 0 <= i < j < |catalog| ==> catalog[i].address != catalog[j].address
  }

  /** The outer loop over `pending`, token by token. */
  function Pass<S>(respond: (nat, string) -> Response<S>, pending: seq<Token>, st: SyncState<S>): SyncState<S>
    decreases |pending|
  {
    if pending == [] then st
    else
      var token := pending[|pending| - 1];
      Fetch(respond, token.address, token.marketId, Pass(respond, pending[..|pending| - 1], st))
  }

  /** The tokens of `catalog` whose address is not in `excluded`, in catalog order. */
  function Filter(catalog: seq<Token>, excluded: set<string>): (r: seq<Token>)
    ensures forall t :: t in r <==> t in catalog && t.address !in excluded
    ensures UniqueAddresses(catalog) ==> UniqueAddresses(r)
    decreases |catalog|
  {
    if catalog == [] then []
    else if catalog[0].address in excluded then Filter(catalog[1..], excluded)
    else [catalog[0]] + Filter(catalog[1..], excluded)
  }

  /** The tokens a pass fetches: those whose address is not cached under any key, in catalog order. */
  function Pending<S>(catalog: seq<Token>, prices: map<string, S>): (r: seq<Token>)
    ensures forall t :: t in r <==> t in catalog && t.address !in prices
    ensures UniqueAddresses(catalog) ==> UniqueAddresses(r)
  {
    Filter(catalog, prices.Keys)
  }

  /** The whole `if update_prices:` block, with its final save; nothing happens without `updatePrices`. */
  function Sync<S>(catalog: seq<Token>, prices: map<string, S>, updatePrices: bool,
                   respond: (nat, string) -> Response<S>): SyncState<S>
  {
    if !updatePrices then Start(prices)
    else
      var st := Pass(respond, Pending(catalog, prices), Start(prices));
      st.(saves := st.saves + [st.prices])
  }

  /** An unfinished retry loop is one `Step` followed by the rest of the loop. */
  lemma AttemptsUnfold<S>(respond: (nat, string) -> Response<S>, address: string, marketId: string,
                          st: SyncState<S>, retryCount: nat)
    requires retryCount < MAX_RETRIES
    ensures var a := Step(respond, address, marketId, st, retryCount);
      Attempts(respond, address, marketId, st, retryCount, false)
      == Attempts(respond, address, marketId, a.state, a.retryCount, a.success)
  {
  }

  /**
   * One iteration of the retry loop's body (`try: response = requests.get(...)`
   * and the `if`/`elif` chain on its status, with the `except` branch), on the
   * pass's variables and the loop's `retry_count`.
   */
  method TryOnce<S>(respond: (nat, string) -> Response<S>, address: string, marketId: string,
                    prices0: map<string, S>, counter0: nat, requests0: seq<string>, waits0: seq<nat>,
                    saves0: seq<map<string, S>>, retryCount0: nat)
    returns (prices: map<string, S>, counter: nat, requests: seq<string>, waits: seq<nat>,
             saves: seq<map<string, S>>, retryCount: nat, success: bool)
    requires retryCount0 < MAX_RETRIES
    ensures Attempt(SyncState(prices, counter, requests, waits, saves), retryCount, success)
            == Step(respond, address, marketId, SyncState(prices0, counter0, requests0, waits0, saves0), retryCount0)
    ensures prices.Keys <= prices0.Keys + {address}
  {
    prices, counter, requests, waits, saves := prices0, counter0, requests0, waits0, saves0;
    retryCount, success := retryCount0, false;
    var response := respond(|requests|, marketId);
    requests := requests + [address];
    if response.Raised? || (response.status == 200 && response.body.Malformed?) {
      retryCount := retryCount + 1;
      if retryCount < MAX_RETRIES {
        var waitTime := EXCEPTION_WAIT * retryCount;
        waits := waits + [waitTime];
      } else {
        success := true;
      }
    } else if response.status == 200 {
      if response.body.prices.Some? {
        prices := prices[address := response.body.prices.value];
        counter := counter + 1;
        success := true;
        if counter % CHECKPOINT_EVERY == 0 {
          saves := saves + [prices];
        }
        waits := waits + [COOLDOWN];
      } else {
        success := true;
      }
    } else if response.status == 429 {
      retryCount := retryCount + 1;
      var waitTime := RATE_LIMIT_WAIT * retryCount;
      waits := waits + [waitTime];
    } else if response.status == 503 {
      retryCount := retryCount + 1;
      var waitTime := UNAVAILABLE_WAIT;
      waits := waits + [waitTime];
    } else {
      success := true;
    }
  }

  /**
   * The retry loop of the sync pass for one address (`while retry_count <
   * max_retries and not success`), on the pass's variables.
   */
  method FetchAddress<S>(respond: (nat, string) -> Response<S>, address: string, marketId: string,
                         prices0: map<string, S>, counter0: nat, requests0: seq<string>, waits0: seq<nat>,
                         saves0: seq<map<string, S>>)
    returns (prices: map<string, S>, counter: nat, requests: seq<string>, waits: seq<nat>,
             saves: seq<map<string, S>>)
    ensures SyncState(prices, counter, requests, waits, saves)
            == Fetch(respond, address, marketId, SyncState(prices0, counter0, requests0, waits0, saves0))
    ensures prices.Keys <= prices0.Keys + {address}
  {
    prices, counter, requests, waits, saves := prices0, counter0, requests0, waits0, saves0;
    var retryCount: nat := 0;
    var success := false;
    while retryCount < MAX_RETRIES && !success
      invariant retryCount <= MAX_RETRIES
      invariant Attempts(respond, address, marketId, SyncState(prices, counter, requests, waits, saves),
                         retryCount, success)
                == Fetch(respond, address, marketId, SyncState(prices0, counter0, requests0, waits0, saves0))
      invariant prices.Keys <= prices0.Keys + {address}
      decreases MAX_RETRIES - retryCount, !success
    {
      AttemptsUnfold(respond, address, marketId, SyncState(prices, counter, requests, waits, saves), retryCount);
      prices, counter, requests, waits, saves, retryCount, success :=
        TryOnce(respond, address, marketId, prices, counter, requests, waits, saves, retryCount);
    }
  }

  /** One more token of `pending` processed: the pass's state after it. */
  lemma PassExtend<S>(respond: (nat, string) -> Response<S>, pending: seq<Token>, index: nat, st: SyncState<S>)
    requires index < |pending|
    ensures Pass(respond, pending[..index + 1], st)
            == Fetch(respond, pending[index].address, pending[index].marketId, Pass(respond, pending[..index], st))
  {
    assert pending[..index + 1][..index] == pending[..index];
  }

  /** Only the address just fetched can join the cache, so the tokens after it are still uncached. */
  lemma StillUncached<S>(pending: seq<Token>, index: nat, before: map<string, S>, after: map<string, S>)
    requires index < |pending| && UniqueAddresses(pending)
    requires forall k :: index <= k < |pending| ==> pending[k].address !in before
    requires after.Keys <= before.Keys + {pending[index].address}
    ensures forall k :: index + 1 <= k < |pending| ==> pending[k].address !in after
  {
  }

  /**
   * The `while index < len(addresses_to_process)` loop: every pending
   * token, in order, through the retry loop.
   */
  method SyncPending<S>(catalog: seq<Token>, loaded: map<string, S>, respond: (nat, string) -> Response<S>)
    returns (prices: map<string, S>, counter: nat, requests: seq<string>, waits: seq<nat>,
             saves: seq<map<string, S>>)
    requires UniqueAddresses(catalog)
    ensures SyncState(prices, counter, requests, waits, saves)
            == Pass(respond, Pending(catalog, loaded), Start(loaded))
  {
    prices, counter, requests, waits, saves := loaded, 0, [], [], [];
    var pending := Pending(catalog, prices);
    var index := 0;
    while index < |pending|
      invariant 0 <= index <= |pending|
      invariant SyncState(prices, counter, requests, waits, saves) == Pass(respond, pending[..index], Start(loaded))
      invariant forall k :: index <= k < |pending| ==> pending[k].address !in prices
    {
      var address := pending[index].address;
      // The guard `address not in prices` always holds, so `index` always advances.
      assert address !in prices;
      var marketId := pending[index].marketId;
      ghost var before := prices;
      prices, counter, requests, waits, saves :=
        FetchAddress(respond, address, marketId, prices, counter, requests, waits, saves);
      PassExtend(respond, pending, index, Start(loaded));
      StillUncached(pending, index, before, prices);
      index := index + 1;
    }
    assert pending[..|pending|] == pending;
  }

  /**
   * The `if update_prices:` block of `get_prices`, run over the cache loaded
   * from disk: the pass over the pending tokens, then the final save. It
   * returns the updated cache and the logs of requests, sleeps and saves,
   * which are those of `Sync`.
   */
  method SyncPrices<S>(catalog: seq<Token>, loaded: map<string, S>, updatePrices: bool,
                       respond: (nat, string) -> Response<S>)
    returns (prices: map<string, S>, requests: seq<string>, waits: seq<nat>, saves: seq<map<string, S>>)
    requires UniqueAddresses(catalog)
    ensures var st := Sync(catalog, loaded, updatePrices, respond);
      prices == st.prices && requests == st.requests && waits == st.waits && saves == st.saves
  {
    prices, requests, waits, saves := loaded, [], [], [];
    if updatePrices {
      var counter;
      prices, counter, requests, waits, saves := SyncPending(catalog, loaded, respond);
      saves := saves + [prices];
    }
  }
}
