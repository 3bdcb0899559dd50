/**
 * What the sync pass of `get_prices` promises, proved about the functions
 * of `PriceSync`: which responses store a series and which are retried, the
 * back-off schedule, that no cached entry is ever overwritten, that the
 * checkpoints are durable snapshots, and which addresses are requested how
 * often.
 */
module PriceSyncFacts {
  import opened Wrappers
  import opened PriceSync

  /** A 200 response whose JSON body carries a "prices" field. */
  predicate Serves<S>(r: Response<S>)
  {
    Classify(r).Stored?
  }

  /** A request that raises inside the `try`: the request itself, or the reading of a 200's body. */
  predicate Raises<S>(r: Response<S>)
  {
    Classify(r).Failed?
  }

  /** A response the retry loop answers with another attempt: 429, 503, or an exception. */
  predicate Retryable<S>(r: Response<S>)
  {
    Classify(r).Failed? || Classify(r).RateLimited? || Classify(r).Unavailable?
  }

  /** Every entry of `small` is in `large` with the same value. */
  ghost predicate Submap<S>(small: map<string, S>, large: map<string, S>)
  {
    forall k :: k in small ==> k in large && large[k] == small[k]
  }

  /** How the store of one address changes the cache, the counter and the checkpoint log. */
  ghost predicate StoredBy<S>(st: SyncState<S>, st': SyncState<S>, address: string, r: Response<S>)
  {
    if Serves(r) then
      && st'.prices == st.prices[address := Classify(r).series]
      && st'.counter == st.counter + 1
      && st'.saves == (if st'.counter % CHECKPOINT_EVERY == 0 then st.saves + [st'.prices] else st.saves)
    else
      st'.prices == st.prices && st'.counter == st.counter && st'.saves == st.saves
  }

  /**
   * One attempt: its response either ends the address, storing the series
   * exactly when it is a 200 with prices and then cooling down for two
   * seconds, or is retryable, stores nothing and backs off unless it was the
   * last attempt of an exception. The back-off grows with the shared retry
   * count: 30 seconds per retry after a 429, a flat 60 after a 503, and 10
   * per retry after an exception.
   */
  lemma StepFacts<S>(respond: (nat, string) -> Response<S>, address: string, marketId: string,
                     st: SyncState<S>, retryCount: nat, a: Attempt<S>, r: Response<S>)
    requires retryCount < MAX_RETRIES
    requires a == Step(respond, address, marketId, st, retryCount)
    requires r == respond(|st.requests|, marketId)
    ensures StoredBy(st, a.state, address, r)
    ensures a.success <==> !Retryable(r) || (retryCount + 1 == MAX_RETRIES && Raises(r))
    ensures !a.success ==> a.retryCount == retryCount + 1
    ensures Serves(r) ==> a.state.waits == st.waits + [COOLDOWN]
    ensures !Serves(r) && a.success ==> a.state.waits == st.waits
    ensures !a.success ==> |a.state.waits| == |st.waits| + 1 && 10 <= a.state.waits[|st.waits|] <= 90
    ensures Classify(r).RateLimited? ==> a.state.waits == st.waits + [RATE_LIMIT_WAIT * (retryCount + 1)]
    ensures Classify(r).Unavailable? ==> a.state.waits == st.waits + [UNAVAILABLE_WAIT]
    ensures Raises(r) && retryCount + 1 < MAX_RETRIES ==> a.state.waits == st.waits + [EXCEPTION_WAIT * (retryCount + 1)]
    ensures Raises(r) && retryCount + 1 == MAX_RETRIES ==> a.state.waits == st.waits
  {
    match r
    case Raised =>
    case Response(status, body) =>
      if status == 200 {
        match body
        case Malformed =>
        case Json(series) =>
      }
  }

  /** One attempt sleeps at most once, for 2 to 90 seconds, appended to the wait log. */
  lemma StepWaits<S>(respond: (nat, string) -> Response<S>, address: string, marketId: string,
                     st: SyncState<S>, retryCount: nat, a: Attempt<S>)
    requires retryCount < MAX_RETRIES
    requires a == Step(respond, address, marketId, st, retryCount)
    ensures |st.waits| <= |a.state.waits| <= |st.waits| + 1
    ensures a.state.waits[..|st.waits|] == st.waits
    ensures forall k :: |st.waits| <= k < |a.state.waits| ==> COOLDOWN <= a.state.waits[k] <= 90
  {
  }

  /**
   * The retry loop for one address, from any `retry_count` on, makes at
   * least one and at most the remaining number of requests, all for this
   * address, appended to the request log.
   */
  lemma {:induction false} AttemptsRequests<S>(respond: (nat, string) -> Response<S>, address: string, marketId: string,
                                            st: SyncState<S>, retryCount: nat, st': SyncState<S>)
    requires retryCount < MAX_RETRIES
    requires st' == Attempts(respond, address, marketId, st, retryCount, false)
    ensures |st.requests| < |st'.requests| <= |st.requests| + (MAX_RETRIES - retryCount)
    ensures st'.requests[..|st.requests|] == st.requests
    ensures forall k :: |st.requests| <= k < |st'.requests| ==> st'.requests[k] == address
    decreases MAX_RETRIES - retryCount
  {
    var a := Step(respond, address, marketId, st, retryCount);
    if !a.success && a.retryCount < MAX_RETRIES {
      var mid := a.state;
      AttemptsRequests(respond, address, marketId, mid, a.retryCount, st');
      assert st'.requests[..|st.requests|] == mid.requests[..|st.requests|];
    }
  }

  /**
   * Every response but the last of the retry loop was retryable, and the
   * cache, the counter and the checkpoint log change only by the series of
   * the last response, when that is a 200 with prices.
   */
  lemma {:induction false} AttemptsStore<S>(respond: (nat, string) -> Response<S>, address: string, marketId: string,
                                            st: SyncState<S>, retryCount: nat, st': SyncState<S>)
    requires retryCount < MAX_RETRIES
    requires st' == Attempts(respond, address, marketId, st, retryCount, false)
    ensures |st'.requests| > |st.requests|
    ensures forall k :: |st.requests| <= k < |st'.requests| - 1 ==> Retryable(respond(k, marketId))
    ensures StoredBy(st, st', address, respond(|st'.requests| - 1, marketId))
    decreases MAX_RETRIES - retryCount
  {
    var a := Step(respond, address, marketId, st, retryCount);
    StepFacts(respond, address, marketId, st, retryCount, a, respond(|st.requests|, marketId));
    if !a.success && a.retryCount < MAX_RETRIES {
      AttemptsStore(respond, address, marketId, a.state, a.retryCount, st');
    }
  }

  /** The retry loop sleeps at most once per attempt, each time for 2 to 90 seconds, appended to the wait log. */
  lemma {:induction false} AttemptsWaits<S>(respond: (nat, string) -> Response<S>, address: string, marketId: string,
                                            st: SyncState<S>, retryCount: nat, st': SyncState<S>)
    requires retryCount < MAX_RETRIES
    requires st' == Attempts(respond, address, marketId, st, retryCount, false)
    ensures |st.waits| <= |st'.waits| <= |st.waits| + (MAX_RETRIES - retryCount)
    ensures st'.waits[..|st.waits|] == st.waits
    ensures forall k :: |st.waits| <= k < |st'.waits| ==> COOLDOWN <= st'.waits[k] <= 90
    decreases MAX_RETRIES - retryCount
  {
    var a := Step(respond, address, marketId, st, retryCount);
    StepWaits(respond, address, marketId, st, retryCount, a);
    AttemptsUnfold(respond, address, marketId, st, retryCount);
    if !a.success && a.retryCount < MAX_RETRIES {
      var mid := a.state;
      AttemptsWaits(respond, address, marketId, mid, a.retryCount, st');
      assert st'.waits[..|st.waits|] == mid.waits[..|st.waits|];
    }
  }

  /** The whole retry loop for one address: between one and three requests, as the three lemmas above describe. */
  lemma FetchFacts<S>(respond: (nat, string) -> Response<S>, address: string, marketId: string,
                      st: SyncState<S>, st': SyncState<S>)
    requires st' == Fetch(respond, address, marketId, st)
    ensures |st.requests| < |st'.requests| <= |st.requests| + MAX_RETRIES
    ensures st'.requests[..|st.requests|] == st.requests
    ensures forall k :: |st.requests| <= k < |st'.requests| ==> st'.requests[k] == address
    ensures forall k :: |st.requests| <= k < |st'.requests| - 1 ==> Retryable(respond(k, marketId))
    ensures StoredBy(st, st', address, respond(|st'.requests| - 1, marketId))
    ensures |st.waits| <= |st'.waits| <= |st.waits| + MAX_RETRIES
    ensures st'.waits[..|st.waits|] == st.waits
    ensures forall k :: |st.waits| <= k < |st'.waits| ==> COOLDOWN <= st'.waits[k] <= 90
  {
    AttemptsRequests(respond, address, marketId, st, 0, st');
    AttemptsStore(respond, address, marketId, st, 0, st');
    AttemptsWaits(respond, address, marketId, st, 0, st');
  }

  /** Three attempts that all ask for another one, unrolled: each is a `Step` from the state the previous one left. */
  lemma ThreeAttempts<S>(respond: (nat, string) -> Response<S>, address: string, marketId: string, st: SyncState<S>)
    ensures var a0 := Step(respond, address, marketId, st, 0);
      !a0.success ==>
        var a1 := Step(respond, address, marketId, a0.state, 1);
        !a1.success ==>
          var a2 := Step(respond, address, marketId, a1.state, 2);
          Fetch(respond, address, marketId, st) == a2.state
  {
    var a0 := Step(respond, address, marketId, st, 0);
    AttemptsUnfold(respond, address, marketId, st, 0);
    if !a0.success {
      var a1 := Step(respond, address, marketId, a0.state, 1);
      AttemptsUnfold(respond, address, marketId, a0.state, 1);
      if !a1.success {
        AttemptsUnfold(respond, address, marketId, a1.state, 2);
      }
    }
  }

  /** A request for an address that is rate limited three times: three requests, waits of 30, 60 and 90 seconds, nothing stored. */
  lemma RateLimitedThrice<S>(respond: (nat, string) -> Response<S>, address: string, marketId: string,
                             st: SyncState<S>, st': SyncState<S>)
    requires forall k :: |st.requests| <= k < |st.requests| + MAX_RETRIES ==>
      respond(k, marketId).Response? && respond(k, marketId).status == 429
    requires st' == Fetch(respond, address, marketId, st)
    ensures st'.requests == st.requests + [address, address, address]
    ensures st'.waits == st.waits + [30, 60, 90]
    ensures st'.prices == st.prices && st'.counter == st.counter && st'.saves == st.saves
  {
    ThreeAttempts(respond, address, marketId, st);
  }

  /**
   * A 503 and then two 429s share one retry count: the 429s wait for the
   * second and third retry, 60 and 90 seconds, after the 503's 60.
   */
  lemma UnavailableThenRateLimited<S>(respond: (nat, string) -> Response<S>, address: string, marketId: string,
                                      st: SyncState<S>, st': SyncState<S>)
    requires respond(|st.requests|, marketId).Response? && respond(|st.requests|, marketId).status == 503
    requires forall k :: |st.requests| + 1 <= k < |st.requests| + MAX_RETRIES ==>
      respond(k, marketId).Response? && respond(k, marketId).status == 429
    requires st' == Fetch(respond, address, marketId, st)
    ensures st'.requests == st.requests + [address, address, address]
    ensures st'.waits == st.waits + [60, 60, 90]
    ensures st'.prices == st.prices && st'.counter == st.counter && st'.saves == st.saves
  {
    ThreeAttempts(respond, address, marketId, st);
  }

  /** An address whose service is unavailable three times: three requests, each followed by a 60-second wait. */
  lemma UnavailableThrice<S>(respond: (nat, string) -> Response<S>, address: string, marketId: string,
                             st: SyncState<S>, st': SyncState<S>)
    requires forall k :: |st.requests| <= k < |st.requests| + MAX_RETRIES ==>
      respond(k, marketId).Response? && respond(k, marketId).status == 503
    requires st' == Fetch(respond, address, marketId, st)
    ensures st'.requests == st.requests + [address, address, address]
    ensures st'.waits == st.waits + [60, 60, 60]
    ensures st'.prices == st.prices && st'.counter == st.counter && st'.saves == st.saves
  {
    ThreeAttempts(respond, address, marketId, st);
  }

  /** An address whose request raises three times: three requests, waits of 10 and 20 seconds, none after the last. */
  lemma RaisesThrice<S>(respond: (nat, string) -> Response<S>, address: string, marketId: string,
                        st: SyncState<S>, st': SyncState<S>)
    requires forall k :: |st.requests| <= k < |st.requests| + MAX_RETRIES ==> Raises(respond(k, marketId))
    requires st' == Fetch(respond, address, marketId, st)
    ensures st'.requests == st.requests + [address, address, address]
    ensures st'.waits == st.waits + [10, 20]
    ensures st'.prices == st.prices && st'.counter == st.counter && st'.saves == st.saves
  {
    ThreeAttempts(respond, address, marketId, st);
  }

  /** A response other than 200, 429 or 503 ends the address at once: one request, no wait, nothing stored. */
  lemma RejectedAtOnce<S>(respond: (nat, string) -> Response<S>, address: string, marketId: string,
                          st: SyncState<S>, st': SyncState<S>)
    requires respond(|st.requests|, marketId).Response?
    requires respond(|st.requests|, marketId).status !in {200, 429, 503}
    requires st' == Fetch(respond, address, marketId, st)
    ensures st'.requests == st.requests + [address]
    ensures st'.waits == st.waits
    ensures st'.prices == st.prices && st'.counter == st.counter && st'.saves == st.saves
  {
  }

  /** A 200 whose JSON has no prices ends the address at once: one request, no wait, nothing stored. */
  lemma NoPricesAtOnce<S>(respond: (nat, string) -> Response<S>, address: string, marketId: string,
                          st: SyncState<S>, st': SyncState<S>)
    requires respond(|st.requests|, marketId) == Response(200, Json(None))
    requires st' == Fetch(respond, address, marketId, st)
    ensures st'.requests == st.requests + [address]
    ensures st'.waits == st.waits
    ensures st'.prices == st.prices && st'.counter == st.counter && st'.saves == st.saves
  {
  }

  /** A rate limit and then a series: two requests, a 30-second back-off and the 2-second cooldown, the series stored. */
  lemma ServedAfterRateLimit<S>(respond: (nat, string) -> Response<S>, address: string, marketId: string,
                                st: SyncState<S>, st': SyncState<S>, series: S)
    requires respond(|st.requests|, marketId).Response? && respond(|st.requests|, marketId).status == 429
    requires respond(|st.requests| + 1, marketId) == Response(200, Json(Some(series)))
    requires st' == Fetch(respond, address, marketId, st)
    ensures st'.requests == st.requests + [address, address]
    ensures st'.waits == st.waits + [30, COOLDOWN]
    ensures st'.prices == st.prices[address := series] && st'.counter == st.counter + 1
  {
    var a := Step(respond, address, marketId, st, 0);
    AttemptsUnfold(respond, address, marketId, st, 0);
    AttemptsUnfold(respond, address, marketId, a.state, 1);
  }

  /** The addresses of a token list. */
  ghost function Addresses(tokens: seq<Token>): set<string>
  {
    set t | t in tokens :: t.address
  }

  /**
   * What holds of the pass's state at every step, relative to the cache
   * loaded from disk: no loaded entry is overwritten (the reserved key
   * included); the counter is the number of series stored; one checkpoint
   * has been written per five series; and the i-th checkpoint holds the
   * loaded entries and exactly 5(i+1) stored series, none of them replaced
   * since.
   */
  ghost predicate Progress<S>(loaded: map<string, S>, st: SyncState<S>)
  {
    && Submap(loaded, st.prices)
    && |st.prices| == |loaded| + st.counter
    && |st.saves| == st.counter / CHECKPOINT_EVERY
    && forall i :: 0 <= i < |st.saves| ==>
         && |st.saves[i]| == |loaded| + CHECKPOINT_EVERY * (i + 1)
         && Submap(loaded, st.saves[i])
         && Submap(st.saves[i], st.prices)
  }

  /** The retry loop for an uncached address keeps `Progress` and adds at most that address. */
  lemma FetchProgress<S>(respond: (nat, string) -> Response<S>, address: string, marketId: string,
                         loaded: map<string, S>, st: SyncState<S>, st': SyncState<S>)
    requires Progress(loaded, st) && address !in st.prices
    requires st' == Fetch(respond, address, marketId, st)
    ensures Progress(loaded, st')
    ensures Submap(st.prices, st'.prices)
    ensures st'.prices.Keys <= st.prices.Keys + {address}
  {
    AttemptsStore(respond, address, marketId, st, 0, st');
    var r := respond(|st'.requests| - 1, marketId);
    if Serves(r) {
      assert |st'.prices| == |st.prices| + 1;
      forall i | 0 <= i < |st'.saves|
        ensures Submap(st'.saves[i], st'.prices)
      {
        if i < |st.saves| {
          assert Submap(st.saves[i], st.prices);
        }
      }
    }
  }

  /**
   * The pass over uncached tokens with distinct addresses keeps `Progress`,
   * overwrites nothing and adds only addresses of the tokens it fetched.
   */
  lemma {:induction false} PassProgress<S>(respond: (nat, string) -> Response<S>, pending: seq<Token>,
                                           loaded: map<string, S>, st: SyncState<S>)
    requires UniqueAddresses(pending)
    requires forall t :: t in pending ==> t.address !in st.prices
    requires Progress(loaded, st)
    ensures Progress(loaded, Pass(respond, pending, st))
    ensures Submap(st.prices, Pass(respond, pending, st).prices)
    ensures Pass(respond, pending, st).prices.Keys <= st.prices.Keys + Addresses(pending)
    decreases |pending|
  {
    if pending != [] {
      var init, last := pending[..|pending| - 1], pending[|pending| - 1];
      assert forall t :: t in init ==> t in pending;
      PassProgress(respond, init, loaded, st);
      var mid := Pass(respond, init, st);
      assert last.address !in Addresses(init);
      FetchProgress(respond, last.address, last.marketId, loaded, mid, Pass(respond, pending, st));
    }
  }

  /** A sequence of copies of `x` holds `x` as many times as it is long, and nothing else. */
  lemma {:induction false} CopiesCount(block: seq<string>, x: string)
    requires forall k :: 0 <= k < |block| ==> block[k] == x
    ensures multiset(block)[x] == |block|
    ensures forall y :: y != x ==> multiset(block)[y] == 0
  {
    if block != [] {
      CopiesCount(block[1..], x);
      assert block == [block[0]] + block[1..];
    }
  }

  /** The retry loop requests its address one to three times and no other address. */
  lemma FetchRequestCount<S>(respond: (nat, string) -> Response<S>, address: string, marketId: string,
                             st: SyncState<S>, st': SyncState<S>)
    requires st' == Fetch(respond, address, marketId, st)
    ensures 1 <= multiset(st'.requests)[address] - multiset(st.requests)[address] <= MAX_RETRIES
    ensures forall b :: b != address ==> multiset(st'.requests)[b] == multiset(st.requests)[b]
  {
    AttemptsRequests(respond, address, marketId, st, 0, st');
    var block := st'.requests[|st.requests|..];
    assert st'.requests == st.requests + block;
    CopiesCount(block, address);
  }

  /**
   * The pass requests each of its tokens' addresses one to three times and
   * no other address, after the requests already made.
   */
  lemma {:induction false} PassRequestCount<S>(respond: (nat, string) -> Response<S>, pending: seq<Token>,
                                               st: SyncState<S>)
    requires UniqueAddresses(pending)
    ensures var st' := Pass(respond, pending, st);
      && (forall t :: t in pending ==>
            1 <= multiset(st'.requests)[t.address] - multiset(st.requests)[t.address] <= MAX_RETRIES)
      && (forall b :: b !in Addresses(pending) ==> multiset(st'.requests)[b] == multiset(st.requests)[b])
    decreases |pending|
  {
    if pending != [] {
      var init, last := pending[..|pending| - 1], pending[|pending| - 1];
      PassRequestCount(respond, init, st);
      var mid := Pass(respond, init, st);
      var st' := Pass(respond, pending, st);
      FetchRequestCount(respond, last.address, last.marketId, mid, st');
      forall t | t in pending
        ensures 1 <= multiset(st'.requests)[t.address] - multiset(st.requests)[t.address] <= MAX_RETRIES
      {
        if t != last {
          var i :| 0 <= i < |pending| && pending[i] == t;
          assert t in init && t.address != last.address;
        }
      }
    }
  }

  /**
   * The filter keeps the catalog's order: filtering a catalog made of two
   * parts lists the kept tokens of the first part before those of the second.
   */
  lemma {:induction false} FilterAppend(first: seq<Token>, second: seq<Token>, excluded: set<string>)
    ensures Filter(first + second, excluded) == Filter(first, excluded) + Filter(second, excluded)
    decreases |first|
  {
    if first == [] {
      assert first + second == second;
    } else {
      assert (first + second)[0] == first[0];
      assert (first + second)[1..] == first[1..] + second;
      FilterAppend(first[1..], second, excluded);
    }
  }

  /**
   * The pending list holds exactly the catalog tokens whose address is not
   * cached, each address once; so the guard "not yet in the cache" holds for
   * every one of them when the pass starts.
   */
  lemma PendingFacts<S>(catalog: seq<Token>, prices: map<string, S>)
    requires UniqueAddresses(catalog)
    ensures var pending := Pending(catalog, prices);
      && Addresses(pending) == Addresses(catalog) - prices.Keys
      && UniqueAddresses(pending)
      && (forall t :: t in pending ==> t.address !in prices)
  {
  }

  /**
   * The facts a sync promises about its cache and its saves, for a pass
   * that kept `Progress`, followed by the final save.
   */
  ghost predicate Durable<S>(loaded: map<string, S>, st: SyncState<S>)
  {
    && Submap(loaded, st.prices)
    && |st.prices| == |loaded| + st.counter
    && |st.saves| == st.counter / CHECKPOINT_EVERY + 1
    && st.saves[|st.saves| - 1] == st.prices
    && (forall i :: 0 <= i < |st.saves| - 1 ==>
          && |st.saves[i]| == |loaded| + CHECKPOINT_EVERY * (i + 1)
          && Submap(loaded, st.saves[i])
          && Submap(st.saves[i], st.prices))
  }

  /** The final save after a pass that kept `Progress` leaves a durable save log. */
  lemma FinalSave<S>(loaded: map<string, S>, st: SyncState<S>)
    requires Progress(loaded, st)
    ensures Durable(loaded, st.(saves := st.saves + [st.prices]))
  {
    var saves := st.saves + [st.prices];
    assert forall i :: 0 <= i < |saves| - 1 ==> saves[i] == st.saves[i];
  }

  /**
   * With updates on, a sync overwrites no loaded entry (the reserved key
   * included) and adds only catalog addresses; it counts each stored series;
   * its checkpoints are one per five stored series, each a snapshot of the
   * loaded entries and 5(i+1) new ones that later stores never change; and
   * its last save is the final cache.
   */
  lemma SyncStores<S>(catalog: seq<Token>, loaded: map<string, S>, respond: (nat, string) -> Response<S>)
    requires UniqueAddresses(catalog)
    ensures Durable(loaded, Sync(catalog, loaded, true, respond))
    ensures Sync(catalog, loaded, true, respond).prices.Keys <= loaded.Keys + Addresses(catalog)
  {
    var pending := Pending(catalog, loaded);
    PendingFacts(catalog, loaded);
    PassProgress(respond, pending, loaded, Start(loaded));
    FinalSave(loaded, Pass(respond, pending, Start(loaded)));
  }

  /** With updates on, a sync requests every uncached catalog address one to three times and nothing else. */
  lemma SyncRequests<S>(catalog: seq<Token>, loaded: map<string, S>, respond: (nat, string) -> Response<S>)
    requires UniqueAddresses(catalog)
    ensures var st := Sync(catalog, loaded, true, respond);
      && (forall a :: a in Addresses(catalog) - loaded.Keys ==> 1 <= multiset(st.requests)[a] <= MAX_RETRIES)
      && (forall a :: a !in Addresses(catalog) - loaded.Keys ==> multiset(st.requests)[a] == 0)
  {
    var pending := Pending(catalog, loaded);
    PendingFacts(catalog, loaded);
    PassRequestCount(respond, pending, Start(loaded));
    var st := Pass(respond, pending, Start(loaded));
    forall a | a in Addresses(catalog) - loaded.Keys
      ensures 1 <= multiset(st.requests)[a] <= MAX_RETRIES
    {
      var t :| t in pending && t.address == a;
    }
  }

  /** Nothing to fetch when every catalog address is cached: no request, no wait, one save of the unchanged cache. */
  lemma AllCachedIsNoOp<S>(catalog: seq<Token>, loaded: map<string, S>, respond: (nat, string) -> Response<S>)
    requires forall t :: t in catalog ==> t.address in loaded
    ensures Sync(catalog, loaded, true, respond) == SyncState(loaded, 0, [], [], [loaded])
  {
  }

  /** With updates off, the loaded cache is returned untouched and nothing is requested, waited for or saved. */
  lemma NoUpdateIsNoOp<S>(catalog: seq<Token>, loaded: map<string, S>, respond: (nat, string) -> Response<S>)
    ensures Sync(catalog, loaded, false, respond) == SyncState(loaded, 0, [], [], [])
  {
  }

  /** The retry loop for an address whose first response serves a series makes one request and stores it. */
  lemma FetchServed<S>(respond: (nat, string) -> Response<S>, address: string, marketId: string,
                       st: SyncState<S>, st': SyncState<S>)
    requires Serves(respond(|st.requests|, marketId))
    requires st' == Fetch(respond, address, marketId, st)
    ensures |st'.requests| == |st.requests| + 1
    ensures st'.prices == st.prices[address := Classify(respond(|st.requests|, marketId)).series]
  {
    AttemptsStore(respond, address, marketId, st, 0, st');
  }

  /** When every request serves a series, the pass stores every token it fetches, with one request each. */
  lemma {:induction false} PassAllServed<S>(respond: (nat, string) -> Response<S>, pending: seq<Token>,
                                            st: SyncState<S>)
    requires forall k, m :: Serves(respond(k, m))
    ensures Pass(respond, pending, st).prices.Keys == st.prices.Keys + Addresses(pending)
    ensures |Pass(respond, pending, st).requests| == |st.requests| + |pending|
    decreases |pending|
  {
    if pending != [] {
      var init, last := pending[..|pending| - 1], pending[|pending| - 1];
      PassAllServed(respond, init, st);
      var mid := Pass(respond, init, st);
      FetchServed(respond, last.address, last.marketId, mid, Pass(respond, pending, st));
      assert pending == init + [last];
      assert Addresses(pending) == Addresses(init) + {last.address};
    }
  }

  /**
   * A sync in which every request serves a series caches the whole
   * catalog; a later sync of the same catalog from that cache requests
   * nothing, so an interrupted-and-resumed run does not fetch twice.
   */
  lemma AllServedCachesCatalog<S>(catalog: seq<Token>, loaded: map<string, S>,
                                  respond: (nat, string) -> Response<S>, later: (nat, string) -> Response<S>)
    requires forall k, m :: Serves(respond(k, m))
    ensures var st := Sync(catalog, loaded, true, respond);
      && st.prices.Keys == loaded.Keys + Addresses(catalog)
      && Sync(catalog, st.prices, true, later).requests == []
  {
    var pending := Pending(catalog, loaded);
    PassAllServed(respond, pending, Start(loaded));
    var st := Sync(catalog, loaded, true, respond);
    assert Addresses(pending) == Addresses(catalog) - loaded.Keys;
    AllCachedIsNoOp(catalog, st.prices, later);
  }
}
