/**
 * The pending list of `get_prices` as written removes the reserved key
 * "eth_to_usd" from the cached keys before filtering the catalog. A catalog
 * token whose address is that key, while the key is cached, therefore stays
 * pending; the outer loop's guard "not yet in the cache" is false for it, and
 * since the loop advances its index only inside that guard, it never ends.
 * The corrected pending list (`PriceSync.Pending`) leaves out every cached
 * address; with it the same outer loop ends after one iteration per token.
 */
module ReservedKeyStall {
  import opened PriceSync
  import opened PriceSyncFacts

  /** The pending list as the source computes it: the reserved key does not count as cached. */
  function PendingAsWritten<S>(catalog: seq<Token>, prices: map<string, S>): (r: seq<Token>)
    ensures forall t :: t in r <==> t in catalog && (t.address !in prices || t.address == RESERVED_KEY)
  {
    Filter(catalog, prices.Keys - {RESERVED_KEY})
  }

  /** One iteration of the outer loop: fetch and advance only when the current address is not cached. */
  function OuterStep<S>(respond: (nat, string) -> Response<S>, pending: seq<Token>, index: nat, st: SyncState<S>)
    : (nat, SyncState<S>)
    requires index < |pending|
  {
    var token := pending[index];
    if token.address !in st.prices then (index + 1, Fetch(respond, token.address, token.marketId, st))
    else (index, st)
  }

  /** The outer loop run for at most `n` iterations: its index and state afterwards. */
  function Run<S>(respond: (nat, string) -> Response<S>, pending: seq<Token>, index: nat, st: SyncState<S>, n: nat)
    : (nat, SyncState<S>)
    decreases n
  {
    if n == 0 || index >= |pending| then (index, st)
    else
      var (index', st') := OuterStep(respond, pending, index, st);
      Run(respond, pending, index', st', n - 1)
  }

  /** The retry loop never removes a cached key. */
  lemma FetchKeepsKeys<S>(respond: (nat, string) -> Response<S>, address: string, marketId: string,
                          st: SyncState<S>)
    ensures st.prices.Keys <= Fetch(respond, address, marketId, st).prices.Keys
  {
    AttemptsStore(respond, address, marketId, st, 0, Fetch(respond, address, marketId, st));
  }

  /** Once the loop is at or before a cached pending address, no number of iterations takes it past that address. */
  lemma {:induction false} RunStaysBefore<S>(respond: (nat, string) -> Response<S>, pending: seq<Token>,
                                             stuck: nat, index: nat, st: SyncState<S>, n: nat)
    requires stuck < |pending| && index <= stuck
    requires pending[stuck].address in st.prices
    ensures Run(respond, pending, index, st, n).0 <= stuck
    decreases n
  {
    if n > 0 {
      var token := pending[index];
      if token.address !in st.prices {
        FetchKeepsKeys(respond, token.address, token.marketId, st);
        RunStaysBefore(respond, pending, stuck, index + 1,
                       Fetch(respond, token.address, token.marketId, st), n - 1);
      } else {
        RunStaysBefore(respond, pending, stuck, index, st, n - 1);
      }
    }
  }

  /**
   * As written: when the catalog lists the reserved key and the cache holds
   * it, the outer loop over `PendingAsWritten` is still running after any
   * number of iterations.
   */
  lemma ReservedKeyStalls<S>(catalog: seq<Token>, loaded: map<string, S>, marketId: string,
                             respond: (nat, string) -> Response<S>, n: nat)
    requires Token(RESERVED_KEY, marketId) in catalog && RESERVED_KEY in loaded
    ensures Run(respond, PendingAsWritten(catalog, loaded), 0, Start(loaded), n).0
            < |PendingAsWritten(catalog, loaded)|
  {
    var pending := PendingAsWritten(catalog, loaded);
    var stuck :| 0 <= stuck < |pending| && pending[stuck] == Token(RESERVED_KEY, marketId);
    RunStaysBefore(respond, pending, stuck, 0, Start(loaded), n);
  }

  /** Filtering with two exclusion sets that agree on the catalog's addresses gives the same list. */
  lemma {:induction false} FilterAgrees(catalog: seq<Token>, a: set<string>, b: set<string>)
    requires forall t :: t in catalog ==> (t.address in a <==> t.address in b)
    ensures Filter(catalog, a) == Filter(catalog, b)
    decreases |catalog|
  {
    if catalog != [] {
      assert catalog[0] in catalog;
      assert forall t :: t in catalog[1..] ==> t in catalog;
      FilterAgrees(catalog[1..], a, b);
    }
  }

  /** The as-written and the corrected pending lists coincide when no catalog address is the reserved key. */
  lemma AsWrittenAgrees<S>(catalog: seq<Token>, prices: map<string, S>)
    requires RESERVED_KEY !in Addresses(catalog)
    ensures PendingAsWritten(catalog, prices) == Pending(catalog, prices)
  {
    FilterAgrees(catalog, prices.Keys - {RESERVED_KEY}, prices.Keys);
  }

  /**
   * From a point where the state is the pass over the first `index`
   * tokens and the rest are uncached, the outer loop finishes the remaining
   * tokens one iteration each, ending in the state of the whole pass.
   */
  lemma {:induction false} RunFinishes<S>(respond: (nat, string) -> Response<S>, pending: seq<Token>,
                                          index: nat, start: SyncState<S>)
    requires UniqueAddresses(pending) && index <= |pending|
    requires forall k :: index <= k < |pending| ==> pending[k].address !in Pass(respond, pending[..index], start).prices
    ensures Run(respond, pending, index, Pass(respond, pending[..index], start), |pending| - index)
            == (|pending|, Pass(respond, pending, start))
    decreases |pending| - index
  {
    var st := Pass(respond, pending[..index], start);
    if index == |pending| {
      assert pending[..index] == pending;
    } else {
      var token := pending[index];
      var st' := Fetch(respond, token.address, token.marketId, st);
      PassExtend(respond, pending, index, start);
      FetchFacts(respond, token.address, token.marketId, st, st');
      StillUncached(pending, index, st.prices, st'.prices);
      RunFinishes(respond, pending, index + 1, start);
    }
  }

  /**
   * Corrected: over `PriceSync.Pending`, the same outer loop ends after
   * exactly one iteration per pending token, in the state of `Pass`.
   */
  lemma CorrectedRunFinishes<S>(catalog: seq<Token>, loaded: map<string, S>, respond: (nat, string) -> Response<S>)
    requires UniqueAddresses(catalog)
    ensures var pending := Pending(catalog, loaded);
      Run(respond, pending, 0, Start(loaded), |pending|) == (|pending|, Pass(respond, pending, Start(loaded)))
  {
    var pending := Pending(catalog, loaded);
    PendingFacts(catalog, loaded);
    assert pending[..0] == [];
    RunFinishes(respond, pending, 0, Start(loaded));
  }
}
