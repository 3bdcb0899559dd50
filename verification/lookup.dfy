/**
 * Point-in-time price lookup (`get_price_from_timestamp`).
 *
 * A price series is an ordered list of samples, each a time in milliseconds
 * and the price quoted then. A lookup converts a time in seconds to
 * milliseconds, returns the price of the left sample of the first adjacent
 * pair that brackets it, and otherwise falls back to the last sample's price,
 * printing a warning the first time this happens in the process.
 *
 * Prices are a type parameter: the lookup only copies them, it never
 * interpolates or computes on them.
 */
module PriceLookup {
  import opened Wrappers

  /** One `[timestamp_ms, price]` entry of a price series. */
  datatype Sample<P> = Sample(timestampMs: int, price: P)

  /** The lookup's target is given in seconds; series are sampled in milliseconds. */
  const MS_PER_SECOND: int := 1000

  /** The samples at `i` and `i + 1` bracket time `t` (both ends inclusive). */
  predicate Brackets<P>(prices: seq<Sample<P>>, i: int, t: int)
    requires 0 <= i < |prices| - 1
  {
    prices[i].timestampMs <= t <= prices[i + 1].timestampMs
  }

  /** Some adjacent pair of the series brackets time `t`. */
  predicate HasBracket<P>(prices: seq<Sample<P>>, t: int)
  {
    exists i :: 0 <= i < |prices| - 1 && Brackets(prices, i, t)
  }

  /** Timestamps never decrease along the series, as the price source delivers them. */
  predicate Sorted<P>(prices: seq<Sample<P>>)
  {
    forall i, j :: 0 <= i <= j < |prices| ==> prices[i].timestampMs <= prices[j].timestampMs
  }

  /** Timestamps strictly increase along the series. */
  predicate StrictlySorted<P>(prices: seq<Sample<P>>)
  {
    forall i, j :: 0 <= i < j < |prices| ==> prices[i].timestampMs < prices[j].timestampMs
  }

  /** The first index at or after `from` whose pair brackets `t`, scanning left to right. */
  function FirstBracket<P>(prices: seq<Sample<P>>, t: int, from: nat): (r: Option<nat>)
    ensures r.Some? ==> from <= r.value < |prices| - 1 && Brackets(prices, r.value, t)
    ensures r.Some? ==> forall j :: from <= j < r.value ==> !Brackets(prices, j, t)
    ensures r.None? ==> forall j :: from <= j < |prices| - 1 ==> !Brackets(prices, j, t)
    decreases |prices| - from
  {
    if from + 1 >= |prices| then None
    else if Brackets(prices, from, t) then Some(from)
    else FirstBracket(prices, t, from + 1)
  }

  /**
   * The price a lookup of `timestamp` (in seconds) returns: the left price of
   * the first bracketing pair, else the last sample's price. It is always one
   * of the series' own prices.
   */
  function PriceAt<P>(timestamp: int, prices: seq<Sample<P>>): (p: P)
    requires |prices| > 0
    ensures forall i :: 0 <= i < |prices| - 1 && Brackets(prices, i, timestamp * MS_PER_SECOND)
              && (forall j :: 0 <= j < i ==> !Brackets(prices, j, timestamp * MS_PER_SECOND))
              ==> p == prices[i].price
    ensures !HasBracket(prices, timestamp * MS_PER_SECOND) ==> p == prices[|prices| - 1].price
    ensures exists k :: 0 <= k < |prices| && p == prices[k].price
  {
    match FirstBracket(prices, timestamp * MS_PER_SECOND, 0)
    case Some(i) => prices[i].price
    case None => prices[|prices| - 1].price
  }

  /** From `from` on, a sorted series whose remaining span contains `t` has a bracketing pair. */
  lemma {:induction false} BracketFrom<P>(prices: seq<Sample<P>>, t: int, from: nat)
    requires Sorted(prices)
    requires from < |prices| - 1
    requires prices[from].timestampMs <= t <= prices[|prices| - 1].timestampMs
    ensures exists i :: from <= i < |prices| - 1 && Brackets(prices, i, t)
    decreases |prices| - from
  {
    if t <= prices[from + 1].timestampMs {
      assert Brackets(prices, from, t);
    } else {
      BracketFrom(prices, t, from + 1);
    }
  }

  /**
   * On a sorted series of two or more samples, the lookup finds a bracketing
   * pair exactly when the target lies between the first and the last
   * timestamp; outside that span it falls back.
   */
  lemma BracketIffInSpan<P>(prices: seq<Sample<P>>, t: int)
    requires Sorted(prices) && |prices| >= 2
    ensures HasBracket(prices, t) <==> prices[0].timestampMs <= t <= prices[|prices| - 1].timestampMs
  {
    if prices[0].timestampMs <= t <= prices[|prices| - 1].timestampMs {
      BracketFrom(prices, t, 0);
    }
    if HasBracket(prices, t) {
      var i :| 0 <= i < |prices| - 1 && Brackets(prices, i, t);
      assert prices[0].timestampMs <= prices[i].timestampMs;
      assert prices[i + 1].timestampMs <= prices[|prices| - 1].timestampMs;
    }
  }

  /**
   * A target equal to the timestamp of a sample other than the first gets the
   * PREVIOUS sample's price: the pair ending at that sample already brackets
   * it, and no pair before it does.
   */
  lemma ExactHitTakesPrevious<P>(prices: seq<Sample<P>>, timestamp: int, i: nat)
    requires StrictlySorted(prices)
    requires 0 < i < |prices|
    requires timestamp * MS_PER_SECOND == prices[i].timestampMs
    ensures PriceAt(timestamp, prices) == prices[i - 1].price
  {
    var t := timestamp * MS_PER_SECOND;
    assert Brackets(prices, i - 1, t);
    forall j | 0 <= j < i - 1
      ensures !Brackets(prices, j, t)
    {
      assert prices[j + 1].timestampMs < prices[i].timestampMs;
    }
  }

  /** The series `[[1000, a], [2000, b], [3000, c]]` looked up at 0 to 4 seconds. */
  lemma ThreeSampleExample<P>(a: P, b: P, c: P)
    ensures var s := [Sample(1000, a), Sample(2000, b), Sample(3000, c)];
      && PriceAt(1, s) == a
      && PriceAt(2, s) == a
      && PriceAt(3, s) == b
      && PriceAt(0, s) == c
      && PriceAt(4, s) == c
  {
    var s := [Sample(1000, a), Sample(2000, b), Sample(3000, c)];
    assert Brackets(s, 0, 1000) && Brackets(s, 0, 2000) && Brackets(s, 1, 3000);
    assert !Brackets(s, 0, 3000);
    assert !HasBracket(s, 0) && !HasBracket(s, 4000);
  }

  /**
   * The module-global warning flag of the lookup. `warningsPrinted` counts
   * the fallback warnings written to the console (the console itself is not
   * modelled); the flag keeps it at one.
   */
  class Lookup {
    var warningShown: bool
    var warningsPrinted: nat

    ghost predicate Valid()
      reads this
    {
      warningsPrinted == if warningShown then 1 else 0
    }

    /** A fresh process: no warning shown yet. */
    constructor ()
      ensures Valid()
      ensures !warningShown && warningsPrinted == 0
    {
      warningShown := false;
      warningsPrinted := 0;
    }

    /**
     * `get_price_from_timestamp`: returns `PriceAt(timestamp, prices)`. A
     * bracketed hit leaves the flag alone; a fallback sets it, and prints the
     * warning only if it was not set before. The series must be non-empty,
     * since the last sample's price is read before the scan.
     */
    method GetPriceFromTimestamp<P>(timestamp: int, prices: seq<Sample<P>>) returns (price: P)
      requires Valid() && |prices| > 0
      modifies this
      ensures price == PriceAt(timestamp, prices)
      ensures warningShown == (old(warningShown) || !HasBracket(prices, timestamp * MS_PER_SECOND))
      ensures warningsPrinted == old(warningsPrinted)
                + if !old(warningShown) && !HasBracket(prices, timestamp * MS_PER_SECOND) then 1 else 0
      ensures Valid()
    {
      var t := timestamp * MS_PER_SECOND;
      var oneEthToUsd := prices[|prices| - 1].price;
      for index := 0 to |prices|
        invariant forall j :: 0 <= j < index && j < |prices| - 1 ==> !Brackets(prices, j, t)
      {
        if index < |prices| - 1 {
          if prices[index].timestampMs <= t && t <= prices[index + 1].timestampMs {
            assert Brackets(prices, index, t);
            return prices[index].price;
          }
        }
      }
      if !warningShown {
        warningsPrinted := warningsPrinted + 1;
        warningShown := true;
      }
      return oneEthToUsd;
    }
  }

  /** Some lookup in `calls` (a target in seconds and a series) falls back. */
  predicate SomeFallback<P>(calls: seq<(int, seq<Sample<P>>)>)
  {
    exists k :: 0 <= k < |calls| && !HasBracket(calls[k].1, calls[k].0 * MS_PER_SECOND)
  }

  /**
   * A process that performs the lookups in `calls` one after another prints
   * the fallback warning once if any of them falls back and never otherwise,
   * and each lookup returns its `PriceAt`.
   */
  method LookupAll<P>(calls: seq<(int, seq<Sample<P>>)>) returns (results: seq<P>, printed: nat)
    requires forall k :: 0 <= k < |calls| ==> |calls[k].1| > 0
    ensures |results| == |calls|
    ensures forall k :: 0 <= k < |calls| ==> results[k] == PriceAt(calls[k].0, calls[k].1)
    ensures printed == if SomeFallback(calls) then 1 else 0
  {
    var lookup := new Lookup();
    results := [];
    for k := 0 to |calls|
      invariant lookup.Valid()
      invariant |results| == k
      invariant forall m :: 0 <= m < k ==> results[m] == PriceAt(calls[m].0, calls[m].1)
      invariant lookup.warningShown == SomeFallback(calls[..k])
    {
      var price := lookup.GetPriceFromTimestamp(calls[k].0, calls[k].1);
      results := results + [price];
      assert calls[..k + 1] == calls[..k] + [calls[k]];
    }
    assert calls[..|calls|] == calls;
    printed := lookup.warningsPrinted;
  }
}
