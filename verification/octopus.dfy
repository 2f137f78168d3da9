/**
  The price analysis (OctopusAnalysis.Analyse).

  Every half hour the controller fetches the next day or so of unit prices,
  shifts them by an hour in summer time, collects all prices and, per device,
  the prices of the slots lying wholly inside that device's normalised
  window, and finds the current price. During the update hour it turns each
  device's sorted eligible list into a threshold: the k-th cheapest price
  plus a small headroom, where k is the device's configured slot count
  clamped to the list length. It then writes the thresholds (update hour
  only), the minimum price and the current price, in that order.

  Prices are integer thousandths of a penny per kWh, so rounding to three
  decimal places is the identity and the 0.01 headroom is 10.
 */
module Octopus {
  import opened TimeWindow
  import opened Text
  import opened PriceLists

  const Headroom: int := 10
  const DefaultTeslaThreshold: int := 9000
  const DefaultWhThreshold: int := 9000
  const DefaultCurrentCost: int := 25000
  /** Thresholds are recomputed only while the hour of now is this one. */
  const UpdateTimeslot: int := 20
  /** The summer-time correction applied to the feed's UTC slot times. */
  const DstShift: int := HourLength

  /** One priced interval of the feed: valid_from, valid_to, value_inc_vat. */
  datatype Slot = Slot(validFrom: int, validTo: int, price: int)

  /** The Home Assistant states the analysis writes. */
  datatype Entity = TeslaThreshold | WhThreshold | MinCost | CurCost

  /** One set_state call. */
  datatype Write = Write(entity: Entity, state: int)

  /** The summer-time flag reads "on" in some letter case. */
  predicate DstOn(isDst: string) {
    Upper(isDst) == "ON"
  }

  /**
    The feed after the summer-time correction: with the flag on, both ends of
    every slot move exactly one hour later and its price is kept; with the
    flag off the feed is unchanged.
   */
  function Adjusted(feed: seq<Slot>, isDst: string): (r: seq<Slot>)
    ensures |r| == |feed|
    ensures DstOn(isDst) ==> forall i :: 0 <= i < |feed| ==>
      r[i].validFrom == feed[i].validFrom + HourLength &&
      r[i].validTo == feed[i].validTo + HourLength &&
      r[i].price == feed[i].price
    ensures !DstOn(isDst) ==> r == feed
  {
    if DstOn(isDst) then
      seq(|feed|, i requires 0 <= i < |feed| =>
        Slot(feed[i].validFrom + DstShift, feed[i].validTo + DstShift, feed[i].price))
    else feed
  }

  /** A slot is eligible for a device when it lies wholly inside the device's window. */
  predicate Fits(w: Window, slot: Slot) {
    w.start <= slot.validFrom && w.stop >= slot.validTo
  }

  /** A slot is current when now lies in it, both ends included. */
  predicate Covers(slot: Slot, now: int) {
    slot.validFrom <= now <= slot.validTo
  }

  /** Every price of the feed, in feed order (the global list). */
  function AllPrices(slots: seq<Slot>): (r: seq<int>)
    ensures |r| == |slots|
    ensures forall i :: 0 <= i < |slots| ==> r[i] == slots[i].price
  {
    if |slots| == 0 then [] else AllPrices(slots[..|slots| - 1]) + [slots[|slots| - 1].price]
  }

  /** The prices of the slots that fit the window, in feed order (a device's list before sorting). */
  function EligiblePrices(slots: seq<Slot>, w: Window): (r: seq<int>)
    ensures |r| <= |slots|
  {
    if |slots| == 0 then []
    else
      var last := slots[|slots| - 1];
      EligiblePrices(slots[..|slots| - 1], w) + (if Fits(w, last) then [last.price] else [])
  }

  /** The price of the last slot covering now, or the default when none does. */
  function CurrentPrice(slots: seq<Slot>, now: int): int {
    if |slots| == 0 then DefaultCurrentCost
    else if Covers(slots[|slots| - 1], now) then slots[|slots| - 1].price
    else CurrentPrice(slots[..|slots| - 1], now)
  }

  /** The configured slot count, clamped to the number of eligible prices. */
  function SlotCount(minSlots: int, available: nat): (k: int)
    ensures k <= available
    ensures k <= minSlots
    ensures k == minSlots || k == available
  {
    if minSlots > available then available else minSlots
  }

  /**
    The threshold chosen from a device's sorted eligible list: the k-th entry
    plus the headroom, or the fallback when the list is empty or the clamped
    count is not positive.
   */
  function SelectThreshold(sorted: seq<int>, minSlots: int, fallback: int): (r: int)
    ensures |sorted| == 0 || SlotCount(minSlots, |sorted|) <= 0 ==> r == fallback
    ensures |sorted| > 0 && SlotCount(minSlots, |sorted|) > 0 ==> r - Headroom in sorted
  {
    if |sorted| > 0 then
      var k := SlotCount(minSlots, |sorted|);
      if k > 0 then sorted[k - 1] + Headroom else fallback
    else fallback
  }

  /**
    The pass over the fetched feed (Octopus.py:149-175): after the summer-time
    correction each price goes on the global list, on a device's list when its
    slot fits that device's window, and becomes the current price when its
    slot covers now.
   */
  method ScanFeed(now: int, isDst: string, teslaWindow: Window, whWindow: Window, feed: seq<Slot>)
    returns (globalPrices: seq<int>, teslaPrices: seq<int>, whPrices: seq<int>, currentPrice: int)
    ensures globalPrices == AllPrices(Adjusted(feed, isDst))
    ensures teslaPrices == EligiblePrices(Adjusted(feed, isDst), teslaWindow)
    ensures whPrices == EligiblePrices(Adjusted(feed, isDst), whWindow)
    ensures currentPrice == CurrentPrice(Adjusted(feed, isDst), now)
  {
    currentPrice := DefaultCurrentCost;
    globalPrices, teslaPrices, whPrices := [], [], [];
    ghost var slots := Adjusted(feed, isDst);
    var i := 0;
    while i < |feed|
      invariant 0 <= i <= |feed|
      invariant globalPrices == AllPrices(slots[..i])
      invariant teslaPrices == EligiblePrices(slots[..i], teslaWindow)
      invariant whPrices == EligiblePrices(slots[..i], whWindow)
      invariant currentPrice == CurrentPrice(slots[..i], now)
    {
      var price := feed[i].price;
      var startTime, endTime := feed[i].validFrom, feed[i].validTo;
      if DstOn(isDst) {
        startTime, endTime := startTime + DstShift, endTime + DstShift;
      }
      assert Slot(startTime, endTime, price) == slots[i];
      ghost var done := slots[..i + 1];
      assert done[..i] == slots[..i] && done[i] == slots[i];
      globalPrices := globalPrices + [price];
      if teslaWindow.start <= startTime && teslaWindow.stop >= endTime {
        teslaPrices := teslaPrices + [price];
      }
      if whWindow.start <= startTime && whWindow.stop >= endTime {
        whPrices := whPrices + [price];
      }
      if now >= startTime && now <= endTime {
        currentPrice := price;
      }
      i := i + 1;
    }
    assert slots[..i] == slots;
  }

  /**
    One analysis cycle. The state store reads (summer-time flag, the four
    window settings, the two slot counts), the clock and the fetched feed are
    parameters; the set_state calls are returned in order. An empty feed makes
    min() fail after the thresholds were written: `failed` is then true and
    `writes` holds the writes made before the failure.
   */
  method Analyse(now: int, isDst: string,
                 teslaStart: TimeOfDay, teslaStop: TimeOfDay,
                 whStart: TimeOfDay, whStop: TimeOfDay,
                 feed: seq<Slot>, teslaMinSlots: int, whMinSlots: int)
    returns (writes: seq<Write>, failed: bool)
    ensures failed <==> |feed| == 0
    ensures
      var slots := Adjusted(feed, isDst);
      var teslaList := Sort(EligiblePrices(slots, Normalise(now, teslaStart, teslaStop)));
      var whList := Sort(EligiblePrices(slots, Normalise(now, whStart, whStop)));
      var thresholds :=
        if HourOf(now) == UpdateTimeslot then
          [Write(TeslaThreshold, SelectThreshold(teslaList, teslaMinSlots, DefaultTeslaThreshold)),
           Write(WhThreshold, SelectThreshold(whList, whMinSlots, DefaultWhThreshold))]
        else [];
      writes ==
        if |feed| == 0 then thresholds
        else thresholds + [Write(MinCost, MinOf(AllPrices(slots))), Write(CurCost, CurrentPrice(slots, now))]
  {
    var teslaThreshold, whThreshold := DefaultTeslaThreshold, DefaultWhThreshold;
    var teslaWindow := Normalise(now, teslaStart, teslaStop);
    var whWindow := Normalise(now, whStart, whStop);

    var globalPrices, teslaPrices, whPrices, currentPrice := ScanFeed(now, isDst, teslaWindow, whWindow, feed);
    ghost var slots := Adjusted(feed, isDst);
    assert |globalPrices| == |slots| == |feed|;
    teslaPrices := Sort(teslaPrices);
    whPrices := Sort(whPrices);

    writes := [];
    if HourOf(now) == UpdateTimeslot {
      teslaThreshold := SelectThreshold(teslaPrices, teslaMinSlots, teslaThreshold);
      whThreshold := SelectThreshold(whPrices, whMinSlots, whThreshold);
      writes := writes + [Write(TeslaThreshold, teslaThreshold), Write(WhThreshold, whThreshold)];
    }

    if |globalPrices| == 0 {
      failed := true;
      return;
    }
    writes := writes + [Write(MinCost, MinOf(globalPrices)), Write(CurCost, currentPrice)];
    failed := false;
  }

  /** The summer-time flag is on for "on", "ON", "On" and "oN" and for nothing else. */
  lemma DstOnSpellings(isDst: string)
    ensures DstOn(isDst) <==>
      |isDst| == 2 && MatchesLetter(isDst[0], 'O') && MatchesLetter(isDst[1], 'N')
  {
    UpperEqualsWord(isDst, "ON");
    if |isDst| == 2 && MatchesLetter(isDst[0], 'O') && MatchesLetter(isDst[1], 'N') {
      forall i | 0 <= i < 2 ensures MatchesLetter(isDst[i], "ON"[i]) {
      }
    }
  }

  /**
    A price is on a device's eligible list exactly when some slot that fits
    the device's window carries it.
   */
  lemma {:induction false} EligibleMembership(slots: seq<Slot>, w: Window, p: int)
    ensures p in EligiblePrices(slots, w) <==>
      exists i :: 0 <= i < |slots| && Fits(w, slots[i]) && slots[i].price == p
  {
    if |slots| > 0 {
      var init, last := slots[..|slots| - 1], slots[|slots| - 1];
      EligibleMembership(init, w, p);
      if exists i :: 0 <= i < |slots| && Fits(w, slots[i]) && slots[i].price == p {
        var i :| 0 <= i < |slots| && Fits(w, slots[i]) && slots[i].price == p;
        if i < |slots| - 1 {
          assert init[i] == slots[i];
        }
      }
      if p in EligiblePrices(init, w) {
        var i :| 0 <= i < |init| && Fits(w, init[i]) && init[i].price == p;
        assert slots[i] == init[i];
      }
    }
  }

  /**
    Each eligible list is a sub-multiset of the global list: every eligible
    price is also a global price, as often or more often.
   */
  lemma {:induction false} EligibleWithinGlobal(slots: seq<Slot>, w: Window)
    ensures multiset(EligiblePrices(slots, w)) <= multiset(AllPrices(slots))
  {
    if |slots| > 0 {
      var init := slots[..|slots| - 1];
      EligibleWithinGlobal(init, w);
    }
  }

  /** The minimum written is at most every price of either device's eligible list. */
  lemma MinimumBelowEligible(slots: seq<Slot>, w: Window, p: int)
    requires |slots| > 0
    requires p in EligiblePrices(slots, w)
    ensures MinOf(AllPrices(slots)) <= p
  {
    EligibleMembership(slots, w, p);
  }

  /** When no slot covers now, the current price is the default. */
  lemma {:induction false} CurrentPriceDefault(slots: seq<Slot>, now: int)
    requires forall i :: 0 <= i < |slots| ==> !Covers(slots[i], now)
    ensures CurrentPrice(slots, now) == DefaultCurrentCost
  {
    if |slots| > 0 {
      var init := slots[..|slots| - 1];
      assert forall i :: 0 <= i < |init| ==> init[i] == slots[i];
      CurrentPriceDefault(init, now);
    }
  }

  /**
    The current price is the price of the last slot, in feed order, that
    covers now (both ends included).
   */
  lemma {:induction false} CurrentPriceIsLastCovering(slots: seq<Slot>, now: int, i: nat)
    requires i < |slots| && Covers(slots[i], now)
    requires forall j :: i < j < |slots| ==> !Covers(slots[j], now)
    ensures CurrentPrice(slots, now) == slots[i].price
  {
    var n := |slots| - 1;
    if i < n {
      var init := slots[..n];
      assert !Covers(slots[n], now);
      assert forall j :: i < j < |init| ==> init[j] == slots[j];
      CurrentPriceIsLastCovering(init, now, i);
    }
  }
  /**
    When a single slot covers now, the current price is that slot's price
    whatever the feed order. Adjacent slots share their boundary instant, so
    the feed order decides only when now falls exactly on a boundary.
   */
  lemma UniqueCoveringSlot(slots: seq<Slot>, now: int, i: nat)
    requires i < |slots| && Covers(slots[i], now)
    requires forall j :: 0 <= j < |slots| && j != i ==> !Covers(slots[j], now)
    ensures CurrentPrice(slots, now) == slots[i].price
  {
    CurrentPriceIsLastCovering(slots, now, i);
  }

  /**
    A run just after a half-hour boundary: with the slot that just ended and
    the slot that starts at the boundary in either feed order, now one
    millisecond past the boundary takes the new slot's price.
   */
  lemma AfterBoundaryExample(boundary: int)
    ensures CurrentPrice([Slot(boundary, boundary + 30 * MinuteLength, 20000),
                          Slot(boundary - 30 * MinuteLength, boundary, 10000)], boundary + 1000) == 20000
    ensures CurrentPrice([Slot(boundary - 30 * MinuteLength, boundary, 10000),
                          Slot(boundary, boundary + 30 * MinuteLength, 20000)], boundary + 1000) == 20000
  {
  }


  /**
    In the update hour, with a non-empty eligible list and a positive clamped
    count k, the threshold less the headroom is one of the eligible prices and
    is the k-th cheapest of them: fewer than k prices lie below it and at
    least k at or below it, so at least k eligible slots are at or below the
    threshold itself. This holds for any ascending ordering of the eligible
    prices, Sort's included.
   */
  lemma ThresholdIsKthCheapest(sorted: seq<int>, eligible: seq<int>, minSlots: int, fallback: int)
    requires Sorted(sorted) && multiset(sorted) == multiset(eligible)
    requires |eligible| > 0 && SlotCount(minSlots, |eligible|) > 0
    ensures SelectThreshold(sorted, minSlots, fallback) - Headroom in multiset(eligible)
    ensures CountBelow(eligible, SelectThreshold(sorted, minSlots, fallback) - Headroom)
            < SlotCount(minSlots, |eligible|)
            <= CountAtMost(eligible, SelectThreshold(sorted, minSlots, fallback) - Headroom)
    ensures CountAtMost(eligible, SelectThreshold(sorted, minSlots, fallback))
            >= SlotCount(minSlots, |eligible|)
  {
    assert |sorted| == |multiset(sorted)| == |eligible|;
    var k := SlotCount(minSlots, |eligible|);
    var r := SelectThreshold(sorted, minSlots, fallback);
    assert r - Headroom == sorted[k - 1];
    assert sorted[k - 1] in multiset(eligible);
    SortedOrderStatistic(sorted, k - 1);
    CountPermutation(sorted, eligible, r - Headroom);
    CountAtMostMonotonic(eligible, r - Headroom, r);
  }

  /**
    When exactly k eligible prices are at or below threshold minus headroom:
    k is the whole list, or the price after the k-th cheapest is dearer. A tie
    among the k cheapest does not matter; a tie across position k does.
   */
  lemma ThresholdExactCount(sorted: seq<int>, eligible: seq<int>, minSlots: int, fallback: int)
    requires Sorted(sorted) && multiset(sorted) == multiset(eligible)
    requires |eligible| > 0 && SlotCount(minSlots, |eligible|) > 0
    ensures var k := SlotCount(minSlots, |sorted|);
      CountAtMost(eligible, SelectThreshold(sorted, minSlots, fallback) - Headroom) == k <==>
      k == |sorted| || sorted[k] != sorted[k - 1]
  {
    assert |sorted| == |multiset(sorted)| == |eligible|;
    var k := SlotCount(minSlots, |eligible|);
    assert SelectThreshold(sorted, minSlots, fallback) - Headroom == sorted[k - 1];
    ExactCountAtEntry(sorted, k);
    CountPermutation(sorted, eligible, sorted[k - 1]);
  }

  /**
    Clamping: a configured count at or above the list length gives the same
    threshold as the length itself, and that threshold admits every eligible
    price.
   */
  lemma ThresholdClamped(sorted: seq<int>, eligible: seq<int>, minSlots: int, fallback: int)
    requires Sorted(sorted) && multiset(sorted) == multiset(eligible)
    requires |eligible| > 0 && minSlots >= |eligible|
    ensures SelectThreshold(sorted, minSlots, fallback) == SelectThreshold(sorted, |eligible|, fallback)
    ensures CountAtMost(eligible, SelectThreshold(sorted, minSlots, fallback) - Headroom) == |eligible|
  {
    ThresholdIsKthCheapest(sorted, eligible, minSlots, fallback);
  }

  /**
    Worked example: eligible prices 8, 9, 10, 12 and 15 p/kWh, in any feed
    order, with three slots requested give a threshold of 10.01 p/kWh.
   */
  lemma ThresholdExample(sorted: seq<int>)
    requires Sorted(sorted) && multiset(sorted) == multiset([8000, 9000, 10000, 12000, 15000])
    ensures SelectThreshold(sorted, 3, DefaultTeslaThreshold) == 10010
  {
    SortedUnique(sorted, [8000, 9000, 10000, 12000, 15000]);
  }

  /**
    The headroom admits more than k prices without any tie: with eligible
    prices 10.005 and 10.000 p/kWh and one slot wanted, the threshold is
    10.01 p/kWh, only one price is at the cheapest level, yet both prices are
    at or below the threshold.
   */
  lemma HeadroomAdmitsMore(sorted: seq<int>)
    requires Sorted(sorted) && multiset(sorted) == multiset([10005, 10000])
    ensures SelectThreshold(sorted, 1, DefaultTeslaThreshold) == 10010
    ensures CountAtMost(sorted, 10010 - Headroom) == 1
    ensures CountAtMost(sorted, 10010) == 2
  {
    SortedUnique(sorted, [10000, 10005]);
  }
}
