/**
  The water-heater (immersion) evaluator (ImmersionSwitching.ImmersionSwitches).

  It runs whenever the current price, the water-heater threshold or the
  override changes. It has the charger's decision tree without the presence
  test, so it always sends exactly one command.
 */
module Immersion {
  import opened TimeWindow
  import opened Switching
  import Tesla

  /**
    Any override other than exactly "off" forces heating on; otherwise the
    heater is turned off outside the normalised window, and inside it is
    turned on at or below the threshold and off above it.
   */
  function ImmersionSwitches(now: int, override: string,
                             startTod: TimeOfDay, stopTod: TimeOfDay,
                             price: int, threshold: int): (r: seq<Command>)
    ensures |r| == 1
    ensures override != "off" ==> r[0] == TurnOn
    ensures override == "off" && !Normalise(now, startTod, stopTod).Contains(now) ==> r[0] == TurnOff
    ensures override == "off" && Normalise(now, startTod, stopTod).Contains(now) ==>
              (r[0] == TurnOn <==> price <= threshold)
  {
    var w := Normalise(now, startTod, stopTod);
    if override == "off" then
      if w.Contains(now) then PriceCommands(price, threshold)
      else [TurnOff]
    else [TurnOn]
  }

  /**
    The heater is on exactly when the override is not "off", or when the time
    of day lies in the configured daily range (start included, stop excluded)
    and the price is at or below the threshold.
   */
  lemma ImmersionByTimeOfDay(now: int, override: string,
                             startTod: TimeOfDay, stopTod: TimeOfDay, price: int, threshold: int)
    ensures ImmersionSwitches(now, override, startTod, stopTod, price, threshold) ==
      if override != "off" ||
         ((if startTod <= stopTod then startTod <= TimeOf(now) < stopTod
           else TimeOf(now) < stopTod || startTod <= TimeOf(now)) && price <= threshold)
      then [TurnOn] else [TurnOff]
  {
    InsideIffDailyRange(now, startTod, stopTod);
  }

  /**
    With the same override, window, price and threshold, the heater gets the
    command the charger gets whenever the car is at home; the two evaluators
    differ only in the presence test.
   */
  lemma SameDecisionAsChargerAtHome(now: int, override: string, location: string,
                                    startTod: TimeOfDay, stopTod: TimeOfDay, price: int, threshold: int)
    ensures Tesla.AtHome(location) || override != "off" ==>
      ImmersionSwitches(now, override, startTod, stopTod, price, threshold)
        == Tesla.TeslaSwitches(now, override, location, startTod, stopTod, price, threshold)
    ensures !Tesla.AtHome(location) && override == "off" ==>
      Tesla.TeslaSwitches(now, override, location, startTod, stopTod, price, threshold) == []
  {
  }
}
