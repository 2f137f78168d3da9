/**
  The electric-vehicle charger evaluator (TeslaSwitching.TeslaSwitches).

  It runs whenever the current price, the charger threshold or the override
  changes, or the car is plugged in; the plug-in sensor only triggers it and
  is never read. The result is the list of commands sent to the charging
  switch: one command, or none when the car is away.
 */
module Tesla {
  import opened TimeWindow
  import opened Text
  import opened Switching

  const LogError: int := 1
  const LogInfo: int := 2
  const LogDebug: int := 3
  /** The configured log level; the price test is nested under an info-level guard. */
  const LogLevel: int := LogInfo

  const HomeString: string := "Home"

  /** The car counts as present when its tracker reads "Home" in any letter case. */
  predicate AtHome(location: string) {
    Upper(location) == Upper(HomeString)
  }

  /**
    The decision tree: any override other than exactly "off" forces charging
    on; otherwise nothing happens unless the car is at home; at home the
    charger is turned off outside the normalised window, and inside it is
    turned on at or below the threshold and off above it.
   */
  function TeslaSwitches(now: int, override: string, location: string,
                         startTod: TimeOfDay, stopTod: TimeOfDay,
                         price: int, threshold: int): (r: seq<Command>)
    ensures |r| <= 1
    ensures override != "off" ==> r == [TurnOn]
    ensures r == [] <==> override == "off" && !AtHome(location)
    ensures override == "off" && AtHome(location) && !Normalise(now, startTod, stopTod).Contains(now) ==>
              r == [TurnOff]
    ensures override == "off" && AtHome(location) && Normalise(now, startTod, stopTod).Contains(now) ==>
              r == [if price <= threshold then TurnOn else TurnOff]
  {
    var w := Normalise(now, startTod, stopTod);
    if override == "off" then
      if AtHome(location) then
        if w.Contains(now) then
          if LogLevel >= LogInfo then PriceCommands(price, threshold) else []
        else [TurnOff]
      else []
    else [TurnOn]
  }

  /** "Home", "HOME", "home", "hOmE", ... are at home; every other string is not. */
  lemma AtHomeSpellings(location: string)
    ensures AtHome(location) <==>
      |location| == 4 && MatchesLetter(location[0], 'H') && MatchesLetter(location[1], 'O')
      && MatchesLetter(location[2], 'M') && MatchesLetter(location[3], 'E')
  {
    assert Upper(HomeString) == "HOME" by {
      assert HomeString[1..][1..][1..][1..] == "";
    }
    UpperEqualsWord(location, "HOME");
    if |location| == 4 && MatchesLetter(location[0], 'H') && MatchesLetter(location[1], 'O')
       && MatchesLetter(location[2], 'M') && MatchesLetter(location[3], 'E') {
      forall i | 0 <= i < 4 ensures MatchesLetter(location[i], "HOME"[i]) {
      }
    }
  }

  /**
    The decision restated without normalised windows: with the override off
    and the car home, charging is on exactly when the time of day lies in the
    configured daily range (start included, stop excluded) and the price is at
    or below the threshold; at home the charger always gets a command.
   */
  lemma TeslaByTimeOfDay(now: int, override: string, location: string,
                         startTod: TimeOfDay, stopTod: TimeOfDay, price: int, threshold: int)
    requires override == "off" && AtHome(location)
    ensures TeslaSwitches(now, override, location, startTod, stopTod, price, threshold) ==
      if (if startTod <= stopTod then startTod <= TimeOf(now) < stopTod
          else TimeOf(now) < stopTod || startTod <= TimeOf(now)) && price <= threshold
      then [TurnOn] else [TurnOff]
  {
    InsideIffDailyRange(now, startTod, stopTod);
  }
}
