# HA_Switching decision logic in Dafny

This project models the decision core of a Home Assistant (AppDaemon)
controller. The controller runs a water heater and an electric-vehicle
charger on Octopus Agile, a half-hourly electricity tariff. It has three
parts:

- **Price analysis** (`OctopusAnalysis.Analyse`). It normalises each device's
  daily window relative to now. It scans the fetched price slots, shifting
  them one hour in summer time, and collects the global price list and, per
  device, the prices of the slots lying wholly inside the device's window. It
  also picks the current price. During the update hour (20:00-20:59) it
  derives a per-device threshold: the k-th cheapest eligible price plus a
  0.01 p/kWh headroom. It then writes the thresholds, the minimum price and
  the current price, in that order.
- **EV charger evaluator** (`TeslaSwitching.TeslaSwitches`). Override first,
  then car location, then window, then price against threshold. The result
  is turn on, turn off, or no command.
- **Water-heater evaluator** (`ImmersionSwitching.ImmersionSwitches`). The
  same tree without the location test, so it always sends one command.

Modules and files:

- `time_window.dfy`, module `TimeWindow`: instants, times of day, window
  normalisation, and the time-of-day reading of window membership.
- `text.dfy`, module `Text`: `str.upper()` and case-insensitive word matching.
- `price_lists.dfy`, module `PriceLists`: sorting, minimum, and counts of
  prices at or below a level (order statistics).
- `switching.dfy`, module `Switching`: the commands and the in-window price test.
- `octopus.dfy`, module `Octopus`: the feed scan, threshold selection and the
  analysis cycle.
- `tesla.dfy`, module `Tesla`, and `immersion.dfy`, module `Immersion`: the
  two evaluators.

Representation choices:

- Time is integer microseconds on the controller's naive local clock, the
  resolution of `datetime.now()`. A day is 86 400 000 000 and an hour is
  3 600 000 000.
- A time of day is `TimeOfDay`, an integer in `[0, Day)`.
- "Today at t" is `now - now % Day + t`, and the hour is `(now % Day) / HourLength`.
- Prices are integers in thousandths of a penny per kWh. The source's
  `round(x, 3)` is then the identity, the headroom is 10, the default
  thresholds are 9000 and the default current price is 25000.
- The Home Assistant reads (the override, location, summer-time flag, window
  settings, slot counts, stored price and threshold) are parameters.
- The clock and the fetched feed are parameters too.
- The `set_state` calls of the analysis are returned as an ordered list of
  `Write`s.
- The evaluators return the list of switch commands they issue.

Behaviour of the source worth knowing:

- **Current price.** A slot covers now with both ends included
  (`start <= now <= end`). Adjacent slots share their boundary instant, so
  only at exactly that instant do two slots cover now, and then the later
  one in feed order wins. Analyse is scheduled at :00 and :30
  (Octopus.py:57-60), so now is a little past a boundary at each scheduled
  run. Only the slot starting at the boundary covers it then, and its price
  is taken whatever the feed order (`UniqueCoveringSlot`,
  `AfterBoundaryExample`).
- **Defaults.** In the update hour, an empty eligible list or a clamped
  count <= 0 writes the default threshold (9 p/kWh), not the earlier value:
  the thresholds are locals initialised to the default.
- **Ties and headroom.** The threshold admits at least k eligible prices.
  Exactly k prices are at or below threshold minus headroom exactly when
  no price outside the k cheapest equals the k-th cheapest: k is the list
  length, or sorted[k] != sorted[k - 1] (`ThresholdExactCount`). Ties among
  the k cheapest do not matter. The threshold itself also admits every price
  up to 0.01 p/kWh above the k-th cheapest, so ties are not needed for more
  than k prices to pass (`HeadroomAdmitsMore`).
- **Window stop.** The evaluators compare the stop bound inclusively. But
  normalisation always leaves `stop > now`, so that bound never decides
  anything. At exactly the configured stop time the window has already
  rolled to the next day and the device is switched off (`InsideIffDailyRange`).
  A window whose start equals its stop is never entered.
- **Charger log guard.** The charger's price test sits inside an
  `if LOGLEVEL >= LOGINFO` block. The model keeps that guard with the
  configured `LogLevel = LogInfo`, so the test always runs.
- **Presence.** The plug-in sensor only triggers the charger evaluator and is
  never read. Presence means only that the tracker reads "Home" in any letter case.

## Model

| member | source | states |
|---|---|---|
| TimeWindow.Today | appdaemon/apps/Octopus.py:110-113 | the configured time of day placed on now's calendar day: same time of day, within now's day |
| TimeWindow.HourOf | appdaemon/apps/Octopus.py:184 | the hour of now is the h in 0..23 whose hour-long band contains now's time of day |
| TimeWindow.Normalise | appdaemon/apps/Octopus.py:115-127 | the normalised window keeps both configured times of day, has start <= stop, ends in (now, now + 1 day], and is shorter than a day |
| TimeWindow.NormaliseUnique | appdaemon/apps/Octopus.py:115-127 | those properties determine the normalised window: any window having them is the one computed |
| TimeWindow.InsideIffDailyRange | appdaemon/apps/Immersion.py:78-100 | now is in the normalised window iff its time of day is in the configured daily range: start included, stop excluded, wrapping at midnight when start > stop |
| TimeWindow.OvernightExample | appdaemon/apps/Immersion.py:84-85 | a 22:00-06:00 window contains 23:30 of the same evening |
| Text.UpperEqualsWord | appdaemon/apps/Tesla.py:101 | upper-casing then comparing with an upper-case word accepts exactly that word's spellings in any letter case |
| Tesla.AtHomeSpellings | appdaemon/apps/Tesla.py:101 | the car is present iff the location is "home" in some mix of cases, and nothing else |
| Switching.PriceCommands | appdaemon/apps/Immersion.py:101-108 | the two consecutive price tests issue exactly one command: turn on iff price <= threshold, turn off iff price > threshold |
| Tesla.TeslaSwitches | appdaemon/apps/Tesla.py:54-123 | override not exactly "off" gives turn-on; with override "off", no command iff the car is away; at home, turn-off outside the window, and inside it turn-on iff price <= threshold; never more than one command |
| Tesla.TeslaByTimeOfDay | appdaemon/apps/Tesla.py:99-116 | with override off and the car home, charging is on iff now's time of day is in the daily range and price <= threshold, otherwise off |
| Immersion.ImmersionSwitches | appdaemon/apps/Immersion.py:50-116 | exactly one command per call; override not "off" gives turn-on; otherwise turn-off outside the window, and inside it turn-on iff price <= threshold |
| Immersion.ImmersionByTimeOfDay | appdaemon/apps/Immersion.py:99-116 | the heater is on iff the override is not "off", or now's time of day is in the daily range and price <= threshold |
| Immersion.SameDecisionAsChargerAtHome | appdaemon/apps/Tesla.py:99-123 | with equal inputs the heater and charger get the same command whenever the override is not "off" or the car is home; otherwise the charger gets none |
| PriceLists.Insert | appdaemon/apps/Octopus.py:177 | inserting into a sorted list gives a sorted list with exactly one more occurrence of the price |
| PriceLists.Sort | appdaemon/apps/Octopus.py:177-178 | the sorted eligible list is ascending and is a permutation of the input |
| PriceLists.SortedUnique | appdaemon/apps/Octopus.py:177-178 | two ascending permutations of the same prices are equal, so any correct sort gives the same list |
| PriceLists.CountPermutation | appdaemon/apps/Octopus.py:177-178 | the counts of prices below or at a level are the same before and after sorting |
| PriceLists.SortedOrderStatistic | appdaemon/apps/Octopus.py:197 | in an ascending list the entry at index k has at most k prices below it and at least k + 1 at or below it |
| PriceLists.ExactCountAtEntry | appdaemon/apps/Octopus.py:197 | in an ascending list exactly k prices are at or below entry k - 1 iff it is the last entry or the next entry differs |
| PriceLists.MinOf | appdaemon/apps/Octopus.py:228 | the minimum price written is on the global list and at most every price on it |
| Octopus.DstOnSpellings | appdaemon/apps/Octopus.py:159 | the summer-time shift applies iff the flag reads "on" in some mix of cases |
| Octopus.Adjusted | appdaemon/apps/Octopus.py:159-161 | with the flag on, both ends of every slot move exactly one hour later and prices are kept; otherwise the feed is unchanged |
| Octopus.ScanFeed | appdaemon/apps/Octopus.py:149-175 | the feed pass yields the global price list, each device's eligible prices and the current price, as the specification functions define them |
| Octopus.EligibleMembership | appdaemon/apps/Octopus.py:163-167 | a price is on a device's eligible list iff some slot with window.start <= slot.start and window.stop >= slot.end carries it |
| Octopus.EligibleWithinGlobal | appdaemon/apps/Octopus.py:163-167 | each eligible list is a sub-multiset of the global list |
| Octopus.MinimumBelowEligible | appdaemon/apps/Octopus.py:228 | the minimum written is at most every price on either device's eligible list |
| Octopus.CurrentPriceDefault | appdaemon/apps/Octopus.py:92 | when no slot covers now, the current price is the default 25 p/kWh |
| Octopus.CurrentPriceIsLastCovering | appdaemon/apps/Octopus.py:172-173 | the current price is the price of the last slot in feed order with start <= now <= end |
| Octopus.UniqueCoveringSlot | appdaemon/apps/Octopus.py:172-173 | when a single slot covers now, the current price is its price whatever the feed order |
| Octopus.AfterBoundaryExample | appdaemon/apps/Octopus.py:57-60 | one millisecond after a half-hour boundary, the slot starting there gives the current price in either feed order |
| Octopus.SlotCount | appdaemon/apps/Octopus.py:192-193 | the clamped count is the configured count or the list length, whichever is smaller |
| Octopus.SelectThreshold | appdaemon/apps/Octopus.py:190-199 | an empty list or a clamped count <= 0 gives the default; otherwise the threshold less the headroom is on the list |
| Octopus.ThresholdIsKthCheapest | appdaemon/apps/Octopus.py:196-197 | with k > 0 the threshold less the headroom is an eligible price with fewer than k eligible prices below it and at least k at or below it; at least k eligible prices are <= the threshold |
| Octopus.ThresholdExactCount | appdaemon/apps/Octopus.py:196-197 | exactly k eligible prices are at or below threshold minus headroom iff k is the list length or the next sorted price differs from the k-th |
| Octopus.ThresholdClamped | appdaemon/apps/Octopus.py:192-193 | a configured count at or above the list length gives the same threshold as the length, and that threshold admits every eligible price |
| Octopus.ThresholdExample | appdaemon/apps/Octopus.py:197 | eligible prices 8, 9, 10, 12, 15 p/kWh in any order with 3 slots give 10.01 p/kWh |
| Octopus.HeadroomAdmitsMore | appdaemon/apps/Octopus.py:196-197 | prices 10.005 and 10.000 p/kWh with one slot give 10.01 p/kWh, which admits both prices although only one is at the cheapest level |
| Octopus.Analyse | appdaemon/apps/Octopus.py:72-229 | the writes are the two thresholds (only when the hour is 20), then the minimum and the current price; with an empty feed min() fails and only the threshold writes happen |

## Left out

- The HTTP fetch and JSON extraction (Octopus.py:140-148). The slot list is a
  parameter.
- The request period (`now - 1 h` to `now + 25 h`, Octopus.py:106-107, 129-130)
  only parameterises that fetch, so it is not modelled.
- Parsing by library code: `iso8601.parse_date`, `strptime("%H:%M:%S")`, and
  `int(float(...))` on the slot counts. Times are integer microseconds,
  times of day are `TimeOfDay` values and slot counts are integers. The
  source's slot instants and configured times of day are whole seconds; the
  model accepts any microsecond value.
- Floating point. Prices are exact integer thousandths. A non-numeric stored
  price or threshold (a `ValueError` in `float()`) and NaN, which would make
  both price tests false and send no command, are not modelled.
- `datetime.now()` and the logged UTC timestamp (Octopus.py:83). Now is a parameter.
- All `self.log` output, and the `unit_of_measurement` attribute of each
  `set_state`. Each write is modelled as an entity and a value.
- `listen_state` and `run_hourly` registrations, and the serialisation of
  callbacks by the host.
- `turn_on` and `turn_off` themselves. The evaluators return the commands.
- Text.Upper: upper-cases the ASCII letters only, while `str.upper()`
  follows Unicode. The only words compared are "HOME" and "ON", and as far
  as is known no non-ASCII character upper-cases to one of their letters.
- `list.sort` is library code. It is modelled by `PriceLists.Sort`, and
  `SortedUnique` shows that every ascending permutation is that same list.
- PriceLists.MinOf: returns the minimum value. Python's `min` returns the
  first minimal element, which has the same value.
