/**
  What both switch evaluators share: the commands they may issue and the
  price test made inside a device's window. The test is written in the source
  as two independent `if`s (turn on when price <= threshold, then turn off
  when price > threshold), so the commands issued are a list.
 */
module Switching {

  /** turn_on / turn_off of the device's switch. */
  datatype Command = TurnOn | TurnOff

  /** The two consecutive price tests inside the window. */
  function PriceCommands(price: int, threshold: int): (r: seq<Command>)
    ensures |r| == 1
    ensures r[0] == TurnOn <==> price <= threshold
    ensures r[0] == TurnOff <==> price > threshold
  {
    (if price <= threshold then [TurnOn] else []) + (if price > threshold then [TurnOff] else [])
  }
}
