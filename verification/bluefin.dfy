/** The three Bluefin payload messages the back seat sends, as abstract values.
    Their wire text belongs to the external message library and is not
    modelled: only which constructor is used and with which arguments. */
module Bluefin {
  import opened Wrappers

  datatype Msg =
    | BPLOG(scope: string, state: string)
    | BPSTS(ts: string, code: int, text: string)
    | BPRMB(ts: string, heading: Option<string>, speed: Option<string>,
            horizMode: Option<int>, speedMode: Option<int>)

  /** `BPRMB(hhmmss, heading=h, horiz_mode=1)`. */
  function TurnCommand(ts: string, heading: string): Msg {
    BPRMB(ts, Some(heading), None, Some(1), None)
  }

  /** `BPRMB(hhmmss, speed=s, speed_mode=0)`. */
  function ThrustCommand(ts: string, speed: string): Msg {
    BPRMB(ts, None, Some(speed), None, Some(0))
  }
}
