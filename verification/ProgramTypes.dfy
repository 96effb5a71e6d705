/** Compiled program steps and the fixed hardware tables they refer to. */
module ProgramTypes {
  import opened Bytes

  const MAX_STEPS := 15
  const MAX_TRIGGERS := 8
  const RELAYS := 5
  const INPUTS := 3

  datatype ActionId =
    | UNKNOWN
    | WAIT | RELAY_PULSE_ON_OFF_ON | RELAY_PULSE_OFF_ON_OFF | STARTER_TIMED | STARTER_WAIT_INPUT
    | RELAY_ON | RELAY_OFF | RELAY_TOGGLE | INPUT_ENABLE | INPUT_DISABLE
    | INPUT_TRIGGER_ENABLE | INPUT_TRIGGER_DISABLE | TEMP_TRIGGER_ENABLE | TEMP_TRIGGER_DISABLE
    | BATTERY_SAVER_ON | BATTERY_SAVER_OFF | THERMOSTAT_ON | THERMOSTAT_OFF

  datatype ComparisonOp = Above | Below

  /** `threshold` is in hundredths. */
  datatype CompiledStep = CompiledStep(
    action: ActionId, relayId: nat, ms: nat, timeoutMs: nat,
    inputId: nat, sensorId: nat, inputTriggerId: nat, tempTriggerId: nat, programId: nat,
    retries: nat, expectedState: nat, comparison: ComparisonOp, threshold: int,
    engineState: nat, timeoutAction: nat, skipCount: nat)
  {
    predicate Pulses() { action == RELAY_PULSE_ON_OFF_ON || action == RELAY_PULSE_OFF_ON_OFF }
    predicate Cranks() { action == STARTER_TIMED || action == STARTER_WAIT_INPUT }
    function Attempts(): (n: nat) ensures n >= 1 { if retries == 0 then 1 else retries }
  }

  /** Channel of a relay id; ids run 2001..2005. */
  function RelayIndex(id: nat): (r: Option<nat>)
    ensures r.Some? ==> r.value < RELAYS
  {
    if 2001 <= id <= 2005 then Some(id - 2001) else None
  }

  /** Channel of an input id; ids run 1001..1003. */
  function InputIndex(id: nat): (r: Option<nat>)
    ensures r.Some? ==> r.value < INPUTS
  {
    if 1001 <= id <= 1003 then Some(id - 1001) else None
  }

  function IndexOf(ids: seq<nat>, id: nat): (r: Option<nat>)
    ensures r.Some? ==> r.value < |ids| && ids[r.value] == id
    ensures r.None? ==> id !in ids
  {
    if ids == [] then None
    else if ids[0] == id then Some(0)
    else
      match IndexOf(ids[1..], id)
      case None => None
      case Some(i) => Some(i + 1)
  }
}
