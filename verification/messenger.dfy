/**
 * `Messenger::callback` (src/main/cpp/exqudens/vulkan/Messenger.hpp): the
 * debug-utils callback. `vk::to_string` of the severity and type is not
 * modelled; its results are parameters. Severities compare as numbers, as
 * `vk::Flags` comparisons do.
 */
module Messenger {
  import opened Wrappers

  /** The `Messenger` the user-data pointer designates. `hasStream` is
      whether its `std::ostream*` is non-null. */
  datatype Messenger = Messenger(
    exceptionSeverity: Option<nat>,
    outSeverity: Option<nat>,
    toStringFunction: Option<(nat, nat, string) -> string>,
    hasStream: bool
  )

  datatype Sink = Stream | Stdout

  /** One `<< formatted << std::endl`. */
  datatype Write = Write(sink: Sink, text: string)

  /** What a call does: the writes, then either a return of `VK_FALSE` or an
      exception with its message. */
  datatype Outcome = Outcome(writes: seq<Write>, result: Result<bool, string>)

  /** The formatted message: `"<severity> <type>: <message>"`, unless the
      messenger has a `toStringFunction`. */
  function Formatted(messenger: Option<Messenger>, severity: nat, messageType: nat, message: string,
                     severityText: string, typeText: string): (r: string)
    ensures (messenger.None? || messenger.value.toStringFunction.None?) ==>
      r == severityText + " " + typeText + ": " + message
    ensures messenger.Some? && messenger.value.toStringFunction.Some? ==>
      r == messenger.value.toStringFunction.value(severity, messageType, message)
  {
    var default := severityText + " " + typeText + ": " + message;
    match messenger
    case None => default
    case Some(m) => if m.toStringFunction.Some? then m.toStringFunction.value(severity, messageType, message) else default
  }

  /** A threshold that is set and reached. */
  predicate Reached(threshold: Option<nat>, severity: nat) {
    threshold.Some? && severity >= threshold.value
  }

  function SinkOf(messenger: Option<Messenger>): Sink {
    if messenger.Some? && messenger.value.hasStream then Stream else Stdout
  }

  /**
   * The callback. The exception threshold is checked before the output one;
   * the thrown message is caught by the callback's own handler, which writes
   * it (to the stream, or to standard output without one) and rethrows it
   * nested.
   */
  function Callback(severity: nat, messageType: nat, message: string, severityText: string, typeText: string,
                    data: Option<Messenger>): (r: Outcome)
    ensures data.None? ==> r == Outcome([], Ok(false))
    ensures r.result.Err? <==> data.Some? && Reached(data.value.exceptionSeverity, severity)
    ensures r.result.Ok? ==> r.result.value == false
    ensures |r.writes| <= 1
    ensures |r.writes| == 1 <==> data.Some? && (Reached(data.value.exceptionSeverity, severity) || Reached(data.value.outSeverity, severity))
    ensures forall w :: w in r.writes ==> w == Write(SinkOf(data), Formatted(data, severity, messageType, message, severityText, typeText))
  {
    var formatted := Formatted(data, severity, messageType, message, severityText, typeText);
    match data
    case None => Outcome([], Ok(false))
    case Some(m) =>
      if Reached(m.exceptionSeverity, severity) then
        Outcome([Write(SinkOf(data), formatted)], Err(formatted))
      else if Reached(m.outSeverity, severity) then
        Outcome([Write(SinkOf(data), formatted)], Ok(false))
      else Outcome([], Ok(false))
  }

  /** A more severe message is treated at least as strictly: whatever a
      severity writes or throws, every higher one writes or throws too. */
  lemma CallbackMonotone(severity: nat, higher: nat, messageType: nat, message: string,
                         severityText: string, typeText: string, data: Option<Messenger>)
    requires severity <= higher
    ensures Callback(severity, messageType, message, severityText, typeText, data).result.Err? ==>
      Callback(higher, messageType, message, severityText, typeText, data).result.Err?
    ensures |Callback(severity, messageType, message, severityText, typeText, data).writes| <=
      |Callback(higher, messageType, message, severityText, typeText, data).writes|
  {
  }

  /** With both thresholds unset, the messenger is silent. */
  lemma UnsetThresholdsSilent(severity: nat, messageType: nat, message: string, severityText: string, typeText: string,
                              m: Messenger)
    requires m.exceptionSeverity.None? && m.outSeverity.None?
    ensures Callback(severity, messageType, message, severityText, typeText, Some(m)) == Outcome([], Ok(false))
  {
  }
}
