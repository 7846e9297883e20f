/** The Java exceptions the event loader can raise, as values. */
module Failures {

  datatype Option<+T> = None | Some(value: T)

  /** Why a check failed; one constructor per message the loader raises. */
  datatype Reason =
    | UndefinedEventName                   // "Undefined event name"
    | InfiniteLoop(involved: set<string>)  // "There's as an infinite loop in your events! ..." + banned
    | StepWithoutType                      // "Step has to have a type"
    | MissingEventReference                // "Event step has to have a defined event"
    | UnknownSender(name: string)          // CommandSenderType.valueOf of an unknown constant
    | MissingCommand                       // "Command can not be null in event step ..."
    | EmptyCommand                         // "Command can not be empty"
    | EmptyCondition                       // "Condition can not be empty"
    | EmptyDuration                        // "Duration can not be empty"
    | NoDurationOrCondition                // "Expected duration or condition to be specified"
    | MissingEffect                        // checkArgument without a message
    | EmptyEffect                          // "Effect can not be empty"
    | MissingLocation                      // "Expected a location"
    | EmptyLocation                        // "Expected a non empty location"
    | UnknownStepType                      // "Unknown step type"

  /** The exception class that escapes, with its reason. */
  datatype Fault =
    | IllegalArgument(reason: Reason)   // IllegalArgumentException (Preconditions.checkArgument)
    | Serialization(reason: Reason)     // SerializationException
    | NullPointer                       // NullPointerException

  datatype Result<+T> = Ok(value: T) | Fail(fault: Fault) {
    predicate IsFailure() { Fail? }

    function PropagateFailure<U>(): Result<U>
      requires Fail?
    {
      Fail(fault)
    }

    function Extract(): T
      requires Ok?
    {
      value
    }
  }

  /** The catch block of readEvent: an IllegalArgumentException is rethrown
      wrapped in a SerializationException; every other outcome passes. */
  function Rethrow<T>(r: Result<T>): (q: Result<T>)
    ensures q.Ok? <==> r.Ok?
    ensures r.Ok? ==> q == r
    ensures q.Fail? ==> !q.fault.IllegalArgument?
    ensures r.Fail? && r.fault.IllegalArgument? ==> q == Fail(Serialization(r.fault.reason))
    ensures r.Fail? && !r.fault.IllegalArgument? ==> q == r
  {
    if r.Fail? && r.fault.IllegalArgument? then Fail(Serialization(r.fault.reason)) else r
  }
}
