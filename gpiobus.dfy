/** The BUS capability as the factory and the monitor use it. The concrete drivers
    (Banana Pi, Raspberry Pi, virtual) are register-level code that is not part of this
    model: a bus object only records which driver it is, what its Init would answer for
    each mode, and the order in which its operations were called. */
module GpioBus {

  import opened Wrappers

  /** BUS::mode_e: which side of the bus the driver plays. */
  datatype Mode = Target | Initiator

  /** The closed set of driver implementations the factory can instantiate. */
  datatype DriverKind = BananaM2p | Raspberry | Virtual

  /** A C++ exception. Only std::invalid_argument is told apart, because it is the one the
      factory catches; every other exception propagates. */
  datatype Exception = InvalidArgument | OtherException

  /** A call that either returns a value or throws. */
  datatype Outcome<+T> = Returns(value: T) | Throws(exc: Exception)

  /** Life cycle of a bus object. Unusable: Init returned false or threw. */
  datatype BusState = Fresh | Initialised(mode: Mode) | Ready(mode: Mode) | Unusable | Released

  /** The operations of the capability that change a bus object, as they are called. */
  datatype BusCall = InitCall(mode: Mode) | ResetCall | CleanupCall

  class Bus {
    const kind: DriverKind
    /** What the driver's Init answers for each mode (mapping registers can fail or throw). */
    const initOutcome: Mode -> Outcome<bool>
    var state: BusState
    var calls: seq<BusCall>

    constructor (kind: DriverKind, initOutcome: Mode -> Outcome<bool>)
      ensures this.kind == kind && this.initOutcome == initOutcome
      ensures state == Fresh && calls == []
    {
      this.kind := kind;
      this.initOutcome := initOutcome;
      state := Fresh;
      calls := [];
    }

    /** Init(mode): callable once per instance; the bus is usable only if it returned true. */
    method Init(mode: Mode) returns (r: Outcome<bool>)
      requires state == Fresh
      modifies this
      ensures r == initOutcome(mode)
      ensures calls == old(calls) + [InitCall(mode)]
      ensures state == if r == Returns(true) then Initialised(mode) else Unusable
    {
      r := initOutcome(mode);
      calls := calls + [InitCall(mode)];
      state := if r == Returns(true) then Initialised(mode) else Unusable;
    }

    /** Reset(): returns every control line to idle; allowed once Init has succeeded. */
    method Reset()
      requires state.Initialised? || state.Ready?
      modifies this
      ensures state == Ready(old(state).mode)
      ensures calls == old(calls) + [ResetCall]
    {
      state := Ready(state.mode);
      calls := calls + [ResetCall];
    }

    /** Cleanup(): releases what Init acquired; safe in any state. */
    method Cleanup()
      modifies this
      ensures state == Released
      ensures calls == old(calls) + [CleanupCall]
    {
      state := Released;
      calls := calls + [CleanupCall];
    }
  }
}
