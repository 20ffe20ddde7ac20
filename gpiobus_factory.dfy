/** GPIOBUS_Factory::Create (cpp/hal/gpiobus_factory.cpp): classify the board, pick a
    driver, initialise it with the requested mode, reset it, and turn an
    std::invalid_argument or a failed Init into "no handle". */
module GpioBusFactory {

  import opened Wrappers
  import opened SbcVersion
  import opened GpioBus

  /** Everything Create depends on that lies outside the factory. The two board predicates
      are uninterpreted: they are whatever SBC_Version answers for the detected variant. */
  datatype Platform = Platform(
    detect: Option<Exception>,                 // SBC_Version::Init(): completes, or throws
    board: SbcVersionType,                     // the variant SBC_Version settles on
    isBananaPi: SbcVersionType -> bool,        // SBC_Version::IsBananaPi()
    isRaspberryPi: SbcVersionType -> bool,     // SBC_Version::IsRaspberryPi()
    construct: DriverKind -> Option<Exception>, // make_unique<driver>(): completes, or throws
    init: (DriverKind, Mode) -> Outcome<bool>)  // the driver's Init(mode)

  /** The steps of Create that can be observed from outside, in the order they happen. */
  datatype Event =
    | DetectBoard
    | AskBananaPi
    | AskRaspberryPi
    | Construct(kind: DriverKind)
    | CallInit(kind: DriverKind, mode: Mode)
    | CallReset(kind: DriverKind)

  /** What the caller of Create ends up with. */
  datatype Verdict = Handle(kind: DriverKind) | NoHandle | Propagates(exc: Exception)

  /** The ordered driver choice: Banana Pi first, then Raspberry Pi, otherwise virtual. */
  function SelectDriver(isBananaPi: bool, isRaspberryPi: bool): (k: DriverKind)
    ensures k == BananaM2p <==> isBananaPi
    ensures k == Raspberry <==> !isBananaPi && isRaspberryPi
    ensures k == Virtual <==> !isBananaPi && !isRaspberryPi
  {
    if isBananaPi then BananaM2p
    else if isRaspberryPi then Raspberry
    else Virtual
  }

  function Selected(p: Platform): DriverKind
  {
    SelectDriver(p.isBananaPi(p.board), p.isRaspberryPi(p.board))
  }

  /** The board predicates Create consults, in order: IsRaspberryPi only when IsBananaPi
      said no. */
  function Queries(p: Platform): seq<Event>
  {
    [AskBananaPi] + if p.isBananaPi(p.board) then [] else [AskRaspberryPi]
  }

  /** The steps Create takes; a step that throws ends the sequence. */
  function FactoryEvents(mode: Mode, p: Platform): (es: seq<Event>)
    // detection runs first, and only once
    ensures |es| >= 1 && es[0] == DetectBoard
    ensures forall i :: 0 < i < |es| ==> es[i] != DetectBoard
    // one driver is built at most: a failed Init does not fall back to another one
    ensures forall i, j :: 0 <= i < |es| && 0 <= j < |es| && es[i].Construct? && es[j].Construct? ==> i == j
    // the selected driver is the one built, and it is built after the board was asked
    ensures forall i :: 0 <= i < |es| && es[i].Construct? ==>
              es[i].kind == Selected(p) && 2 <= i && es[1] == AskBananaPi
    // the requested mode reaches Init unchanged, and Init follows the construction
    ensures forall i :: 0 <= i < |es| && es[i].CallInit? ==>
              es[i] == CallInit(Selected(p), mode) && 1 <= i && es[i - 1] == Construct(Selected(p))
    // Reset is the last step, immediately after an Init that returned true
    ensures forall i :: 0 <= i < |es| && es[i].CallReset? ==>
              i == |es| - 1 && 1 <= i && es[i - 1] == CallInit(es[i].kind, mode)
              && p.init(es[i].kind, mode) == Returns(true)
  {
    [DetectBoard] +
    if p.detect.Some? then []
    else
      var k := Selected(p);
      Queries(p) + [Construct(k)] +
      if p.construct(k).Some? then []
      else [CallInit(k, mode)] + if p.init(k, mode) == Returns(true) then [CallReset(k)] else []
  }

  /** The exception raised inside the try block, if any. */
  function Raised(mode: Mode, p: Platform): Option<Exception>
  {
    if p.detect.Some? then p.detect
    else if p.construct(Selected(p)).Some? then p.construct(Selected(p))
    else if p.init(Selected(p), mode).Throws? then Some(p.init(Selected(p), mode).exc)
    else None
  }

  /** What Create hands back: an std::invalid_argument becomes "no handle" and so does an
      Init that returns false; any other exception propagates. */
  function FactoryVerdict(mode: Mode, p: Platform): (v: Verdict)
    ensures v != Propagates(InvalidArgument)
    ensures v.Handle? <==>
              p.detect.None? && p.construct(Selected(p)).None? && p.init(Selected(p), mode) == Returns(true)
    ensures v.Handle? ==> v.kind == Selected(p)
    ensures v == NoHandle <==>
              Raised(mode, p) == Some(InvalidArgument) || (Raised(mode, p).None? && p.init(Selected(p), mode) == Returns(false))
  {
    match Raised(mode, p)
    case Some(e) => if e == InvalidArgument then NoHandle else Propagates(e)
    case None =>
      var ok := p.init(Selected(p), mode);
      assert ok.Returns?;
      if ok.value then Handle(Selected(p)) else NoHandle
  }

  /** A handle is returned exactly when the selected driver's Init(mode) returned true and
      the driver was then reset: no partially initialised bus is ever handed out. */
  lemma HandleOnlyWhenInitialisedAndReset(mode: Mode, p: Platform)
    ensures FactoryVerdict(mode, p).Handle? <==>
              var es := FactoryEvents(mode, p);
              |es| >= 2 && es[|es| - 2] == CallInit(Selected(p), mode) && es[|es| - 1] == CallReset(Selected(p))
  {
  }

  /** An Init that returns false yields no handle and no Reset, even when another driver's
      Init would have succeeded. */
  lemma NoFallbackAfterFailedInit(mode: Mode, p: Platform, other: DriverKind)
    requires p.detect.None? && p.construct(Selected(p)).None?
    requires p.init(Selected(p), mode) == Returns(false)
    ensures FactoryVerdict(mode, p) == NoHandle
    ensures Construct(other) in FactoryEvents(mode, p) <==> other == Selected(p)
    ensures forall e :: e in FactoryEvents(mode, p) ==> !e.CallReset?
  {
  }

  /** GPIOBUS_Factory::Create(mode). `return_ptr` is reassigned as in the source; the
      try/catch becomes the test of `raised` at the end. */
  method Create(mode: Mode, p: Platform) returns (r: Outcome<Option<Bus>>, events: seq<Event>)
    ensures events == FactoryEvents(mode, p)
    ensures r.Throws? <==> FactoryVerdict(mode, p).Propagates?
    ensures r.Throws? ==> r.exc == FactoryVerdict(mode, p).exc
    ensures r == Returns(None) <==> FactoryVerdict(mode, p) == NoHandle
    ensures r.Returns? && r.value.Some? ==>
              var bus := r.value.value;
              && fresh(bus)
              && FactoryVerdict(mode, p) == Handle(bus.kind)
              && bus.state == Ready(mode)
              && bus.calls == [InitCall(mode), ResetCall]
  {
    var returnPtr: Option<Bus> := None;
    var raised: Option<Exception>;
    events := [DetectBoard];
    raised := p.detect;
    if raised.None? {
      var kind: DriverKind;
      events := events + [AskBananaPi];
      if p.isBananaPi(p.board) {
        kind := BananaM2p;
      } else {
        events := events + [AskRaspberryPi];
        if p.isRaspberryPi(p.board) {
          kind := Raspberry;
        } else {
          kind := Virtual;
        }
      }
      events := events + [Construct(kind)];
      raised := p.construct(kind);
      if raised.None? {
        var bus := new Bus(kind, m => p.init(kind, m));
        returnPtr := Some(bus);
        events := events + [CallInit(kind, mode)];
        var ok := bus.Init(mode);
        if ok.Throws? {
          raised := Some(ok.exc);
        } else if !ok.value {
          return Returns(None), events;
        } else {
          events := events + [CallReset(kind)];
          bus.Reset();
        }
      }
    }
    if raised == Some(InvalidArgument) {
      returnPtr := None;
      r := Returns(returnPtr);
    } else if raised.Some? {
      r := Throws(raised.value);
    } else {
      r := Returns(returnPtr);
    }
  }
}
