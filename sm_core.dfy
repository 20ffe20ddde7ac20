/** ScsiMon (cpp/monitor/sm_core.cpp): the monitor's session, from bus acquisition through
    the edge-triggered capture loop to the trailing record. Argument parsing, logging, the
    report writers, signal registration and scheduling set-up are not part of this model;
    the samples the bus delivers and the moments a signal arrives are inputs. */
module ScsiMonCore {

  import opened GpioBus
  import opened Capture
  import GpioBusFactory

  /** errno value EPERM on Linux: the exit status when the bus cannot be initialised. */
  const EPERM: int := 1

  class ScsiMon {
    const buffSize: nat
    var dataBuffer: array<DataCapture>
    var dataIdx: nat
    var running: bool
    var bus: Bus?

    ghost predicate Valid()
      reads this
    {
      dataBuffer.Length == buffSize && dataIdx <= buffSize && buffSize < UINT32_LIMIT
    }

    /** A monitor with a zeroed buffer of buff_size records (calloc at line 184) and an
        empty cursor. */
    constructor (buffSize: nat)
      requires buffSize < UINT32_LIMIT
      ensures Valid() && fresh(dataBuffer)
      ensures this.buffSize == buffSize && dataIdx == 0 && !running && bus == null
      ensures forall i :: 0 <= i < buffSize ==> dataBuffer[i] == DataCapture(0, 0)
    {
      this.buffSize := buffSize;
      dataBuffer := new DataCapture[buffSize](_ => DataCapture(0, 0));
      dataIdx := 0;
      running := false;
      bus := null;
    }

    /** The signal handler: it only clears `running`. */
    method KillHandler()
      modifies this`running
      ensures !running
    {
      running := false;
    }

    /** Init(): acquire the bus through the factory in target mode. Returns false when the
        factory hands back no bus; an exception the factory lets through propagates. */
    method Init(p: GpioBusFactory.Platform) returns (r: Outcome<bool>)
      modifies this`bus, this`running
      ensures r.Throws? <==> GpioBusFactory.FactoryVerdict(Target, p).Propagates?
      ensures r.Throws? ==> r.exc == GpioBusFactory.FactoryVerdict(Target, p).exc && bus == old(bus)
      ensures r == Returns(false) <==> GpioBusFactory.FactoryVerdict(Target, p) == GpioBusFactory.NoHandle
      ensures r == Returns(false) ==> bus == null
      ensures r == Returns(true) ==>
                && bus != null && fresh(bus) && !running
                && GpioBusFactory.FactoryVerdict(Target, p) == GpioBusFactory.Handle(bus.kind)
                && bus.state == Ready(Target) && bus.calls == [InitCall(Target), ResetCall]
    {
      var created, events := GpioBusFactory.Create(Target, p);
      if created.Throws? {
        return Throws(created.exc);
      }
      bus := if created.value.Some? then created.value.value else null;
      if bus == null {
        return Returns(false);
      }
      running := false;
      return Returns(true);
    }

    /** Reset(): reset the bus again before capturing. */
    method Reset()
      requires bus != null && (bus.state.Initialised? || bus.state.Ready?)
      modifies bus
      ensures bus.state == Ready(old(bus.state).mode)
      ensures bus.calls == old(bus.calls) + [ResetCall]
    {
      bus.Reset();
    }

    /** Lines 258-260 and 268-270: store one sample with its loop count in the next free
        slot of data_buffer. */
    method Record(data: bv32, timestamp: nat)
      requires Valid() && dataIdx < buffSize
      modifies this`dataIdx, dataBuffer
      ensures Valid() && dataIdx == old(dataIdx) + 1
      ensures dataBuffer[..dataIdx] == old(dataBuffer[..dataIdx]) + [DataCapture(data, timestamp)]
      ensures forall i :: dataIdx <= i < buffSize ==> dataBuffer[i] == old(dataBuffer[i])
    {
      dataBuffer[dataIdx] := DataCapture(data, timestamp);
      dataIdx := dataIdx + 1;
    }

    /** Lines 231-262, one pass of the capture loop: read and mask a sample, count it, clear
        `running` on the counter limit or a near-full buffer, and store the sample if it
        differs from the previous stored one; `killed` says KillHandler ran during the pass.
        The pass is Iterate applied to the state it starts from. */
    method SampleOnce(raw: bv32, killed: bool, mask: bv32, loopCount: nat, prevSample: bv32, ghost st: LoopState)
      returns (count: nat, prev: bv32, sample: bv32)
      requires Valid() && running && dataIdx + 2 <= buffSize
      requires st.loopCount == loopCount && st.prevSample == prevSample && st.records == dataBuffer[..dataIdx]
      modifies this`running, this`dataIdx, dataBuffer
      ensures Valid() && count == loopCount + 1
      ensures LoopState(count, prev, sample, dataBuffer[..dataIdx], running) == Iterate(st, raw, killed, mask, buffSize)
    {
      ghost var r := Iterate(st, raw, killed, mask, buffSize);
      sample := Pins(raw, mask);
      count := loopCount + 1;
      if count > LLONG_MAX - 1 {
        running := false;
      }
      if dataIdx >= NearFullMark(buffSize) {
        running := false;
      }
      prev := prevSample;
      if sample != prevSample {
        Record(sample, count);
        prev := sample;
      }
      if killed {
        KillHandler();
      }
      assert dataBuffer[..dataIdx] == r.records;
    }

    /** Lines 221-272: set `running`, sample until a loop-head test finds it cleared,
        recording each masked sample that differs from the previous recorded one, then
        append the trailing record if there is room. One element of `samples` is what
        bus->Acquire() returns in one iteration; kills[j] says KillHandler ran before the
        loop-head test that follows j iterations. */
    method Capture(samples: seq<bv32>, kills: seq<bool>, mask: bv32) returns (loopCount: nat)
      requires Valid() && dataIdx == 0 && 2 <= buffSize
      requires bus != null && bus.state.Ready?
      requires Schedule(samples, kills)
      modifies this`running, this`dataIdx, dataBuffer
      ensures Valid() && !running
      ensures loopCount == Iterations(samples, kills, mask, buffSize)
      ensures dataBuffer[..dataIdx] == Trace(samples, kills, mask, buffSize)
    {
      var prevSample: bv32 := SENTINEL;
      var thisSample: bv32 := 0;
      loopCount := 0;
      running := true;
      if kills[0] {
        KillHandler();
      }
      while running
        invariant Valid()
        invariant loopCount <= Iterations(samples, kills, mask, buffSize)
        invariant LoopState(loopCount, prevSample, thisSample, dataBuffer[..dataIdx], running)
                  == Steps(samples, kills, mask, buffSize, loopCount)
        decreases |samples| - loopCount
      {
        StepsRunning(samples, kills, mask, buffSize, loopCount);
        StepsNext(samples, kills, mask, buffSize, loopCount);
        loopCount, prevSample, thisSample :=
          SampleOnce(samples[loopCount], kills[loopCount + 1], mask, loopCount, prevSample,
                     Steps(samples, kills, mask, buffSize, loopCount));
      }
      StepsRunning(samples, kills, mask, buffSize, loopCount);
      LoopMatchesTrace(samples, kills, mask, buffSize);
      if dataIdx < buffSize {
        Record(thisSample, loopCount);
      }
    }

    /** Cleanup(): the report writers are not part of this model; the bus is released. */
    method Cleanup()
      requires bus != null
      modifies bus
      ensures bus.state == Released
      ensures bus.calls == old(bus.calls) + [CleanupCall]
    {
      bus.Cleanup();
    }

    /** run() for a live capture: Init, and on failure exit with EPERM without resetting the
        bus or entering the loop; otherwise Reset, capture, Cleanup and exit with 0. */
    method Run(p: GpioBusFactory.Platform, samples: seq<bv32>, kills: seq<bool>, mask: bv32)
      returns (ret: Outcome<int>)
      requires Valid() && dataIdx == 0 && 2 <= buffSize && bus == null
      requires Schedule(samples, kills)
      modifies this, dataBuffer
      ensures Valid() && dataBuffer == old(dataBuffer)
      ensures ret.Throws? <==> GpioBusFactory.FactoryVerdict(Target, p).Propagates?
      ensures ret == Returns(EPERM) <==> GpioBusFactory.FactoryVerdict(Target, p) == GpioBusFactory.NoHandle
      ensures ret == Returns(0) <==> GpioBusFactory.FactoryVerdict(Target, p).Handle?
      ensures ret == Returns(EPERM) ==> bus == null && dataIdx == 0 && dataBuffer[..] == old(dataBuffer[..])
      ensures ret == Returns(0) ==>
                && bus != null
                && bus.calls == [InitCall(Target), ResetCall, ResetCall, CleanupCall]
                && bus.state == Released
                && dataBuffer[..dataIdx] == Trace(samples, kills, mask, buffSize)
    {
      var ok := Init(p);
      if ok.Throws? {
        return Throws(ok.exc);
      }
      if !ok.value {
        return Returns(EPERM);
      }
      Reset();
      var loopCount := Capture(samples, kills, mask);
      Cleanup();
      return Returns(0);
    }
  }
}
