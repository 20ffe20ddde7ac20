# SCSI monitor capture loop and GPIO bus factory

A Dafny model of two pieces of RaSCSI Reloaded:

- `ScsiMon`, the SCSI monitor's session (`cpp/monitor/sm_core.cpp`). It acquires the GPIO
  bus through the factory, resets it, and samples the bus in a tight loop. Each iteration
  masks the raw sample with `ALL_SCSI_PINS`, counts it in `loop_count`, and stops on the
  counter limit or when `data_buffer` is near full. It stores `(sample, loop_count)` only when
  the masked sample differs from the last stored one. A signal handler (`KillHandler`) clears
  `running`. After the loop one trailing record is appended if there is room.
- `GPIOBUS_Factory::Create` (`cpp/hal/gpiobus_factory.cpp`). It classifies the board,
  builds the Banana Pi, Raspberry Pi or virtual driver, and initialises it in the requested
  mode. It resets the driver on success. A failed `Init` or an `std::invalid_argument`
  yields no handle; any other exception propagates.

Files:

- `wrappers.dfy`: `Option`.
- `sbc_version.dfy`: the board enumeration the factory consults.
- `gpiobus.dfy`: the bus capability as a class. It records the driver kind, what its `Init`
  answers, its life-cycle state and the calls made on it.
- `gpiobus_factory.dfy`: the factory. `Create` is a method that updates `return_ptr` as the
  source does. `FactoryEvents` (the observable steps) and `FactoryVerdict` (what the caller
  gets) are its specification functions.
- `capture.dfy`: what the capture loop records, as functions of its inputs, and the
  properties of that definition.
  - `Edges` is an independent reference definition of edge-only recording.
  - `Trace` is the buffer contents when the run is over.
  - `Iterate`/`Steps` are one pass and c passes of the loop body.
  - `LoopMatchesTrace` ties the two together.
- `sm_core.dfy`: `ScsiMon` as a class with `data_buffer` as an `array`, plus `data_idx`,
  `running` and `bus`. `Capture` is the `while (running)` loop and `SampleOnce` its body.
  `Capture` is proved to leave exactly `Trace(...)` in `data_buffer[0 .. data_idx]`.

Inputs that come from hardware, the clock or the operating system are parameters:

- the successive values `bus->Acquire()` returns: `samples`;
- the points at which a signal makes `KillHandler` run: `kills`;
- the pin mask: `mask`;
- how board detection, driver construction and driver `Init` behave: `Platform`.

## Model

| member | source | states |
|---|---|---|
| `ScsiMonCore.ScsiMon.Capture` | cpp/monitor/sm_core.cpp:221-272 | the loop ends after exactly `Iterations(...)` iterations with `running` false, and `data_buffer[0 .. data_idx]` is exactly `Trace(...)`: the edge records and then the trailing record |
| `ScsiMonCore.ScsiMon.SampleOnce` | cpp/monitor/sm_core.cpp:231-262 | one pass of the loop body: the new loop count, previous sample, current sample, buffer contents and `running` are exactly one `Iterate` step from the state the pass started in; the count goes up by one |
| `ScsiMonCore.ScsiMon.Record` | cpp/monitor/sm_core.cpp:258-260 | stores `(data, timestamp)` at `data_idx` and advances it by one; earlier records and later slots are untouched |
| `ScsiMonCore.ScsiMon.KillHandler` | cpp/monitor/sm_core.cpp:29-32 | the handler clears `running` and nothing else |
| `ScsiMonCore.ScsiMon.Init` | cpp/monitor/sm_core.cpp:115-124 | the bus comes from the factory in target mode; true exactly when the factory hands out a ready, reset bus; false exactly when it hands out none; factory exceptions propagate |
| `ScsiMonCore.ScsiMon.Reset` | cpp/monitor/sm_core.cpp:142-145 | one more `Reset` on the bus, which stays ready in the same mode |
| `ScsiMonCore.ScsiMon.Cleanup` | cpp/monitor/sm_core.cpp:126-140 | the bus is released by one `Cleanup` call |
| `ScsiMonCore.ScsiMon.Run` | cpp/monitor/sm_core.cpp:198-290 | exit status EPERM exactly when no bus was obtained; then the loop never ran and the buffer is unchanged. Status 0 exactly when the factory handed out a bus; then the bus saw Init, Reset, Reset, Cleanup in that order and the buffer holds the trace |
| `ScsiMonCore.ScsiMon.constructor` | cpp/monitor/sm_core.cpp:184 | a zero-filled buffer of `buff_size` records with an empty cursor |
| `Capture.Masked` | cpp/monitor/sm_core.cpp:231 | masking keeps one value per sample, and no masked value has a bit set outside the mask |
| `Capture.PinsWithinMask` | cpp/monitor/sm_core.cpp:231 | a masked sample has no bit outside the mask |
| `Capture.NearFullMark` | cpp/monitor/sm_core.cpp:238 | the near-full threshold is `buff_size - 2` for `buff_size >= 2`; for smaller sizes the unsigned subtraction wraps to at least 2^32 - 2 |
| `Capture.FirstStop` | cpp/monitor/sm_core.cpp:229-241 | the loop runs until the first loop-head test that finds `running` cleared, by the signal, the counter limit or the near-full test |
| `Capture.EdgesSnoc` | cpp/monitor/sm_core.cpp:243-262 | one more sample adds one record if it differs from the previous value and none otherwise |
| `Capture.EdgesBounds` | cpp/monitor/sm_core.cpp:243-262 | no more records than samples; timestamps lie within the sampled range and strictly increase |
| `Capture.EdgesFromChanges` | cpp/monitor/sm_core.cpp:243-262 | every record is the stream's value at its own timestamp, at a position where the value changed |
| `Capture.EdgesAlternate` | cpp/monitor/sm_core.cpp:243-262 | neighbouring records differ in value; the first differs from the initial `prev_sample` |
| `Capture.EdgesComplete` | cpp/monitor/sm_core.cpp:243-262 | a position is recorded if and only if its value differs from the one before it |
| `Capture.RecordedStep` | cpp/monitor/sm_core.cpp:243-262 | iteration j + 1 appends `(sample, j + 1)` exactly when the masked sample differs from the last stored one |
| `Capture.RecordedBelowMark` | cpp/monitor/sm_core.cpp:238-241 | while the loop keeps running the buffer holds at most `buff_size - 2` records |
| `Capture.TraceWithinCapacity` | cpp/monitor/sm_core.cpp:238-241 | with `buff_size >= 2` the loop stops with at most `buff_size - 1` records, so the trailing record always fits and the final count is at most `buff_size` |
| `Capture.LoopCountFits` | cpp/monitor/sm_core.cpp:232-236 | the counter stops at `LLONG_MAX`, so the 64-bit `loop_count` and the timestamps never wrap |
| `Capture.RecordedMasked` | cpp/monitor/sm_core.cpp:258 | every record stored by the loop holds a masked sample |
| `Capture.LastSampleMasked` | cpp/monitor/sm_core.cpp:269 | the trailing value is a masked sample, or the initial 0 when no iteration ran |
| `Capture.TraceEntryMasked` | cpp/monitor/sm_core.cpp:258-270 | any single stored value has no bit outside the mask |
| `Capture.TraceMasked` | cpp/monitor/sm_core.cpp:231 | every stored value, the trailing one included, has no bit outside the mask |
| `Capture.TraceOrdered` | cpp/monitor/sm_core.cpp:259-270 | loop records have strictly increasing timestamps between 1 and the final `loop_count`; the trailing record carries the final `loop_count` |
| `Capture.TraceChangesOnly` | cpp/monitor/sm_core.cpp:243-262 | neighbouring loop records differ; iteration k left a record if and only if its masked sample differs from the previous one |
| `Capture.FirstSampleRecorded` | cpp/monitor/sm_core.cpp:169 | the first masked sample is recorded at count 1 exactly when it is not `0xFFFFFFFF`, the initial `prev_sample` |
| `Capture.LastIterationStillRecords` | cpp/monitor/sm_core.cpp:233-262 | clearing `running` does not cut the iteration short: a changed sample in the last iteration is still stored, and the trailing record repeats it |
| `Capture.MaskedSnoc` | cpp/monitor/sm_core.cpp:231 | masking one more sample extends the masked stream by that sample's masked value |
| `Capture.IterateAfter` | cpp/monitor/sm_core.cpp:229-262 | one pass of the loop body takes the reference state after c iterations to the one after c + 1 |
| `Capture.Iterate` | cpp/monitor/sm_core.cpp:231-262 | one pass counts one more sample and keeps its masked value as both current and previous sample; earlier records stay in place, and one record (that sample and the new count) is appended exactly when the masked value differs from the previous one; the loop goes on exactly when no signal came in during the pass, the new count is at most `LLONG_MAX - 1` and the buffer was short of the near-full mark when the pass started |
| `Capture.Drain` | cpp/monitor/sm_core.cpp:267-272 | after the loop the records stay in place; the final sample with the final count is appended exactly when fewer than `buff_size` records were written, so the buffer never grows past `buff_size` |
| `Capture.StepsIsAfter` | cpp/monitor/sm_core.cpp:229-262 | c passes of the loop body from the initial state give the reference state after c iterations |
| `Capture.StepsRunning` | cpp/monitor/sm_core.cpp:229 | the loop-head test passes exactly for the first `Iterations(...)` tests, and while it passes the buffer has room for two more records |
| `Capture.LoopMatchesTrace` | cpp/monitor/sm_core.cpp:221-272 | the loop body iterated from its initial state until the head test fails, followed by the trailing write, yields exactly the reference trace |
| `Capture.SmallBufferOverrun` | cpp/monitor/sm_core.cpp:238 | with `buff_size` 1 the near-full test never fires, and two changes leave two records in a one-slot buffer |
| `Capture.SteadyLineRecordedOnce` | cpp/monitor/sm_core.cpp:243-270 | the stream 0, 0, 5, 5, 5, 7 gives the records (0, 1), (5, 3), (7, 6) and the trailing (7, 6) |
| `Capture.TwoRecordBuffer` | cpp/monitor/sm_core.cpp:238-270 | with `buff_size` 2 a run ends after its first iteration, holding that sample as record and trailing record |
| `GpioBusFactory.SelectDriver` | cpp/hal/gpiobus_factory.cpp:31-40 | Banana Pi driver exactly for a Banana Pi; Raspberry Pi driver exactly for a Raspberry Pi that is not a Banana Pi; the virtual driver otherwise |
| `GpioBusFactory.FactoryEvents` | cpp/hal/gpiobus_factory.cpp:22-51 | detection runs first and once; at most one driver is built, the selected one, after the board was asked; Init gets the requested mode right after construction; Reset comes last, right after an Init that returned true |
| `GpioBusFactory.FactoryVerdict` | cpp/hal/gpiobus_factory.cpp:41-50 | a handle exactly when detection and construction completed and Init returned true; no handle exactly on `std::invalid_argument` or an Init that returned false; `invalid_argument` never propagates |
| `GpioBusFactory.HandleOnlyWhenInitialisedAndReset` | cpp/hal/gpiobus_factory.cpp:41-44 | a handle is returned if and only if the last two steps were Init and then Reset of the selected driver |
| `GpioBusFactory.NoFallbackAfterFailedInit` | cpp/hal/gpiobus_factory.cpp:41-43 | an Init that returns false gives no handle, no Reset, and no other driver is tried |
| `GpioBusFactory.Create` | cpp/hal/gpiobus_factory.cpp:22-51 | performs exactly the steps of `FactoryEvents`; throws exactly when the verdict propagates an exception; returns null exactly on "no handle"; otherwise a fresh bus of the selected kind, initialised in the requested mode and reset |
| `GpioBus.Bus.Init` | cpp/hal/gpiobus_factory.cpp:41 | the driver answers as its platform says; the bus is usable only after Init returned true |
| `GpioBus.Bus.Reset` | cpp/hal/gpiobus_factory.cpp:44 | a reset leaves an initialised bus ready in the same mode |
| `GpioBus.Bus.Cleanup` | cpp/monitor/sm_core.cpp:139 | cleanup releases the bus |

## Left out

- `ScsiMonCore.ScsiMon.Capture` requires `buff_size >= 2`. The model takes `buff_size` to be
  a 32-bit unsigned value: its declaration (`monitor/sm_core.h`) is not part of this model,
  and cpp/monitor/sm_core.cpp:94 prints it with `%u` (line 80 with `%d`). Under that
  assumption, for 0 or 1 the subtraction at cpp/monitor/sm_core.cpp:238 wraps, the near-full
  test never fires, and the loop writes past the end of the buffer. That is undefined behaviour, which the model does not give a
  meaning to. `Capture.SmallBufferOverrun` exhibits the overrun on the reference definition.
- `ScsiMonCore.ScsiMon.Capture` starts with `data_idx == 0`. The declaration of `data_idx`
  (`monitor/sm_core.h`) is not part of this model; a live capture starts with an empty buffer.
- `ScsiMonCore.ScsiMon.Capture` requires the run to end within the supplied samples: the last
  entry of `kills` is true. A run that never stops cannot be given as a finite input, and
  the counter limit alone would need 2^63 samples.
- `ScsiMonCore.ScsiMon.Init` does not model the three `signal(...)` registrations
  (cpp/monitor/sm_core.cpp:104-112). When one fails the source returns false before touching
  the bus. Signal delivery itself is the `kills` input.
- `KillHandler` can run at any instant. The model applies it between iterations, and in the
  window between `running = true` and the first loop-head test (`kills[0]`). A signal that
  arrives mid-iteration has the same effect as one that arrives at the end of that iteration,
  because the body never reads `running`. A signal before line 221 is overwritten by
  `running = true`, and the model does not include it.
- `ScsiMonCore.ScsiMon.Run` covers only the live-capture path. These parts are not modelled:
  - argument parsing (`getopt`, `-b`, `-i`);
  - the help text and banner;
  - logging;
  - the JSON import path (lines 186-194);
  - CPU pinning and scheduler priority;
  - `SetACK`;
  - the timing statistics (`gettimeofday`, floating point);
  - the DEBUG-only bit tracking;
  - the report writers called by `Cleanup`, which are file I/O.
- The concrete drivers (`GPIOBUS_BananaM2p`, `GPIOBUS_Raspberry`, `GPIOBUS_Virtual`) are
  register-level code and are not part of this model. Only what their `Init` answers is a
  parameter. `Reset` and `Cleanup` are modelled as not throwing.
- `SBC_Version`'s device-tree reading is not part of this model. `IsBananaPi` and
  `IsRaspberryPi` are uninterpreted predicates on the detected variant, and `Init` may throw.
- `BUS::mode_e` is modelled with its two values, target and initiator.
- The control-board event handler under `python/ctrlboard` is context, not core, and is not
  modelled.
