/** What the capture loop of ScsiMon::run (cpp/monitor/sm_core.cpp) records, as a function
    of its inputs: the stream of raw bus samples, the moments KillHandler runs, the pin mask
    and the buffer size. The loop itself is the method ScsiMon.Capture; this module is the
    definition it is proved against, and the lemmas about what that definition promises. */
module Capture {

  /** prev_sample's initial value. */
  const SENTINEL: bv32 := 0xFFFF_FFFF
  /** LLONG_MAX: the loop stops once loop_count exceeds LLONG_MAX - 1. */
  const LLONG_MAX: nat := 0x7FFF_FFFF_FFFF_FFFF
  const UINT32_LIMIT: nat := 0x1_0000_0000
  const UINT64_LIMIT: nat := 0x1_0000_0000_0000_0000

  /** One entry of data_buffer: a masked sample and the loop_count at which it was read. */
  datatype DataCapture = DataCapture(data: bv32, timestamp: nat)

  /** A sample after `& ALL_SCSI_PINS`. */
  function Pins(sample: bv32, mask: bv32): bv32
  {
    sample & mask
  }

  /** No bit of x lies outside the mask. */
  predicate WithinMask(x: bv32, mask: bv32)
  {
    x & !mask == 0
  }

  /** Masking leaves no bit outside the mask. */
  lemma PinsWithinMask(sample: bv32, mask: bv32)
    ensures WithinMask(Pins(sample, mask), mask)
  {
  }

  /** The samples after `& ALL_SCSI_PINS`. */
  function Masked(samples: seq<bv32>, mask: bv32): (m: seq<bv32>)
    ensures |m| == |samples|
    ensures forall i :: 0 <= i < |m| ==> WithinMask(m[i], mask)
  {
    seq(|samples|, i requires 0 <= i < |samples| => Pins(samples[i], mask))
  }

  /** The value position k of xs is compared with: its predecessor, or prev for the first. */
  function Before(xs: seq<bv32>, prev: bv32, k: nat): bv32
    requires k <= |xs|
  {
    if k == 0 then prev else xs[k - 1]
  }

  /** Edge-only recording, stated independently of the loop: walking xs from the front,
      position k yields the record (xs[k], base + k + 1) exactly when xs[k] differs from the
      value before it (prev for the first position). */
  function Edges(xs: seq<bv32>, prev: bv32, base: nat): seq<DataCapture>
    decreases |xs|
  {
    if xs == [] then []
    else (if xs[0] != prev then [DataCapture(xs[0], base + 1)] else []) + Edges(xs[1..], xs[0], base + 1)
  }

  function Stamps(es: seq<DataCapture>): (ts: seq<nat>)
    ensures |ts| == |es| && forall j :: 0 <= j < |es| ==> ts[j] == es[j].timestamp
  {
    seq(|es|, j requires 0 <= j < |es| => es[j].timestamp)
  }

  /** Appending a sample to the stream appends at most one record, and exactly one when the
      sample differs from the one before it: the step the capture loop takes. */
  lemma {:induction false} EdgesSnoc(xs: seq<bv32>, x: bv32, prev: bv32, base: nat)
    ensures Edges(xs + [x], prev, base) ==
            Edges(xs, prev, base) + (if x != Before(xs, prev, |xs|) then [DataCapture(x, base + |xs| + 1)] else [])
    decreases |xs|
  {
    if xs == [] {
      assert xs + [x] == [x];
    } else {
      var head := if xs[0] != prev then [DataCapture(xs[0], base + 1)] else [];
      var tail := if x != Before(xs, prev, |xs|) then [DataCapture(x, base + |xs| + 1)] else [];
      assert (xs + [x])[0] == xs[0];
      assert (xs + [x])[1..] == xs[1..] + [x];
      assert Before(xs[1..], xs[0], |xs[1..]|) == Before(xs, prev, |xs|);
      EdgesSnoc(xs[1..], x, xs[0], base + 1);
      assert Edges(xs + [x], prev, base) == head + (Edges(xs[1..], xs[0], base + 1) + tail);
      assert Edges(xs, prev, base) == head + Edges(xs[1..], xs[0], base + 1);
      assert head + (Edges(xs[1..], xs[0], base + 1) + tail)
          == (head + Edges(xs[1..], xs[0], base + 1)) + tail;
    }
  }

  lemma StampsAppend(a: seq<DataCapture>, b: seq<DataCapture>)
    ensures Stamps(a + b) == Stamps(a) + Stamps(b)
  {
  }

  /** There are no more records than samples, their timestamps lie in (base, base + |xs|]
      and they are strictly increasing. */
  lemma {:induction false} EdgesBounds(xs: seq<bv32>, prev: bv32, base: nat)
    ensures |Edges(xs, prev, base)| <= |xs|
    ensures forall j :: 0 <= j < |Edges(xs, prev, base)| ==>
              base < Edges(xs, prev, base)[j].timestamp <= base + |xs|
    ensures forall i, j :: 0 <= i < j < |Edges(xs, prev, base)| ==>
              Edges(xs, prev, base)[i].timestamp < Edges(xs, prev, base)[j].timestamp
    decreases |xs|
  {
    if xs != [] {
      EdgesBounds(xs[1..], xs[0], base + 1);
    }
  }

  /** Every record is the value of the stream at its own timestamp, at a position where the
      value changed. */
  lemma {:induction false} EdgesFromChanges(xs: seq<bv32>, prev: bv32, base: nat, j: nat)
    requires j < |Edges(xs, prev, base)|
    ensures var r := Edges(xs, prev, base)[j];
            && base < r.timestamp <= base + |xs|
            && r.data == xs[r.timestamp - base - 1]
            && r.data != Before(xs, prev, r.timestamp - base - 1)
    decreases |xs|
  {
    if xs[0] != prev {
      if j > 0 {
        EdgesFromChanges(xs[1..], xs[0], base + 1, j - 1);
      }
    } else {
      EdgesFromChanges(xs[1..], xs[0], base + 1, j);
    }
  }

  /** Neighbouring records carry different values, and the first differs from prev. */
  lemma {:induction false} EdgesAlternate(xs: seq<bv32>, prev: bv32, base: nat)
    ensures Edges(xs, prev, base) != [] ==> Edges(xs, prev, base)[0].data != prev
    ensures forall j :: 0 <= j < |Edges(xs, prev, base)| - 1 ==>
              Edges(xs, prev, base)[j].data != Edges(xs, prev, base)[j + 1].data
    decreases |xs|
  {
    if xs != [] {
      EdgesAlternate(xs[1..], xs[0], base + 1);
    }
  }

  /** A position of the stream is recorded if and only if its value differs from the one
      before it: every change is kept and no repeat is recorded again. */
  lemma {:induction false} EdgesComplete(xs: seq<bv32>, prev: bv32, base: nat, k: nat)
    requires k < |xs|
    ensures base + k + 1 in Stamps(Edges(xs, prev, base)) <==> xs[k] != Before(xs, prev, k)
    decreases |xs|
  {
    var rest := Edges(xs[1..], xs[0], base + 1);
    var head := if xs[0] != prev then [DataCapture(xs[0], base + 1)] else [];
    assert Edges(xs, prev, base) == head + rest;
    StampsAppend(head, rest);
    EdgesBounds(xs[1..], xs[0], base + 1);
    if k == 0 {
      assert base + 1 !in Stamps(rest);
    } else {
      EdgesComplete(xs[1..], xs[0], base + 1, k - 1);
      assert base + k + 1 !in Stamps(head);
      assert Before(xs, prev, k) == Before(xs[1..], xs[0], k - 1);
    }
  }

  /** The near-full test `data_idx >= (buff_size - 2)` with buff_size a 32-bit unsigned
      value: for buff_size below 2 the subtraction wraps to a value close to 2^32. */
  function NearFullMark(buffSize: nat): (mark: nat)
    requires buffSize < UINT32_LIMIT
    ensures mark < UINT32_LIMIT
    ensures buffSize >= 2 ==> mark + 2 == buffSize
    ensures buffSize < 2 ==> mark >= UINT32_LIMIT - 2
  {
    (buffSize - 2) % UINT32_LIMIT
  }

  /** The inputs of one run: kills[j] says KillHandler cleared `running` before the loop-head
      test that follows j iterations (kills[0]: before the first test). The run ends within
      the samples supplied: the last test finds `running` cleared. */
  predicate Schedule(samples: seq<bv32>, kills: seq<bool>)
  {
    |kills| == |samples| + 1 && kills[|samples|]
  }

  /** The records the loop holds after j iterations: one per change of the masked stream. */
  function Recorded(samples: seq<bv32>, mask: bv32, j: nat): seq<DataCapture>
    requires j <= |samples|
  {
    Edges(Masked(samples[..j], mask), SENTINEL, 0)
  }

  /** Whether the loop-head test that follows j iterations finds `running` false: KillHandler
      ran, or iteration j itself (loop_count == j) hit the counter limit or found the buffer
      near full before its own write. */
  predicate StoppedAfter(samples: seq<bv32>, kills: seq<bool>, mask: bv32, buffSize: nat, j: nat)
    requires |kills| == |samples| + 1 && j <= |samples| && buffSize < UINT32_LIMIT
  {
    || kills[j]
    || (j > 0 && (j > LLONG_MAX - 1 || |Recorded(samples, mask, j - 1)| >= NearFullMark(buffSize)))
  }

  /** The first loop-head test at or after j that finds `running` false. */
  function FirstStop(samples: seq<bv32>, kills: seq<bool>, mask: bv32, buffSize: nat, j: nat): (n: nat)
    requires Schedule(samples, kills) && buffSize < UINT32_LIMIT && j <= |samples|
    ensures j <= n <= |samples|
    ensures StoppedAfter(samples, kills, mask, buffSize, n)
    ensures forall k :: j <= k < n ==> !StoppedAfter(samples, kills, mask, buffSize, k)
    decreases |samples| - j
  {
    if StoppedAfter(samples, kills, mask, buffSize, j) then j
    else FirstStop(samples, kills, mask, buffSize, j + 1)
  }

  /** The number of iterations the loop runs: the final loop_count. */
  function Iterations(samples: seq<bv32>, kills: seq<bool>, mask: bv32, buffSize: nat): nat
    requires Schedule(samples, kills) && buffSize < UINT32_LIMIT
  {
    FirstStop(samples, kills, mask, buffSize, 0)
  }

  /** this_sample after n iterations: the last masked sample, or its initial 0. */
  function LastSample(samples: seq<bv32>, mask: bv32, n: nat): bv32
    requires n <= |samples|
  {
    if n == 0 then 0 else Pins(samples[n - 1], mask)
  }

  /** data_buffer[0 .. data_idx] when the run is over: the records of the loop, then the
      trailing record (last sample, final loop_count) if the buffer has room for it. */
  function Trace(samples: seq<bv32>, kills: seq<bool>, mask: bv32, buffSize: nat): seq<DataCapture>
    requires Schedule(samples, kills) && buffSize < UINT32_LIMIT
  {
    var n := Iterations(samples, kills, mask, buffSize);
    var recorded := Recorded(samples, mask, n);
    if |recorded| < buffSize then recorded + [DataCapture(LastSample(samples, mask, n), n)]
    else recorded
  }

  /** The variables the loop updates: loop_count, prev_sample, this_sample, the records
      in data_buffer[0 .. data_idx], and `running` as the next loop-head test sees it. */
  datatype LoopState = LoopState(
    loopCount: nat, prevSample: bv32, thisSample: bv32, records: seq<DataCapture>, running: bool)

  /** The state at the first loop-head test; kills[0] says a signal came in between
      `running = true` and that test. */
  function Start(kills: seq<bool>): LoopState
    requires |kills| > 0
  {
    LoopState(0, SENTINEL, 0, [], !kills[0])
  }

  /** One pass of the loop body, entered with `running` true: sample, count, test the two
      stop conditions, compare-and-record; `killed` says KillHandler ran during the pass. */
  function Iterate(st: LoopState, sample: bv32, killed: bool, mask: bv32, buffSize: nat): (r: LoopState)
    requires buffSize < UINT32_LIMIT
    // the pass counts one more sample and keeps it, masked, as this_sample and prev_sample
    ensures r.loopCount == st.loopCount + 1
    ensures r.thisSample == Pins(sample, mask) && r.prevSample == r.thisSample
    // earlier records are kept, and one is added exactly when the masked sample changed
    ensures |r.records| == |st.records| + (if Pins(sample, mask) != st.prevSample then 1 else 0)
    ensures r.records[..|st.records|] == st.records
    ensures |r.records| > |st.records| ==> r.records[|st.records|] == DataCapture(r.thisSample, r.loopCount)
    // the loop goes on exactly when no signal came in, the counter is below its limit and
    // the buffer was short of the near-full mark when the pass started
    ensures r.running <==> !killed && r.loopCount <= LLONG_MAX - 1 && |st.records| < NearFullMark(buffSize)
  {
    var thisSample := Pins(sample, mask);
    var count := st.loopCount + 1;
    var stop := count > LLONG_MAX - 1 || |st.records| >= NearFullMark(buffSize);
    if thisSample != st.prevSample then
      LoopState(count, thisSample, thisSample, st.records + [DataCapture(thisSample, count)], !stop && !killed)
    else
      LoopState(count, st.prevSample, thisSample, st.records, !stop && !killed)
  }

  /** The state after c passes of the loop body from the initial state. */
  function Steps(samples: seq<bv32>, kills: seq<bool>, mask: bv32, buffSize: nat, c: nat): LoopState
    requires |kills| == |samples| + 1 && c <= |samples| && buffSize < UINT32_LIMIT
  {
    if c == 0 then Start(kills)
    else Iterate(Steps(samples, kills, mask, buffSize, c - 1), samples[c - 1], kills[c], mask, buffSize)
  }

  /** One more pass of the loop body (the unfolding the loop proof of ScsiMon.Capture uses). */
  lemma StepsNext(samples: seq<bv32>, kills: seq<bool>, mask: bv32, buffSize: nat, c: nat)
    requires |kills| == |samples| + 1 && c < |samples| && buffSize < UINT32_LIMIT
    ensures Steps(samples, kills, mask, buffSize, c + 1)
            == Iterate(Steps(samples, kills, mask, buffSize, c), samples[c], kills[c + 1], mask, buffSize)
  {
  }

  /** The trailing write of lines 267-272. */
  function Drain(st: LoopState, buffSize: nat): (d: seq<DataCapture>)
    // the records of the loop stay in place and at most one more is appended
    ensures |st.records| <= |d| <= |st.records| + 1 && d[..|st.records|] == st.records
    // the trailing record is written exactly when there is room for it, so it never
    // takes the buffer past buff_size
    ensures |d| == |st.records| + 1 <==> |st.records| < buffSize
    ensures |d| == |st.records| + 1 ==> d[|st.records|] == DataCapture(st.thisSample, st.loopCount)
    ensures |st.records| <= buffSize ==> |d| <= buffSize
  {
    if |st.records| < buffSize then st.records + [DataCapture(st.thisSample, st.loopCount)] else st.records
  }

  /** The state after c iterations according to the reference definition. */
  function After(samples: seq<bv32>, kills: seq<bool>, mask: bv32, buffSize: nat, c: nat): LoopState
    requires |kills| == |samples| + 1 && c <= |samples| && buffSize < UINT32_LIMIT
  {
    LoopState(c, Before(Masked(samples[..c], mask), SENTINEL, c), LastSample(samples, mask, c),
              Recorded(samples, mask, c), !StoppedAfter(samples, kills, mask, buffSize, c))
  }

  lemma MaskedSnoc(samples: seq<bv32>, mask: bv32, j: nat)
    requires j < |samples|
    ensures Masked(samples[..j + 1], mask) == Masked(samples[..j], mask) + [Pins(samples[j], mask)]
  {
  }

  /** One more iteration adds at most one record. */
  lemma RecordedStep(samples: seq<bv32>, mask: bv32, j: nat)
    requires j < |samples|
    ensures Recorded(samples, mask, j + 1) ==
            Recorded(samples, mask, j) +
            (if Pins(samples[j], mask) != Before(Masked(samples[..j], mask), SENTINEL, j)
             then [DataCapture(Pins(samples[j], mask), j + 1)] else [])
  {
    MaskedSnoc(samples, mask, j);
    EdgesSnoc(Masked(samples[..j], mask), Pins(samples[j], mask), SENTINEL, 0);
  }

  /** While the loop keeps running the buffer holds at most buff_size - 2 records. */
  lemma {:induction false} RecordedBelowMark(samples: seq<bv32>, kills: seq<bool>, mask: bv32, buffSize: nat, j: nat)
    requires Schedule(samples, kills) && 2 <= buffSize < UINT32_LIMIT
    requires j < Iterations(samples, kills, mask, buffSize)
    ensures |Recorded(samples, mask, j)| <= buffSize - 2
  {
    if j > 0 {
      RecordedBelowMark(samples, kills, mask, buffSize, j - 1);
      RecordedStep(samples, mask, j - 1);
      assert !StoppedAfter(samples, kills, mask, buffSize, j);
    }
  }

  /** With buff_size >= 2 the run never writes past the buffer: the loop stops with at most
      buff_size - 1 records, so the trailing record always fits and the final count is at
      most buff_size. */
  lemma TraceWithinCapacity(samples: seq<bv32>, kills: seq<bool>, mask: bv32, buffSize: nat)
    requires Schedule(samples, kills) && 2 <= buffSize < UINT32_LIMIT
    ensures var n := Iterations(samples, kills, mask, buffSize);
            && |Recorded(samples, mask, n)| < buffSize
            && Trace(samples, kills, mask, buffSize) ==
                 Recorded(samples, mask, n) + [DataCapture(LastSample(samples, mask, n), n)]
            && |Trace(samples, kills, mask, buffSize)| <= buffSize
  {
    var n := Iterations(samples, kills, mask, buffSize);
    if n > 0 {
      RecordedBelowMark(samples, kills, mask, buffSize, n - 1);
      RecordedStep(samples, mask, n - 1);
    }
  }

  /** loop_count never passes LLONG_MAX, so the 64-bit counter and the timestamps never
      wrap. */
  lemma LoopCountFits(samples: seq<bv32>, kills: seq<bool>, mask: bv32, buffSize: nat)
    requires Schedule(samples, kills) && buffSize < UINT32_LIMIT
    ensures Iterations(samples, kills, mask, buffSize) <= LLONG_MAX < UINT64_LIMIT
  {
    var n := Iterations(samples, kills, mask, buffSize);
    if n > LLONG_MAX {
      assert StoppedAfter(samples, kills, mask, buffSize, LLONG_MAX);
      assert false;
    }
  }

  lemma ZeroWithinMask(mask: bv32)
    ensures WithinMask(0, mask)
  {
  }

  /** Every record of the loop holds a masked sample. */
  lemma RecordedMasked(samples: seq<bv32>, mask: bv32, n: nat, j: nat)
    requires n <= |samples| && j < |Recorded(samples, mask, n)|
    ensures WithinMask(Recorded(samples, mask, n)[j].data, mask)
  {
    EdgesFromChanges(Masked(samples[..n], mask), SENTINEL, 0, j);
    PinsWithinMask(samples[Recorded(samples, mask, n)[j].timestamp - 1], mask);
  }

  /** The trailing value, this_sample, is a masked sample or its initial 0. */
  lemma LastSampleMasked(samples: seq<bv32>, mask: bv32, n: nat)
    requires n <= |samples|
    ensures WithinMask(LastSample(samples, mask, n), mask)
  {
    if n > 0 {
      PinsWithinMask(samples[n - 1], mask);
    } else {
      ZeroWithinMask(mask);
    }
  }

  lemma TraceEntryMasked(samples: seq<bv32>, kills: seq<bool>, mask: bv32, buffSize: nat, j: nat)
    requires Schedule(samples, kills) && buffSize < UINT32_LIMIT
    requires j < |Trace(samples, kills, mask, buffSize)|
    ensures WithinMask(Trace(samples, kills, mask, buffSize)[j].data, mask)
  {
    var n := Iterations(samples, kills, mask, buffSize);
    var es := Recorded(samples, mask, n);
    var t := Trace(samples, kills, mask, buffSize);
    var last := DataCapture(LastSample(samples, mask, n), n);
    assert t == es + [last] || t == es;
    if j < |es| {
      assert t[j] == es[j];
      RecordedMasked(samples, mask, n, j);
    } else {
      assert t[j] == last;
      LastSampleMasked(samples, mask, n);
    }
  }

  /** Every stored value, the trailing one included, has no bit outside the mask. */
  lemma TraceMasked(samples: seq<bv32>, kills: seq<bool>, mask: bv32, buffSize: nat)
    requires Schedule(samples, kills) && buffSize < UINT32_LIMIT
    ensures var t := Trace(samples, kills, mask, buffSize);
            forall j :: 0 <= j < |t| ==> WithinMask(t[j].data, mask)
  {
    forall j | 0 <= j < |Trace(samples, kills, mask, buffSize)|
      ensures WithinMask(Trace(samples, kills, mask, buffSize)[j].data, mask)
    {
      TraceEntryMasked(samples, kills, mask, buffSize, j);
    }
  }

  /** The records of the loop carry strictly increasing timestamps from 1 up to the final
      loop_count; the trailing record carries the final loop_count, which is at least every
      earlier timestamp. */
  lemma TraceOrdered(samples: seq<bv32>, kills: seq<bool>, mask: bv32, buffSize: nat)
    requires Schedule(samples, kills) && 2 <= buffSize < UINT32_LIMIT
    ensures var t := Trace(samples, kills, mask, buffSize);
            var n := Iterations(samples, kills, mask, buffSize);
            && |t| >= 1
            && t[|t| - 1].timestamp == n
            && (forall i, j :: 0 <= i < j < |t| - 1 ==> t[i].timestamp < t[j].timestamp)
            && (forall j :: 0 <= j < |t| - 1 ==> 1 <= t[j].timestamp <= n)
  {
    var n := Iterations(samples, kills, mask, buffSize);
    TraceWithinCapacity(samples, kills, mask, buffSize);
    EdgesBounds(Masked(samples[..n], mask), SENTINEL, 0);
  }

  /** Only changes are recorded in the loop: neighbouring records differ in value, a record
      stands at iteration k exactly when the masked sample of iteration k differs from the
      one before it, and the first record differs from the sentinel. */
  lemma TraceChangesOnly(samples: seq<bv32>, kills: seq<bool>, mask: bv32, buffSize: nat, k: nat)
    requires Schedule(samples, kills) && 2 <= buffSize < UINT32_LIMIT
    requires 1 <= k <= Iterations(samples, kills, mask, buffSize)
    ensures var t := Trace(samples, kills, mask, buffSize);
            var xs := Masked(samples, mask);
            && (forall j :: 0 <= j < |t| - 2 ==> t[j].data != t[j + 1].data)
            && (k in Stamps(t[..|t| - 1]) <==> xs[k - 1] != Before(xs, SENTINEL, k - 1))
  {
    var n := Iterations(samples, kills, mask, buffSize);
    var xs := Masked(samples[..n], mask);
    TraceWithinCapacity(samples, kills, mask, buffSize);
    EdgesAlternate(xs, SENTINEL, 0);
    EdgesComplete(xs, SENTINEL, 0, k - 1);
    var t := Trace(samples, kills, mask, buffSize);
    assert t[..|t| - 1] == Recorded(samples, mask, n);
    assert xs[k - 1] == Masked(samples, mask)[k - 1];
    assert Before(xs, SENTINEL, k - 1) == Before(Masked(samples, mask), SENTINEL, k - 1);
  }

  /** The first masked sample is recorded, at loop_count 1, unless it equals 0xFFFFFFFF. */
  lemma FirstSampleRecorded(samples: seq<bv32>, kills: seq<bool>, mask: bv32, buffSize: nat)
    requires Schedule(samples, kills) && 2 <= buffSize < UINT32_LIMIT
    requires Iterations(samples, kills, mask, buffSize) >= 1
    ensures var t := Trace(samples, kills, mask, buffSize);
            (|t| >= 2 && t[0] == DataCapture(Pins(samples[0], mask), 1)) <==> Pins(samples[0], mask) != SENTINEL
  {
    var n := Iterations(samples, kills, mask, buffSize);
    var xs := Masked(samples[..n], mask);
    TraceWithinCapacity(samples, kills, mask, buffSize);
    EdgesBounds(xs[1..], xs[0], 1);
    assert xs[0] == Pins(samples[0], mask);
    assert Edges(xs, SENTINEL, 0) == (if xs[0] != SENTINEL then [DataCapture(xs[0], 1)] else []) + Edges(xs[1..], xs[0], 1);
  }

  /** Clearing `running` does not cut an iteration short: the iteration in which a stop was
      requested still compares and records, so when its sample changed, the trailing record
      repeats that last record. */
  lemma LastIterationStillRecords(samples: seq<bv32>, kills: seq<bool>, mask: bv32, buffSize: nat)
    requires Schedule(samples, kills) && 2 <= buffSize < UINT32_LIMIT
    requires var n := Iterations(samples, kills, mask, buffSize);
             n >= 1 && Pins(samples[n - 1], mask) != Before(Masked(samples[..n - 1], mask), SENTINEL, n - 1)
    ensures var t := Trace(samples, kills, mask, buffSize);
            var n := Iterations(samples, kills, mask, buffSize);
            && |t| >= 2
            && t[|t| - 2] == DataCapture(Pins(samples[n - 1], mask), n)
            && t[|t| - 1] == t[|t| - 2]
  {
    var n := Iterations(samples, kills, mask, buffSize);
    TraceWithinCapacity(samples, kills, mask, buffSize);
    RecordedStep(samples, mask, n - 1);
  }

  /** One pass of the loop body takes the reference state after c iterations to the one
      after c + 1. */
  lemma IterateAfter(samples: seq<bv32>, kills: seq<bool>, mask: bv32, buffSize: nat, c: nat)
    requires |kills| == |samples| + 1 && c < |samples| && buffSize < UINT32_LIMIT
    ensures Iterate(After(samples, kills, mask, buffSize, c), samples[c], kills[c + 1], mask, buffSize)
            == After(samples, kills, mask, buffSize, c + 1)
  {
    RecordedStep(samples, mask, c);
    MaskedSnoc(samples, mask, c);
    var xs := Masked(samples[..c + 1], mask);
    assert Before(xs, SENTINEL, c + 1) == Pins(samples[c], mask);
    assert Before(Masked(samples[..c], mask), SENTINEL, c) == Before(xs, SENTINEL, c);
  }

  /** Running the loop body c times yields the reference state after c iterations. */
  lemma {:induction false} StepsIsAfter(samples: seq<bv32>, kills: seq<bool>, mask: bv32, buffSize: nat, c: nat)
    requires |kills| == |samples| + 1 && c <= |samples| && buffSize < UINT32_LIMIT
    ensures Steps(samples, kills, mask, buffSize, c) == After(samples, kills, mask, buffSize, c)
  {
    if c == 0 {
      assert Start(kills) == After(samples, kills, mask, buffSize, 0);
    } else {
      StepsIsAfter(samples, kills, mask, buffSize, c - 1);
      IterateAfter(samples, kills, mask, buffSize, c - 1);
    }
  }

  /** The loop-head test passes exactly for the first Iterations(...) tests, and while it
      passes the buffer still has room for two more records. */
  lemma StepsRunning(samples: seq<bv32>, kills: seq<bool>, mask: bv32, buffSize: nat, c: nat)
    requires Schedule(samples, kills) && 2 <= buffSize < UINT32_LIMIT
    requires c <= Iterations(samples, kills, mask, buffSize)
    ensures Steps(samples, kills, mask, buffSize, c).loopCount == c
    ensures Steps(samples, kills, mask, buffSize, c).running <==> c < Iterations(samples, kills, mask, buffSize)
    ensures c < Iterations(samples, kills, mask, buffSize) ==>
              |Steps(samples, kills, mask, buffSize, c).records| + 2 <= buffSize
  {
    StepsIsAfter(samples, kills, mask, buffSize, c);
    if c < Iterations(samples, kills, mask, buffSize) {
      RecordedBelowMark(samples, kills, mask, buffSize, c);
    }
  }

  /** The loop, run from its initial state, produces exactly the reference trace: the
      state machine of ScsiMon::run and the edge-only definition agree on every input. */
  lemma LoopMatchesTrace(samples: seq<bv32>, kills: seq<bool>, mask: bv32, buffSize: nat)
    requires Schedule(samples, kills) && buffSize < UINT32_LIMIT
    ensures var st := Steps(samples, kills, mask, buffSize, Iterations(samples, kills, mask, buffSize));
            && st.loopCount == Iterations(samples, kills, mask, buffSize)
            && !st.running
            && Drain(st, buffSize) == Trace(samples, kills, mask, buffSize)
  {
    StepsIsAfter(samples, kills, mask, buffSize, Iterations(samples, kills, mask, buffSize));
  }

  /** With buff_size 1 the near-full test compares against 2^32 - 1 and never fires: two
      different samples before the signal leave two records in a one-slot buffer. */
  lemma SmallBufferOverrun()
    ensures var samples: seq<bv32> := [1, 2];
            var kills := [false, false, true];
            && Iterations(samples, kills, 0xFFFF_FFFF, 1) == 2
            && Recorded(samples, 0xFFFF_FFFF, 2) == [DataCapture(1, 1), DataCapture(2, 2)]
            && |Recorded(samples, 0xFFFF_FFFF, 2)| > 1
  {
    var samples: seq<bv32> := [1, 2];
    var kills := [false, false, true];
    var mask: bv32 := 0xFFFF_FFFF;
    assert NearFullMark(1) == UINT32_LIMIT - 1;
    assert Masked(samples[..1], mask) == [1];
    assert Masked(samples[..2], mask) == [1, 2];
    assert Recorded(samples, mask, 0) == [];
    assert !StoppedAfter(samples, kills, mask, 1, 0);
    assert !StoppedAfter(samples, kills, mask, 1, 1);
    assert Edges([2], 1, 1) == [DataCapture(2, 2)];
  }

  /** A steady line is recorded once: the masked stream 0, 0, 5, 5, 5, 7 read before the
      signal yields one record per change and then the trailing record. */
  lemma SteadyLineRecordedOnce()
    ensures var samples: seq<bv32> := [0, 0, 5, 5, 5, 7];
            var kills := [false, false, false, false, false, false, true];
            Trace(samples, kills, 0xFFFF_FFFF, 10) ==
              [DataCapture(0, 1), DataCapture(5, 3), DataCapture(7, 6), DataCapture(7, 6)]
  {
    var samples: seq<bv32> := [0, 0, 5, 5, 5, 7];
    var kills := [false, false, false, false, false, false, true];
    var mask: bv32 := 0xFFFF_FFFF;
    assert Masked(samples[..6], mask) == samples;
    assert Edges(samples, SENTINEL, 0) == [DataCapture(0, 1), DataCapture(5, 3), DataCapture(7, 6)];
    forall j | 0 <= j < 6
      ensures !StoppedAfter(samples, kills, mask, 10, j)
    {
      if j > 0 {
        EdgesBounds(Masked(samples[..j - 1], mask), SENTINEL, 0);
      }
    }
  }

  /** A two-record buffer is near full from the start: a run that is not stopped before
      its first iteration ends after exactly one, and holds that sample twice (the record
      and the trailing record), or once if it equals the sentinel. */
  lemma TwoRecordBuffer(samples: seq<bv32>, kills: seq<bool>, mask: bv32)
    requires Schedule(samples, kills) && |samples| >= 1 && !kills[0]
    ensures Iterations(samples, kills, mask, 2) == 1
    ensures var x := DataCapture(Pins(samples[0], mask), 1);
            Trace(samples, kills, mask, 2) == if x.data != SENTINEL then [x, x] else [x]
  {
    assert NearFullMark(2) == 0;
    assert Recorded(samples, mask, 0) == [];
    assert StoppedAfter(samples, kills, mask, 2, 1);
    assert Masked(samples[..1], mask) == [Pins(samples[0], mask)];
    var xs := [Pins(samples[0], mask)];
    assert xs[1..] == [];
    assert Edges(xs, SENTINEL, 0) == (if xs[0] != SENTINEL then [DataCapture(xs[0], 1)] else []) + Edges([], xs[0], 1);
    assert Iterations(samples, kills, mask, 2) == 1;
    var x := DataCapture(Pins(samples[0], mask), 1);
    assert Recorded(samples, mask, 1) == if x.data != SENTINEL then [x] else [];
    assert LastSample(samples, mask, 1) == x.data;
  }
}
