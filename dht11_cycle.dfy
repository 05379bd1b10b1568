/**
 * One DHT11 read cycle of the firmware's main loop: the bounded waits on the
 * data line and the 40-bit measurement loop that fills the two 40-entry
 * buffers and decodes them.
 *
 * The pin and the clock are given as a trace of polls. Each poll is one
 * `Sample`: the level the pin read and the microseconds elapsed since the
 * wait that takes the poll began. A wait takes polls from the trace until one
 * of them ends it; the next wait starts at the poll after that.
 */
module Dht11Cycle {
  import opened Wrappers
  import opened Dht11

  datatype Level = Low | High

  /** One poll of the line during a wait. */
  datatype Sample = Sample(elapsed: nat, level: Level)

  /** Every wait of the cycle gives up after this many microseconds. */
  const WaitTimeoutMicros: nat := 1000

  /** Number of waits in one cycle: two acknowledgement waits and two per data bit. */
  const CycleWaits: nat := 2 + 2 * FrameBits

  /** A poll ends a wait when it reads the goal level or the time has run past the timeout. */
  predicate EndsWait(s: Sample, timeout: nat, goal: Level)
  {
    s.level == goal || s.elapsed > timeout
  }

  /** The index of the poll that ends a wait begun at `from`, if the trace holds one. */
  function FirstEnd(trace: seq<Sample>, from: nat, timeout: nat, goal: Level): (k: Option<nat>)
    ensures k.Some? ==> from <= k.value < |trace| && EndsWait(trace[k.value], timeout, goal)
    decreases |trace| - from
  {
    if from >= |trace| then None
    else if EndsWait(trace[from], timeout, goal) then Some(from)
    else FirstEnd(trace, from + 1, timeout, goal)
  }

  /** The ending poll is the first poll at or after `from` that ends the wait. */
  lemma {:induction false} FirstEndIsFirst(trace: seq<Sample>, from: nat, timeout: nat, goal: Level, k: nat)
    ensures FirstEnd(trace, from, timeout, goal) == Some(k) <==>
      && from <= k < |trace|
      && EndsWait(trace[k], timeout, goal)
      && forall j :: from <= j < k ==> !EndsWait(trace[j], timeout, goal)
    decreases |trace| - from
  {
    if from < |trace| && !EndsWait(trace[from], timeout, goal) {
      FirstEndIsFirst(trace, from + 1, timeout, goal, k);
    }
  }

  /** A wait has no ending poll exactly when no poll from `from` on ends it. */
  lemma {:induction false} FirstEndNone(trace: seq<Sample>, from: nat, timeout: nat, goal: Level)
    ensures FirstEnd(trace, from, timeout, goal).None? <==>
      forall j :: from <= j < |trace| ==> !EndsWait(trace[j], timeout, goal)
    decreases |trace| - from
  {
    if from < |trace| && !EndsWait(trace[from], timeout, goal) {
      FirstEndNone(trace, from + 1, timeout, goal);
    }
  }

  /**
   * `wait_with_timeout`: poll until the pin reads `goal` (success) or the
   * elapsed time exceeds `timeout` (failure). Returns the flag, the elapsed
   * time of the last poll, and the index of the poll after it. The trace must
   * hold the poll that ends the wait, as a running clock always eventually
   * passes the timeout.
   */
  method WaitWithTimeout(trace: seq<Sample>, from: nat, timeout: nat, goal: Level)
    returns (reached: bool, elapsed: nat, next: nat)
    requires FirstEnd(trace, from, timeout, goal).Some?
    ensures from < next <= |trace| && FirstEnd(trace, from, timeout, goal) == Some(next - 1)
    ensures reached <==> trace[next - 1].level == goal
    ensures !reached ==> elapsed > timeout
    ensures elapsed == trace[next - 1].elapsed
    ensures trace[from].level == goal ==> reached && next == from + 1
    ensures forall j :: from <= j < next - 1 ==> trace[j].level != goal && trace[j].elapsed <= timeout
  {
    var i := from;
    while trace[i].level != goal
      invariant from <= i < |trace|
      invariant FirstEnd(trace, i, timeout, goal) == FirstEnd(trace, from, timeout, goal)
      invariant forall j :: from <= j < i ==> trace[j].level != goal && trace[j].elapsed <= timeout
      decreases |trace| - i
    {
      if trace[i].elapsed > timeout {
        return false, trace[i].elapsed, i + 1;
      }
      i := i + 1;
    }
    return true, trace[i].elapsed, i + 1;
  }

  // ---------------------------------------------------------------------
  // The waits of one cycle
  // ---------------------------------------------------------------------

  /** The ending poll of a wait of the cycle (all use the same timeout). */
  function WaitEnd(trace: seq<Sample>, from: nat, goal: Level): Option<nat>
  {
    FirstEnd(trace, from, WaitTimeoutMicros, goal)
  }

  /**
   * The ending polls of `n` bit measurements run one after another from
   * `from` (each a wait for High, then a wait for Low), given as the index of
   * each bit's Low-ending poll, if the trace holds them all.
   */
  function BitEnds(trace: seq<Sample>, from: nat, n: nat): (r: Option<seq<nat>>)
    ensures r.Some? ==> |r.value| == n
    ensures r.Some? ==> forall j :: 0 <= j < n ==> from < r.value[j] < |trace|
    decreases n
  {
    if n == 0 then Some([])
    else
      match WaitEnd(trace, from, High)
      case None => None
      case Some(rise) =>
        match WaitEnd(trace, rise + 1, Low)
        case None => None
        case Some(fall) =>
          match BitEnds(trace, fall + 1, n - 1)
          case None => None
          case Some(rest) => Some([fall] + rest)
  }

  /** The index of the poll after the acknowledgement (Low, then High), if the trace holds it. */
  function AcknowledgeEnd(trace: seq<Sample>): Option<nat>
  {
    match WaitEnd(trace, 0, Low)
    case None => None
    case Some(low) =>
      match WaitEnd(trace, low + 1, High)
      case None => None
      case Some(high) => Some(high + 1)
  }

  /** The Low-ending poll of each of the 40 bits of a cycle, if the trace holds every wait. */
  function CycleEnds(trace: seq<Sample>): (r: Option<seq<nat>>)
    ensures r.Some? ==> |r.value| == FrameBits && forall j :: 0 <= j < FrameBits ==> r.value[j] < |trace|
  {
    match AcknowledgeEnd(trace)
    case None => None
    case Some(start) => BitEnds(trace, start, FrameBits)
  }

  /**
   * The acknowledgement as the sensor sends it (Low, then High, then Low as
   * the first bit begins): the firmware's two waits and a third, for Low,
   * that waits out the acknowledgement's high.
   */
  function CorrectedAcknowledgeEnd(trace: seq<Sample>): Option<nat>
  {
    match AcknowledgeEnd(trace)
    case None => None
    case Some(high) =>
      match WaitEnd(trace, high, Low)
      case None => None
      case Some(low) => Some(low + 1)
  }

  /** The Low-ending poll of each of the 40 bits of a corrected cycle. */
  function CorrectedCycleEnds(trace: seq<Sample>): (r: Option<seq<nat>>)
    ensures r.Some? ==> |r.value| == FrameBits && forall j :: 0 <= j < FrameBits ==> r.value[j] < |trace|
  {
    match CorrectedAcknowledgeEnd(trace)
    case None => None
    case Some(start) => BitEnds(trace, start, FrameBits)
  }

  /** The high times a corrected cycle records. */
  function CorrectedCyclePulses(trace: seq<Sample>): (pulses: seq<nat>)
    requires CorrectedCycleEnds(trace).Some?
    ensures |pulses| == FrameBits
  {
    PulsesAt(trace, CorrectedCycleEnds(trace).value)
  }

  /** The bit buffer a corrected cycle records. */
  function CorrectedCycleBits(trace: seq<Sample>): (bits: seq<int>)
    requires CorrectedCycleEnds(trace).Some?
    ensures |bits| == FrameBits && IsBits(bits)
  {
    BitsAt(trace, CorrectedCycleEnds(trace).value)
  }

  /** The high times of a frame whose bits end at the polls `es`: each poll's elapsed time. */
  function PulsesAt(trace: seq<Sample>, es: seq<nat>): (pulses: seq<nat>)
    requires |es| == FrameBits && forall j :: 0 <= j < FrameBits ==> es[j] < |trace|
    ensures |pulses| == FrameBits
  {
    seq(FrameBits, i requires 0 <= i < FrameBits => trace[es[i]].elapsed)
  }

  /** The bit buffer of a frame whose bits end at the polls `es`: each high time classified. */
  function BitsAt(trace: seq<Sample>, es: seq<nat>): (bits: seq<int>)
    requires |es| == FrameBits && forall j :: 0 <= j < FrameBits ==> es[j] < |trace|
    ensures |bits| == FrameBits && IsBits(bits)
  {
    var pulses := PulsesAt(trace, es);
    seq(FrameBits, i requires 0 <= i < FrameBits => ClassifyBit(pulses[i]))
  }

  /** The high times a cycle records. */
  function CyclePulses(trace: seq<Sample>): (pulses: seq<nat>)
    requires CycleEnds(trace).Some?
    ensures |pulses| == FrameBits
  {
    PulsesAt(trace, CycleEnds(trace).value)
  }

  /** The bit buffer a cycle records. */
  function CycleBits(trace: seq<Sample>): (bits: seq<int>)
    requires CycleEnds(trace).Some?
    ensures |bits| == FrameBits && IsBits(bits)
  {
    BitsAt(trace, CycleEnds(trace).value)
  }

  /**
   * The two acknowledgement waits of a cycle (Low, then High), results
   * discarded.
   */
  method AwaitAcknowledge(trace: seq<Sample>) returns (next: nat)
    requires AcknowledgeEnd(trace).Some?
    ensures AcknowledgeEnd(trace) == Some(next)
  {
    var sawLow, lowMicros, afterLow := WaitWithTimeout(trace, 0, WaitTimeoutMicros, Low);
    var sawHigh, highMicros, afterHigh := WaitWithTimeout(trace, afterLow, WaitTimeoutMicros, High);
    next := afterHigh;
  }

  /** The firmware's two acknowledgement waits, then a wait for Low that ends the acknowledgement's high. */
  method CorrectedAwaitAcknowledge(trace: seq<Sample>) returns (next: nat)
    requires CorrectedAcknowledgeEnd(trace).Some?
    ensures CorrectedAcknowledgeEnd(trace) == Some(next)
  {
    var afterHigh := AwaitAcknowledge(trace);
    var sawLow, lowMicros, afterLow := WaitWithTimeout(trace, afterHigh, WaitTimeoutMicros, Low);
    next := afterLow;
  }

  /**
   * One bit of the read loop: wait for High (result discarded), then wait
   * for Low and return that wait's elapsed time, whether or not it timed out.
   */
  method MeasureBit(trace: seq<Sample>, from: nat, ghost n: nat, ghost es: seq<nat>)
    returns (timeHigh: nat, next: nat)
    requires n > 0 && BitEnds(trace, from, n) == Some(es)
    ensures |es| == n && next == es[0] + 1 && timeHigh == trace[es[0]].elapsed
    ensures BitEnds(trace, next, n - 1) == Some(es[1..])
  {
    var sawHigh, riseMicros, afterHigh := WaitWithTimeout(trace, from, WaitTimeoutMicros, High);
    var sawLow;
    sawLow, timeHigh, next := WaitWithTimeout(trace, afterHigh, WaitTimeoutMicros, Low);
  }

  /** Bit i of a run from `from` ends each of its two waits at its first poll. */
  predicate EndsAtOnce(trace: seq<Sample>, from: nat, i: int)
  {
    && 0 <= i
    && from + 2 * i + 1 < |trace|
    && EndsWait(trace[from + 2 * i], WaitTimeoutMicros, High)
    && EndsWait(trace[from + 2 * i + 1], WaitTimeoutMicros, Low)
  }

  /**
   * When every wait of a run of `n` bits ends at its first poll, the bits'
   * Low-ending polls are every second poll from `from + 1` on.
   */
  lemma {:induction false} BitEndsAtOnce(trace: seq<Sample>, from: nat, n: nat)
    requires forall i :: 0 <= i < n ==> EndsAtOnce(trace, from, i)
    ensures BitEnds(trace, from, n) == Some(seq(n, i => from + 2 * i + 1))
    decreases n
  {
    if n > 0 {
      assert EndsAtOnce(trace, from, 0);
      assert WaitEnd(trace, from, High) == Some(from);
      assert WaitEnd(trace, from + 1, Low) == Some(from + 1);
      var next := from + 2;
      forall i | 0 <= i < n - 1
        ensures EndsAtOnce(trace, next, i)
      {
        assert EndsAtOnce(trace, from, i + 1);
      }
      BitEndsAtOnce(trace, next, n - 1);
      var rest := seq(n - 1, i => next + 2 * i + 1);
      assert BitEnds(trace, from, n) == Some([from + 1] + rest);
      assert seq(n, i => from + 2 * i + 1) == [from + 1] + rest;
    } else {
      assert seq(n, i => from + 2 * i + 1) == [];
    }
  }

  /**
   * When each of the first 82 polls of a trace ends the wait it is taken
   * in, the bits' Low-ending polls are polls 3, 5, ..., 81.
   */
  lemma CycleEndsAtOnce(trace: seq<Sample>)
    requires |trace| >= 2 + 2 * FrameBits
    requires EndsWait(trace[0], WaitTimeoutMicros, Low) && EndsWait(trace[1], WaitTimeoutMicros, High)
    requires forall i :: 0 <= i < FrameBits ==> EndsAtOnce(trace, 2, i)
    ensures CycleEnds(trace) == Some(seq(FrameBits, i => 3 + 2 * i))
  {
    assert AcknowledgeEnd(trace) == Some(2);
    BitEndsAtOnce(trace, 2, FrameBits);
    assert seq(FrameBits, i => 2 + 2 * i + 1) == seq(FrameBits, i => 3 + 2 * i);
  }

  /** When every poll comes after the timeout, every wait of a cycle ends at its first poll. */
  lemma TimedOutEnds(trace: seq<Sample>)
    requires |trace| == 2 + 2 * FrameBits
    requires forall j :: 0 <= j < |trace| ==> trace[j].elapsed > WaitTimeoutMicros
    ensures CycleEnds(trace) == Some(seq(FrameBits, i => 3 + 2 * i))
  {
    forall i | 0 <= i < FrameBits
      ensures EndsAtOnce(trace, 2, i)
    {
      assert trace[2 + 2 * i].elapsed > WaitTimeoutMicros;
      assert trace[2 + 2 * i + 1].elapsed > WaitTimeoutMicros;
    }
    CycleEndsAtOnce(trace);
  }

  /**
   * The firmware ignores the timeout flags: a cycle in which every one of the
   * 82 waits times out (every poll comes after the timeout, whatever the line
   * reads) is still decoded. Every high time exceeds the threshold, so the
   * buffer holds 40 ones and the reading is 255 in every field, which fails
   * the checksum.
   */
  lemma TimedOutCycleStillDecodes(trace: seq<Sample>)
    requires |trace| == 2 + 2 * FrameBits
    requires forall j :: 0 <= j < |trace| ==> trace[j].elapsed > WaitTimeoutMicros
    ensures CycleEnds(trace).Some?
    ensures CycleBits(trace) == seq(FrameBits, i => 1)
    ensures Decode(CycleBits(trace)) == Reading(255, 255, 255, 255, 255)
    ensures !IsValid(Decode(CycleBits(trace)))
  {
    TimedOutEnds(trace);
    var bits := CycleBits(trace);
    forall i | 0 <= i < FrameBits
      ensures bits[i] == 1
    {
      assert CycleEnds(trace).value[i] == 3 + 2 * i;
    }
    assert bits == seq(FrameBits, i => 1);
    AllOnesDecode(bits);
    AllOnesInvalid(Decode(bits));
  }

  /** A reading of 255 in every field fails the checksum: 4 * 255 is 252 modulo 256. */
  lemma AllOnesInvalid(r: Reading)
    requires r.humidityInteger == 255 && r.humidityDecimal == 255
    requires r.temperatureInteger == 255 && r.temperatureDecimal == 255 && r.checksum == 255
    ensures !IsValid(r)
  {
    var sum := r.humidityInteger + r.humidityDecimal + r.temperatureInteger + r.temperatureDecimal;
    assert sum == 1020 && sum % 256 == 252;
  }

  // ---------------------------------------------------------------------
  // A sensor that answers as its datasheet says
  // ---------------------------------------------------------------------

  /** The high time a DHT11 sends for a bit: 70 us for a one, 26 us for a zero. */
  function BitHighMicros(bit: int): nat
  {
    if bit == 1 then 70 else 26
  }

  /**
   * Poll k of the trace of a DHT11 sending `bits`, polled just as the line
   * changes. The sensor answers the start signal after 20 us by pulling the
   * line Low for 80 us and then High for 80 us; then each bit is 50 us Low
   * followed by its high time. Poll 2 is the first poll of the wait that
   * follows the acknowledgement's rise: the line is still High then, and
   * poll 3 is where the acknowledgement's high ends. Logging between the
   * waits is taken to take no time.
   */
  function SensorSample(bits: seq<int>, k: int): Sample
    requires 0 <= k < 4 + 2 * |bits|
  {
    if k == 0 then Sample(20, Low)
    else if k == 1 then Sample(80, High)
    else if k == 2 then Sample(0, High)
    else if k == 3 then Sample(80, Low)
    else if k % 2 == 0 then Sample(50, High)
    else Sample(BitHighMicros(bits[(k - 5) / 2]), Low)
  }

  function SensorTrace(bits: seq<int>): (trace: seq<Sample>)
    ensures |trace| == 4 + 2 * |bits|
  {
    seq(4 + 2 * |bits|, k requires 0 <= k < 4 + 2 * |bits| => SensorSample(bits, k))
  }

  /** The two polls of bit i of the sensor's trace: 50 us Low, then the bit's high time. */
  lemma SensorBitPolls(bits: seq<int>, i: nat)
    requires i < |bits|
    ensures SensorTrace(bits)[4 + 2 * i] == Sample(50, High)
    ensures SensorTrace(bits)[5 + 2 * i] == Sample(BitHighMicros(bits[i]), Low)
  {
    assert (5 + 2 * i - 5) / 2 == i;
  }

  /** The acknowledgement's polls: Low after 20 us, High after 80 us, still High when the next wait begins, Low after 80 us. */
  lemma SensorAcknowledgePolls(bits: seq<int>)
    ensures SensorTrace(bits)[0] == Sample(20, Low) && SensorTrace(bits)[1] == Sample(80, High)
    ensures SensorTrace(bits)[2] == Sample(0, High) && SensorTrace(bits)[3] == Sample(80, Low)
  {
  }

  /** The high time the sensor sends for bit i is classified as bit i. */
  lemma SensorBitClassified(bits: seq<int>, i: nat)
    requires i < |bits| && (bits[i] == 0 || bits[i] == 1)
    ensures ClassifyBit(SensorTrace(bits)[5 + 2 * i].elapsed) == bits[i]
  {
    SensorBitPolls(bits, i);
  }

  /** The bit buffer is the classification of each bit's Low-ending poll. */
  lemma BitsFromPolls(trace: seq<Sample>, es: seq<nat>, bits: seq<int>)
    requires |es| == FrameBits && forall j :: 0 <= j < FrameBits ==> es[j] < |trace|
    requires |bits| == FrameBits
    requires forall i :: 0 <= i < FrameBits ==> ClassifyBit(trace[es[i]].elapsed) == bits[i]
    ensures BitsAt(trace, es) == bits
  {
  }

  /**
   * The firmware's cycle over the sensor's trace: its first bit's wait for
   * High ends at once on the acknowledgement's high, so bit i ends at poll
   * 3 + 2i and bit 0 times the acknowledgement's high.
   */
  lemma SensorEnds(bits: seq<int>)
    requires |bits| == FrameBits
    ensures CycleEnds(SensorTrace(bits)) == Some(seq(FrameBits, i => 3 + 2 * i))
  {
    var trace := SensorTrace(bits);
    forall i | 0 <= i < FrameBits
      ensures EndsAtOnce(trace, 2, i)
    {
      if i == 0 {
        SensorAcknowledgePolls(bits);
      } else {
        SensorBitPolls(bits, i - 1);
      }
    }
    CycleEndsAtOnce(trace);
  }

  /**
   * The firmware's cycle over the sensor's trace records the frame one bit
   * late: a 1 for the acknowledgement's 80 us high, then the first 39 bits
   * sent; the last bit is never read.
   */
  lemma SensorCycleBits(bits: seq<int>)
    requires |bits| == FrameBits && IsBits(bits)
    ensures CycleEnds(SensorTrace(bits)).Some?
    ensures CycleBits(SensorTrace(bits)) == [1] + bits[..FrameBits - 1]
  {
    SensorEnds(bits);
    var es, shifted := seq(FrameBits, i => 3 + 2 * i), [1] + bits[..FrameBits - 1];
    ShiftedPolls(bits, es, shifted);
    CycleBitsAtEnds(SensorTrace(bits), es, shifted);
  }

  /** Poll 3 + 2i of the sensor's trace classifies as bit i of the frame one bit late. */
  lemma ShiftedPolls(bits: seq<int>, es: seq<nat>, shifted: seq<int>)
    requires |bits| == FrameBits && IsBits(bits)
    requires es == seq(FrameBits, i => 3 + 2 * i) && shifted == [1] + bits[..FrameBits - 1]
    ensures forall i :: 0 <= i < FrameBits ==> ClassifyBit(SensorTrace(bits)[es[i]].elapsed) == shifted[i]
  {
    forall i | 0 <= i < FrameBits
      ensures ClassifyBit(SensorTrace(bits)[es[i]].elapsed) == shifted[i]
    {
      assert es[i] == 3 + 2 * i;
      if i == 0 {
        SensorAcknowledgePolls(bits);
      } else {
        assert shifted[i] == bits[i - 1];
        SensorBitClassified(bits, i - 1);
      }
    }
  }

  /** A cycle whose bits end at the polls `es` records the classifications of those polls. */
  lemma CycleBitsAtEnds(trace: seq<Sample>, es: seq<nat>, bits: seq<int>)
    requires CycleEnds(trace) == Some(es) && |bits| == FrameBits
    requires forall i :: 0 <= i < FrameBits ==> ClassifyBit(trace[es[i]].elapsed) == bits[i]
    ensures CycleBits(trace) == bits
  {
    BitsFromPolls(trace, es, bits);
  }

  /** A corrected cycle whose bits end at the polls `es` records the classifications of those polls. */
  lemma CorrectedCycleBitsAtEnds(trace: seq<Sample>, es: seq<nat>, bits: seq<int>)
    requires CorrectedCycleEnds(trace) == Some(es) && |bits| == FrameBits
    requires forall i :: 0 <= i < FrameBits ==> ClassifyBit(trace[es[i]].elapsed) == bits[i]
    ensures CorrectedCycleBits(trace) == bits
  {
    BitsFromPolls(trace, es, bits);
  }

  /**
   * End to end, as written: a cycle over a sensor sending a reading decodes
   * a humidity of at least 128, so no reading whose humidity is below 128
   * (every humidity a DHT11 measures) is decoded as sent. This takes the
   * log lines printed between the acknowledgement's wait for High and the
   * bit loop to finish within the acknowledgement's 80 us high, as
   * `SensorTrace` does; later, the loop starts elsewhere in the frame.
   */
  lemma SensorReadingShifted(r: Reading)
    requires ByteFields(r)
    ensures CycleEnds(SensorTrace(Encode(r))).Some?
    ensures Decode(CycleBits(SensorTrace(Encode(r)))).humidityInteger >= 128
    ensures r.humidityInteger < 128 ==> Decode(CycleBits(SensorTrace(Encode(r)))) != r
  {
    EncodeIsBits(r);
    SensorCycleBits(Encode(r));
    LeadingOneHumidity(CycleBits(SensorTrace(Encode(r))));
  }

  /** A frame whose first bit is 1 decodes a humidity of at least 128. */
  lemma LeadingOneHumidity(b: seq<int>)
    requires |b| == FrameBits && IsBits(b) && b[0] == 1
    ensures Decode(b).humidityInteger >= 128
  {
    SpanLeadingOne(b, 0, 8);
    assert Pow2(7) == 128;
  }

  /** The corrected cycle over the sensor's trace: the third wait ends at poll 3, and bit i ends at poll 5 + 2i. */
  lemma CorrectedSensorEnds(bits: seq<int>)
    requires |bits| == FrameBits
    ensures CorrectedCycleEnds(SensorTrace(bits)) == Some(seq(FrameBits, i => 5 + 2 * i))
  {
    var trace := SensorTrace(bits);
    CorrectedSensorAcknowledge(bits);
    forall i | 0 <= i < FrameBits
      ensures EndsAtOnce(trace, 4, i)
    {
      SensorBitPolls(bits, i);
    }
    BitEndsAtOnce(trace, 4, FrameBits);
    assert seq(FrameBits, i => 4 + 2 * i + 1) == seq(FrameBits, i => 5 + 2 * i);
  }

  /** The corrected cycle over the sensor's trace records exactly the bits sent. */
  lemma CorrectedSensorCycleBits(bits: seq<int>)
    requires |bits| == FrameBits && IsBits(bits)
    ensures CorrectedCycleEnds(SensorTrace(bits)).Some?
    ensures CorrectedCycleBits(SensorTrace(bits)) == bits
  {
    CorrectedSensorEnds(bits);
    var es := seq(FrameBits, i => 5 + 2 * i);
    AlignedPolls(bits, es);
    CorrectedCycleBitsAtEnds(SensorTrace(bits), es, bits);
  }

  /** Poll 5 + 2i of the sensor's trace classifies as bit i. */
  lemma AlignedPolls(bits: seq<int>, es: seq<nat>)
    requires |bits| == FrameBits && IsBits(bits) && es == seq(FrameBits, i => 5 + 2 * i)
    ensures forall i :: 0 <= i < FrameBits ==> ClassifyBit(SensorTrace(bits)[es[i]].elapsed) == bits[i]
  {
    forall i | 0 <= i < FrameBits
      ensures ClassifyBit(SensorTrace(bits)[es[i]].elapsed) == bits[i]
    {
      assert es[i] == 5 + 2 * i;
      SensorBitClassified(bits, i);
    }
  }

  /** The corrected acknowledgement over the sensor's trace ends at poll 3, its third wait ending on the acknowledgement's fall. */
  lemma CorrectedSensorAcknowledge(bits: seq<int>)
    ensures CorrectedAcknowledgeEnd(SensorTrace(bits)) == Some(4)
  {
    var trace := SensorTrace(bits);
    SensorAcknowledgePolls(bits);
    assert AcknowledgeEnd(trace) == Some(2);
    assert WaitEnd(trace, 3, Low) == Some(3);
    assert WaitEnd(trace, 2, Low) == Some(3);
  }

  /** End to end, corrected: a cycle over a sensor sending a reading decodes that reading. */
  lemma CorrectedSensorRoundTrip(r: Reading)
    requires ByteFields(r)
    ensures CorrectedCycleEnds(SensorTrace(Encode(r))).Some?
    ensures Decode(CorrectedCycleBits(SensorTrace(Encode(r)))) == r
  {
    EncodeIsBits(r);
    CorrectedSensorCycleBits(Encode(r));
    DecodeEncode(r);
  }

  /** Forty ones decode to 255 in every field. */
  lemma AllOnesDecode(bits: seq<int>)
    requires |bits| == FrameBits && forall j :: 0 <= j < |bits| ==> bits[j] == 1
    ensures Decode(bits) == Reading(255, 255, 255, 255, 255)
  {
    ByteOfOnes(bits, 0);
    ByteOfOnes(bits, 8);
    ByteOfOnes(bits, 16);
    ByteOfOnes(bits, 24);
    ByteOfOnes(bits, 32);
  }

  /** Eight ones are the byte 255. */
  lemma ByteOfOnes(bits: seq<int>, start: nat)
    requires start + 8 <= |bits| && forall j :: 0 <= j < |bits| ==> bits[j] == 1
    ensures SpanValue(bits, start, start + 8) == 255
  {
    SpanOfOnes(bits, start, start + 8);
    assert Pow2(8) == 256;
  }

  /** Write `v` into every element of `a` (`fill`). */
  method Fill<T>(a: array<T>, v: T)
    modifies a
    ensures forall j :: 0 <= j < a.Length ==> a[j] == v
  {
    var i := 0;
    while i < a.Length
      invariant 0 <= i <= a.Length
      invariant forall j :: 0 <= j < i ==> a[j] == v
    {
      a[i] := v;
      i := i + 1;
    }
  }

  /** The two 40-entry buffers `main` keeps across cycles. */
  class Dht11Sensor {
    const dhtBuffer: array<int>
    const pulseDurationMicros: array<nat>

    predicate Valid()
    {
      dhtBuffer.Length == FrameBits && pulseDurationMicros.Length == FrameBits
    }

    constructor ()
      ensures Valid() && fresh(dhtBuffer) && fresh(pulseDurationMicros)
      ensures forall j :: 0 <= j < FrameBits ==> dhtBuffer[j] == 0 && pulseDurationMicros[j] == 0
    {
      dhtBuffer := new int[FrameBits](_ => 0);
      pulseDurationMicros := new nat[FrameBits](_ => 0);
    }

    /**
     * The `for_each` over the 40 bits: measure bit i, then store its high
     * time and its classification at index i.
     */
    method ReadBits(trace: seq<Sample>, start: nat, ghost es: seq<nat>)
      requires Valid()
      requires BitEnds(trace, start, FrameBits) == Some(es)
      modifies dhtBuffer, pulseDurationMicros
      ensures forall j :: 0 <= j < FrameBits ==> pulseDurationMicros[j] == trace[es[j]].elapsed
      ensures forall j :: 0 <= j < FrameBits ==> dhtBuffer[j] == ClassifyBit(pulseDurationMicros[j])
    {
      var next := start;
      var i := 0;
      ghost var n: nat := FrameBits;
      ghost var rest := es;
      while i < FrameBits
        invariant 0 <= i <= FrameBits && n == FrameBits - i && rest == es[i..]
        invariant BitEnds(trace, next, n) == Some(rest)
        invariant forall j :: 0 <= j < i ==> pulseDurationMicros[j] == trace[es[j]].elapsed
        invariant forall j :: 0 <= j < i ==> dhtBuffer[j] == ClassifyBit(pulseDurationMicros[j])
      {
        var timeHigh;
        timeHigh, next := MeasureBit(trace, next, n, rest);
        assert rest[1..] == es[i + 1..];
        pulseDurationMicros[i] := timeHigh;
        dhtBuffer[i] := ClassifyBit(timeHigh);
        i, n, rest := i + 1, n - 1, rest[1..];
      }
    }

    /**
     * One pass of the main loop after the priming pulse: zero both buffers,
     * wait for the acknowledgement (Low, then High), then for each of the 40
     * bits wait for High and measure how long the line takes to go Low,
     * record that time and its bit, and decode the buffer.
     *
     * Whether a wait succeeded or timed out is discarded, as in the firmware:
     * the frame is decoded in every case. What the buffers and the reading
     * hold afterwards is a function of the trace alone, so nothing left from a
     * previous cycle reaches the next decode.
     */
    method ReadCycle(trace: seq<Sample>) returns (reading: Reading)
      requires Valid()
      requires CycleEnds(trace).Some?
      modifies dhtBuffer, pulseDurationMicros
      ensures pulseDurationMicros[..] == CyclePulses(trace)
      ensures dhtBuffer[..] == CycleBits(trace)
      ensures reading == Decode(CycleBits(trace))
      ensures ByteFields(reading)
    {
      Fill(dhtBuffer, 0);
      Fill(pulseDurationMicros, 0);
      var start := AwaitAcknowledge(trace);
      ReadBits(trace, start, CycleEnds(trace).value);
      assert pulseDurationMicros[..] == CyclePulses(trace);
      assert dhtBuffer[..] == CycleBits(trace);
      reading := FromBuffer(dhtBuffer[..]);
      DecodeFieldsAreBytes(dhtBuffer[..]);
    }

    /**
     * The cycle with the wait the firmware leaves out: after the
     * acknowledgement's rise, wait for Low before the first bit, so that each
     * bit's wait for High begins in the bit's 50 us low.
     */
    method CorrectedReadCycle(trace: seq<Sample>) returns (reading: Reading)
      requires Valid()
      requires CorrectedCycleEnds(trace).Some?
      modifies dhtBuffer, pulseDurationMicros
      ensures pulseDurationMicros[..] == CorrectedCyclePulses(trace)
      ensures dhtBuffer[..] == CorrectedCycleBits(trace)
      ensures reading == Decode(CorrectedCycleBits(trace))
      ensures ByteFields(reading)
    {
      Fill(dhtBuffer, 0);
      Fill(pulseDurationMicros, 0);
      var start := CorrectedAwaitAcknowledge(trace);
      ReadBits(trace, start, CorrectedCycleEnds(trace).value);
      assert pulseDurationMicros[..] == CorrectedCyclePulses(trace);
      assert dhtBuffer[..] == CorrectedCycleBits(trace);
      reading := FromBuffer(dhtBuffer[..]);
      DecodeFieldsAreBytes(dhtBuffer[..]);
    }
  }
}
