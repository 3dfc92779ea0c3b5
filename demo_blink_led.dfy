/** A model of the bare-metal control loop of the NEORV32 "blink LED" demo.
    Each iteration samples the input pins, emits the pin-0 status value,
    possibly writes the (pre-update) counter masked to 16 bits to the GPIO
    output port while stepping the counter by one, and requests busy-wait
    delays. The hardware is abstracted away: pin reads are inputs, port
    writes, status values and requested delays are outputs. */
module DemoBlinkLed {

  datatype Option<T> = None | Some(value: T)

  /** Bounds of the C `int` that holds the counter (32-bit two's complement). */
  const IntMin: int := -0x8000_0000
  const IntMax: int := 0x7FFF_FFFF

  /** The constants fixed at build time. */
  const PortModulus: int := 0x1_0000   // the port holds 16 bits
  const DelayMs: nat := 25             // the only argument ever passed to delay_ms

  predicate InIntRange(x: int) {
    IntMin <= x <= IntMax
  }

  /** `x & 0xFFFF` on a two's-complement integer: the low 16 bits, as a
      non-negative value congruent to `x` modulo 65536. */
  function Mask16(x: int): (r: int)
    ensures 0 <= r < PortModulus
    ensures (x - r) % PortModulus == 0
  {
    x % PortModulus
  }

  /** The three pin reads of one iteration, in the order the loop performs
      them: pin 0 for the status line, pin 0 again for the branch, and pin 1
      (which the loop only reads when the second pin-0 read is low; its value
      is ignored otherwise). */
  datatype Sample = Sample(statusPin0: bool, branchPin0: bool, pin1: bool)

  /** What one iteration makes observable. `port` is the value written to
      the output port, if any; `delays` lists the arguments of the delay_ms
      calls in order. */
  datatype Output = Output(status: nat, port: Option<int>, delays: seq<nat>)

  /** The counter and the last value written to the output port. */
  datatype State = State(cnt: int, port: int)

  datatype StepResult = StepResult(after: State, out: Output)
  datatype RunResult = RunResult(final: State, trace: seq<Output>)

  /** The state before the first iteration: the port is cleared and the
      counter starts at 0. */
  const Init: State := State(0, 0)

  /** The status value printed by `"input = %u\n"` for a pin-0 read. */
  function StatusValue(pin0: bool): nat {
    if pin0 then 1 else 0
  }

  function TotalDelay(delays: seq<nat>): nat {
    if delays == [] then 0 else delays[0] + TotalDelay(delays[1..])
  }

  /** The branch policy of one iteration: pin 0 first, then pin 1. */
  datatype Action = Increment | Decrement | Idle

  function Decide(s: Sample): Action {
    if s.branchPin0 then Increment
    else if s.pin1 then Decrement
    else Idle
  }

  function Delta(a: Action): int {
    match a
    case Increment => 1
    case Decrement => -1
    case Idle => 0
  }

  /** One iteration of the loop on values. */
  function StepSpec(st: State, s: Sample): (r: StepResult)
    // the status value reflects only the first pin-0 read
    ensures r.out.status == StatusValue(s.statusPin0)
    // pin 0 high: write the old counter, then increment, 25 + 25 ms
    ensures s.branchPin0 ==>
      r.out.port == Some(Mask16(st.cnt)) && r.after == State(st.cnt + 1, Mask16(st.cnt))
      && r.out.delays == [DelayMs, DelayMs]
    // pin 0 low, pin 1 high: write the old counter, then decrement, 25 + 25 ms
    ensures !s.branchPin0 && s.pin1 ==>
      r.out.port == Some(Mask16(st.cnt)) && r.after == State(st.cnt - 1, Mask16(st.cnt))
      && r.out.delays == [DelayMs, DelayMs]
    // neither: nothing written, nothing changes, 25 ms
    ensures !s.branchPin0 && !s.pin1 ==>
      r.out.port == None && r.after == st && r.out.delays == [DelayMs]
  {
    var a := Decide(s);
    var written := if a == Idle then None else Some(Mask16(st.cnt));
    StepResult(
      State(st.cnt + Delta(a), if a == Idle then st.port else Mask16(st.cnt)),
      Output(StatusValue(s.statusPin0), written,
             if a == Idle then [DelayMs] else [DelayMs, DelayMs]))
  }

  /** A bounded run of the (otherwise infinite) loop over a finite sequence
      of samples, one per iteration. */
  function RunSpec(st: State, ss: seq<Sample>): (r: RunResult)
    ensures |r.trace| == |ss|
    decreases |ss|
  {
    if ss == [] then RunResult(st, [])
    else
      var step := StepSpec(st, ss[0]);
      var rest := RunSpec(step.after, ss[1..]);
      RunResult(rest.final, [step.out] + rest.trace)
  }

  /** The number of iterations whose branch read of pin 0 is high. */
  function Increments(ss: seq<Sample>): nat {
    if ss == [] then 0 else (if ss[0].branchPin0 then 1 else 0) + Increments(ss[1..])
  }

  /** The number of iterations with pin 0 low and pin 1 high. */
  function Decrements(ss: seq<Sample>): nat {
    if ss == [] then 0 else (if !ss[0].branchPin0 && ss[0].pin1 then 1 else 0) + Decrements(ss[1..])
  }

  /** The value the port holds after the writes in `trace`, starting from `port`. */
  function LastWritten(port: int, trace: seq<Output>): int
    decreases |trace|
  {
    if trace == [] then port
    else LastWritten(if trace[0].port.Some? then trace[0].port.value else port, trace[1..])
  }

  /** The counter stays a valid C `int` at every iteration of the run. */
  predicate StaysInRange(cnt: int, ss: seq<Sample>)
    decreases |ss|
  {
    InIntRange(cnt) &&
    (ss != [] ==> StaysInRange(cnt + Delta(Decide(ss[0])), ss[1..]))
  }

  // ---------------------------------------------------------------------
  // Properties of one iteration
  // ---------------------------------------------------------------------

  /** Pin 0 dominates: when its branch read is high, the value of pin 1 has
      no effect on the iteration. */
  lemma PinZeroDominates(st: State, status: bool, p1: bool, q1: bool)
    ensures StepSpec(st, Sample(status, true, p1)) == StepSpec(st, Sample(status, true, q1))
    ensures Decide(Sample(status, true, p1)) == Increment
  {
  }

  /** At most one port write per iteration, and the requested delay is
      50 ms exactly when a write happens and 25 ms otherwise. */
  lemma StepWriteAndDelay(st: State, s: Sample)
    ensures StepSpec(st, s).out.port.Some? <==> (s.branchPin0 || s.pin1)
    ensures TotalDelay(StepSpec(st, s).out.delays) == if StepSpec(st, s).out.port.Some? then 50 else 25
    ensures StepSpec(st, s).out.port.Some? ==>
      0 <= StepSpec(st, s).out.port.value < PortModulus
  {
    assert [DelayMs][1..] == [] && [DelayMs, DelayMs][1..] == [DelayMs];
    assert TotalDelay([DelayMs]) == DelayMs;
    assert TotalDelay([DelayMs, DelayMs]) == DelayMs + TotalDelay([DelayMs]);
  }

  /** The status value depends on nothing but the first pin-0 read: not on
      the branch read, not on pin 1, not on the counter or the port. */
  lemma StatusOnlyFromFirstRead(st: State, s: Sample, st': State, s': Sample)
    requires s.statusPin0 == s'.statusPin0
    ensures StepSpec(st, s).out.status == StepSpec(st', s').out.status
  {
  }

  // ---------------------------------------------------------------------
  // Properties of a run
  // ---------------------------------------------------------------------

  /** The final counter is the initial one plus the increments minus the
      decrements. */
  lemma {:induction false} RunNetCount(st: State, ss: seq<Sample>)
    ensures RunSpec(st, ss).final.cnt == st.cnt + Increments(ss) - Decrements(ss)
    decreases |ss|
  {
    if ss != [] {
      RunNetCount(StepSpec(st, ss[0]).after, ss[1..]);
    }
  }

  /** From power-up, the final counter is the number of pin-0 iterations
      minus the number of pin-1-only iterations. */
  lemma FromInitNetCount(ss: seq<Sample>)
    ensures RunSpec(Init, ss).final.cnt == Increments(ss) - Decrements(ss)
  {
    RunNetCount(Init, ss);
  }

  /** Iteration i reports the status of its own first pin-0 read. */
  lemma {:induction false} RunStatus(st: State, ss: seq<Sample>, i: nat)
    requires i < |ss|
    ensures RunSpec(st, ss).trace[i].status == StatusValue(ss[i].statusPin0)
    decreases |ss|
  {
    if i > 0 {
      RunStatus(StepSpec(st, ss[0]).after, ss[1..], i - 1);
    }
  }

  /** Every port write in a run is the counter as it stood before that
      iteration, masked to 16 bits. */
  lemma {:induction false} RunWrites(st: State, ss: seq<Sample>, i: nat)
    requires i < |ss|
    ensures var o := RunSpec(st, ss).trace[i];
      o.port.Some? ==> o.port.value == Mask16(RunSpec(st, ss[..i]).final.cnt)
    decreases |ss|
  {
    if i > 0 {
      var next := StepSpec(st, ss[0]).after;
      RunWrites(next, ss[1..], i - 1);
      assert ss[..i][0] == ss[0];
      assert ss[..i][1..] == ss[1..][..i - 1];
    }
  }

  /** The port ends up holding the last value written in the run, or its
      initial value when nothing was written. */
  lemma {:induction false} RunFinalPort(st: State, ss: seq<Sample>)
    ensures RunSpec(st, ss).final.port == LastWritten(st.port, RunSpec(st, ss).trace)
    decreases |ss|
  {
    if ss != [] {
      var step := StepSpec(st, ss[0]);
      RunFinalPort(step.after, ss[1..]);
      var t := RunSpec(st, ss).trace;
      assert t[0] == step.out && t[1..] == RunSpec(step.after, ss[1..]).trace;
    }
  }

  /** The requested delays add up to 25 ms per iteration plus 25 ms per
      iteration that wrote the port. */
  lemma {:induction false} RunTotalDelay(st: State, ss: seq<Sample>)
    ensures var t := RunSpec(st, ss).trace;
      SumDelays(t) == DelayMs * |ss| + DelayMs * (Increments(ss) + Decrements(ss))
    decreases |ss|
  {
    if ss != [] {
      var step := StepSpec(st, ss[0]);
      RunTotalDelay(step.after, ss[1..]);
      var t := RunSpec(st, ss).trace;
      assert t[0] == step.out && t[1..] == RunSpec(step.after, ss[1..]).trace;
      StepWriteAndDelay(st, ss[0]);
    }
  }

  function SumDelays(t: seq<Output>): nat {
    if t == [] then 0 else TotalDelay(t[0].delays) + SumDelays(t[1..])
  }

  /** A run of n iterations moves the counter by at most n, so from a start
      at least n away from both C `int` limits it never overflows; in
      particular from 0, any run of up to 2^31 - 1 iterations is defined. */
  lemma {:induction false} StaysInRangeWhenFarFromLimits(cnt: int, ss: seq<Sample>)
    requires IntMin + |ss| <= cnt <= IntMax - |ss|
    ensures StaysInRange(cnt, ss)
    decreases |ss|
  {
    if ss != [] {
      StaysInRangeWhenFarFromLimits(cnt + Delta(Decide(ss[0])), ss[1..]);
    }
  }

  lemma FromInitInRange(ss: seq<Sample>)
    requires |ss| <= IntMax
    ensures StaysInRange(Init.cnt, ss)
  {
    StaysInRangeWhenFarFromLimits(Init.cnt, ss);
  }

  /** The loop really reaches the undefined case: one pin-0 iteration at
      INT_MAX overflows, and so does any run that holds pin 0 high for more
      iterations than the distance to INT_MAX, e.g. 2^31 iterations from
      power-up. */
  lemma {:induction false} PinZeroHeldOverflows(cnt: int, ss: seq<Sample>)
    requires forall i :: 0 <= i < |ss| ==> ss[i].branchPin0
    requires cnt + |ss| > IntMax
    ensures !StaysInRange(cnt, ss)
    ensures !StaysInRange(IntMax, [Sample(true, true, false)])
    decreases |ss|
  {
    if ss != [] && InIntRange(cnt) {
      PinZeroHeldOverflows(cnt + 1, ss[1..]);
    }
  }

  /** Concrete behaviour: from power-up, pin 1 alone writes 0 and leaves the
      counter at -1; a second such iteration writes 65535. Pin 0 alone writes
      0 and leaves the counter at 1. */
  lemma Examples()
    ensures var r := RunSpec(Init, [Sample(false, false, true)]);
      r.trace[0].port == Some(0) && r.final == State(-1, 0)
    ensures var r := RunSpec(Init, [Sample(false, false, true), Sample(false, false, true)]);
      r.trace[1].port == Some(65535) && r.final == State(-2, 65535)
    ensures var r := RunSpec(Init, [Sample(true, true, false)]);
      r.trace[0].port == Some(0) && r.final == State(1, 0) && r.trace[0].status == 1
  {
  }

  // ---------------------------------------------------------------------
  // The loop as imperative code
  // ---------------------------------------------------------------------

  /** The program's mutable state: the local counter of main and the GPIO
      output port it drives. */
  class BlinkLoop {
    var cnt: int
    var port: int

    ghost predicate Valid()
      reads this
    {
      InIntRange(cnt) && 0 <= port < PortModulus
    }

    function Snapshot(): State
      reads this
    {
      State(cnt, port)
    }

    /** Power-up: clear the port and start the counter at 0. */
    constructor ()
      ensures Valid() && cnt == 0 && port == 0 && Snapshot() == Init
    {
      port := 0;
      cnt := 0;
    }

    /** One iteration of the loop body. The caller guarantees that stepping
        the counter does not leave the C `int` range (overflow of a signed
        int is undefined behaviour). */
    method Step(s: Sample) returns (out: Output)
      requires Valid()
      requires InIntRange(cnt + Delta(Decide(s)))
      modifies this
      ensures Valid()
      ensures StepResult(Snapshot(), out) == StepSpec(old(Snapshot()), s)
    {
      var status := StatusValue(s.statusPin0);
      var written: Option<int> := None;
      var delays: seq<nat> := [];
      if s.branchPin0 {
        written := Some(Mask16(cnt));
        port := written.value;
        cnt := cnt + 1;
        delays := delays + [DelayMs];
      } else if s.pin1 {
        written := Some(Mask16(cnt));
        port := written.value;
        cnt := cnt - 1;
        delays := delays + [DelayMs];
      }
      delays := delays + [DelayMs];
      out := Output(status, written, delays);
    }

    /** A bounded run of the loop over one sample per iteration. */
    method Run(ss: seq<Sample>) returns (trace: seq<Output>)
      requires Valid()
      requires StaysInRange(cnt, ss)
      modifies this
      ensures Valid()
      ensures RunResult(Snapshot(), trace) == RunSpec(old(Snapshot()), ss)
    {
      ghost var whole := RunSpec(Snapshot(), ss);
      trace := [];
      var i := 0;
      while i < |ss|
        invariant 0 <= i <= |ss|
        invariant Valid()
        invariant StaysInRange(cnt, ss[i..])
        invariant RunSpec(Snapshot(), ss[i..]).final == whole.final
        invariant trace + RunSpec(Snapshot(), ss[i..]).trace == whole.trace
      {
        assert ss[i..][0] == ss[i] && ss[i..][1..] == ss[i + 1..];
        var out := Step(ss[i]);
        trace := trace + [out];
        i := i + 1;
      }
      assert ss[i..] == [];
    }
  }
}
