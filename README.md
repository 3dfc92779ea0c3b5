# NEORV32 blink-LED demo: the control loop

This project models the bare-metal control loop of the NEORV32 `demo_blink_led`
program (`sw/example/demo_blink_led/main.c`). At power-up the GPIO output port
is cleared and a signed counter `cnt` starts at 0. Every iteration of the
endless loop then:

1. reads input pin 0 and emits its value on the status line (`input = 0|1`);
2. reads pin 0 again; if it is high, writes `cnt & 0xFFFF` to the 16-bit output
   port, increments `cnt`, and asks for a 25 ms busy-wait;
3. otherwise reads pin 1; if it is high, writes `cnt & 0xFFFF`, decrements
   `cnt`, and asks for a 25 ms busy-wait;
4. asks for a further 25 ms busy-wait.

The writes use post-increment and post-decrement, so the port receives the
counter's value from *before* the update.

Everything lives in one module, `DemoBlinkLed` (`demo_blink_led.dfy`):

- **Values.** `Sample` holds the three pin reads of one iteration: the status
  read of pin 0, the branch read of pin 0, and pin 1. Pin 1 is only consulted
  when the branch read of pin 0 is low. Each read is its own input, so the two
  pin-0 reads may differ. `Output` holds the status value, the port write if
  there was one, and the list of `delay_ms` arguments. `State` holds the
  counter and the value currently on the port.
- **Specification.** `StepSpec` is one iteration on values. `RunSpec` folds it
  over a finite sequence of samples. This bounded run stands in for `while(1)`.
- **Imperative code.** The class `BlinkLoop` has the fields `cnt` and `port`.
  Its constructor is the power-up state. `Step` is the loop body, written
  statement by statement as in the source. `Run` is a `while` loop over the
  samples. Both are proved equal to `StepSpec` and `RunSpec`.
- **Integer width.** `cnt` is a C `int`, and signed overflow is undefined
  behaviour. `Step` therefore requires that the new counter stays within
  [-2^31, 2^31 - 1], and `Run` requires `StaysInRange` for the whole run. Wrap-around is not
  modelled. `FromInitInRange` shows that the requirement holds for every run
  of at most 2^31 - 1 iterations that starts at power-up.
- **Masking.** `& 0xFFFF` on a two's-complement value is Dafny's Euclidean
  `% 65536`. For example, -1 gives 65535.

Where the comments in main.c and its code disagree, the model follows the code:

- The comment at main.c:49 ("increment counter and mask for 16 bit") and the
  header at main.c:30 ("shows an incrementing 16-bit counter") suggest that the
  counter is updated before it is masked. The post-increment and
  post-decrement at main.c:49 and 53 write the old value, so from power-up the
  first write is 0 on either pin (`Examples`). 65535 only appears on the
  second pin-1 iteration.
- The comment at main.c:53 says "increment", but the statement decrements.

## Model

| member | source | states |
|---|---|---|
| DemoBlinkLed.Mask16 | sw/example/demo_blink_led/main.c:49-53 | the value written is in 0..65535 and congruent to the counter modulo 65536 |
| DemoBlinkLed.StepSpec | sw/example/demo_blink_led/main.c:46-58 | the status value comes from the first pin-0 read; pin 0 high: writes the pre-increment counter masked, counter +1, delays 25 then 25; pin 0 low and pin 1 high: writes the pre-decrement counter masked, counter -1, delays 25 then 25; neither: no write, state unchanged, one 25 ms delay |
| DemoBlinkLed.RunSpec | sw/example/demo_blink_led/main.c:46-58 | a bounded run emits exactly one output per iteration |
| DemoBlinkLed.PinZeroDominates | sw/example/demo_blink_led/main.c:48-55 | when the branch read of pin 0 is high, the iteration is the same whatever pin 1 is, and the action is the increment |
| DemoBlinkLed.StepWriteAndDelay | sw/example/demo_blink_led/main.c:48-57 | a port write happens exactly when pin 0 (branch read) or pin 1 is high, so at most one per iteration; the requested delay totals 50 ms with a write and 25 ms without; written values lie in 0..65535 |
| DemoBlinkLed.StatusOnlyFromFirstRead | sw/example/demo_blink_led/main.c:47 | the status value is the same for any two iterations whose first pin-0 read agrees, whatever the counter, port, branch read or pin 1 |
| DemoBlinkLed.RunNetCount | sw/example/demo_blink_led/main.c:46-58 | after a run the counter equals its start value plus the iterations with pin 0 high minus the iterations with pin 0 low and pin 1 high |
| DemoBlinkLed.FromInitNetCount | sw/example/demo_blink_led/main.c:44-58 | from power-up the final counter is the number of pin-0 iterations minus the number of pin-1-only iterations |
| DemoBlinkLed.RunStatus | sw/example/demo_blink_led/main.c:46-47 | iteration i of a run emits the status value of its own first pin-0 read |
| DemoBlinkLed.RunWrites | sw/example/demo_blink_led/main.c:49-53 | every port write in a run is the counter as it stood before that iteration, masked to 16 bits |
| DemoBlinkLed.RunFinalPort | sw/example/demo_blink_led/main.c:39-53 | after a run the port holds the last value written in it, or its initial value when nothing was written |
| DemoBlinkLed.RunTotalDelay | sw/example/demo_blink_led/main.c:50-57 | the delays requested in a run add up to 25 ms per iteration plus 25 ms per iteration with a write |
| DemoBlinkLed.StaysInRangeWhenFarFromLimits | sw/example/demo_blink_led/main.c:44-53 | a run of n iterations that starts at least n away from both `int` limits never overflows the counter |
| DemoBlinkLed.FromInitInRange | sw/example/demo_blink_led/main.c:44 | from power-up, any run of at most 2^31 - 1 iterations keeps the counter a defined `int` |
| DemoBlinkLed.PinZeroHeldOverflows | sw/example/demo_blink_led/main.c:44-49 | holding pin 0 high for more iterations than the distance to INT_MAX leaves the `int` range, in particular one pin-0 iteration at INT_MAX |
| DemoBlinkLed.Examples | sw/example/demo_blink_led/main.c:44-55 | from power-up: pin 1 alone writes 0 and leaves cnt = -1, and a second pin-1 iteration writes 65535; pin 0 alone writes 0, leaves cnt = 1 and reports status 1 |
| DemoBlinkLed.BlinkLoop.constructor | sw/example/demo_blink_led/main.c:38-44 | power-up state: port cleared to 0 and counter 0 |
| DemoBlinkLed.BlinkLoop.Step | sw/example/demo_blink_led/main.c:46-57 | the loop body updates the counter and port, and returns the status value, port write and delays, exactly as `StepSpec` says |
| DemoBlinkLed.BlinkLoop.Run | sw/example/demo_blink_led/main.c:46-58 | the loop over a finite sample sequence ends in the state and emits the trace `RunSpec` gives |

## Left out

- `delay_ms` and the library calls behind it (main.c:23-25): a foreign
  clock-rate query and a wall-clock busy-wait. Only the requested millisecond
  amounts are modelled.
- UART setup and `printf` formatting (main.c:41, 47): serial I/O in a library
  that is not part of this model. Only the emitted pin-0 value (0 or 1) is
  modelled, not the formatted text. The pin read is modelled as a boolean; what
  `neorv32_gpio_pin_get` returns for a high pin is not part of this model.
- `neorv32_rte_setup` and the GPIO register access (main.c:39-40, 47-53):
  board bring-up and memory-mapped I/O. Pin reads are inputs and port writes
  are outputs.
- The non-termination of `while(1)` and the unreachable `return 0`
  (main.c:46, 62): the model proves one step and bounded runs over finite
  sample sequences.
- Real-time behaviour and when the pins are read relative to external signal
  changes: hardware-dependent. Each read is an independent input sample.
- BlinkLoop.Step: signed overflow of `cnt` at INT_MAX / INT_MIN is undefined
  behaviour in C. It is excluded by a precondition rather than modelled as
  wrap-around. The source does reach it: started at power-up with pin 0 held
  high, the endless loop executes `cnt++` at INT_MAX after 2^31 - 1
  iterations, about 3.4 years at 50 ms each (`PinZeroHeldOverflows`).
