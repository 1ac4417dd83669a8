# microrust-start: button latch and LED-matrix render loop

A model of the firmware in `src/main.rs` for a micro:bit-style board (nRF52833). A GPIOTE interrupt
handler latches edges of button A into a single atomic flag, `BUTTON_A_PRESSED`. The main loop runs
forever. On each iteration it samples the button, tests and clears the flag, and then does one of two
things. If the flag was set or the button reads as held, it does one multiplexed render pass of a fixed
5x5 heart bitmap over five row lines and five column lines. Otherwise it prints `Wait for event.` and
sleeps until the next event.

The model has three modules:

- `Display` (`display.dfy`). Line levels (`Level`), writes to lines (`Write`), the `Heart` bitmap and
  the configured rest levels (`Rest`: rows Low, columns High). `RenderPass` is the nested loop of the
  source. It works on two `array<Level>` and returns the trace of writes it made. Its contract ties the
  trace to the specification function `PassTrace` and the new array contents to `ApplyAll` of that trace.
  The lemmas state what a pass does: which cells it pulses, in what order, which four writes make up each
  pulse, and that it lights one LED at a time and returns the lines to rest.
- `Latch` (`latch.dfy`). The flag as a class, `EdgeLatch`, with `Set` (`store(true)`) and `TestAndClear`
  (`compare_exchange(true, false)`). It also holds the interrupt handler `OnGpiote` and a pure event model
  `Run`, which gives the flag and every poll result for any interleaving of handler runs (`Edge`) and
  polls (`Poll`). The class keeps a ghost `history`, and `Valid` ties the real flag to `Run`.
- `MainLoop` (`main_loop.dfy`). The branch decision `Decide`. `Iterate` is one loop iteration over the
  latch and the line arrays. `Step` is one iteration in terms of `Run`: the handler's set, if it ran,
  then the test-and-clear. `IterateTick` runs the handler and then `Iterate` on the class-based latch,
  and its contract ties the result to `Step`. `Loop` is the pure model of any number of iterations,
  built on `Step`.

Interrupts are treated sequentially. A handler run is an event between two steps of the main loop. A
handler run before an iteration's test-and-clear counts for that iteration. One after it (for example
during a render pass) counts for the next one. These two cases cover every place where an interrupt can
land with respect to the flag.

Two consequences of the code are worth stating up front:

- A render pass does not leave any line away from its rest level: every pulse ends with row Low and
  column High, so from rest the lines are at rest after every pulse and after the pass
  (`Display.PassRestoresRest`).
- Edges that arrive before the same poll merge into one, because the handler stores `true`. So the
  number of polls that return true can be smaller than the number of edges (`Latch.SetIdempotent`).
  What holds is `Latch.TruePollsBounded` (never more trues than edges) together with
  `Latch.NoEdgeLost` (no edge goes unseen).

## Model

| member | source | states |
|---|---|---|
| `Display.ConfigureLines` | src/main.rs:67-101 | the five row lines start Low and the five column lines start High (the rest levels) |
| `Display.RenderPass` | src/main.rs:127-136 | one pass writes exactly the trace `PassTrace(b)` (the pulses of the lit cells in visiting order), and the final line levels are the old levels with that trace applied write by write |
| `Display.LitCellsExact` | src/main.rs:127-129 | the cells pulsed before position (r, c) are exactly the in-grid cells with bitmap value 1 whose row-major index is below 5r + c |
| `Display.LitCellsRowMajor` | src/main.rs:127-128 | the pulsed cells appear in strictly increasing row-major order, so no cell is pulsed twice |
| `Display.PassVisitsLitCells` | src/main.rs:127-129 | a whole pass pulses a cell if and only if its bitmap value is 1, and it pulses them in row-major order; cells valued 0 get no pulse |
| `Display.PassPulseWrites` | src/main.rs:130-133 | the trace is four writes per pulsed cell, in this order: its row High, its column Low, its row Low, its column High; no other line is written during that pulse |
| `Display.PulseEffect` | src/main.rs:130-133 | whatever the levels before, a pulse leaves its row Low and its column High and every other line unchanged |
| `Display.HeartPass` | src/main.rs:59-65 | the heart bitmap is 5x5, its lit cells are the ten listed in row-major order, and one pass over it is 40 line writes |
| `Display.PulsesKeepRest` | src/main.rs:130-133 | from the rest levels, any sequence of pulses of in-grid cells ends at the rest levels |
| `Display.PassRestoresRest` | src/main.rs:127-136 | from the rest levels, the lines are at rest after every completed pulse of a pass, and so after the pass |
| `Display.PulseLightsOneCell` | src/main.rs:130-133 | during a pulse from rest, the pulsed LED is energised after exactly the second write, and no LED is energised at any other point |
| `Display.PassLightsOneCellAtATime` | src/main.rs:127-136 | at every point of a pass that starts at rest, at most one LED is energised: it is the q-th pulsed cell, between the second and third write of its pulse |
| `Latch.PendingIffEdgeSinceLastPoll` | src/main.rs:123-124 | the flag is set if and only if a handler ran after the last test-and-clear (or nothing was polled yet and it started set) |
| `Latch.NoEdgeLost` | src/main.rs:123-124 | after any handler run, either a later test-and-clear returns true or the flag is still set at the end |
| `Latch.TruePollsBounded` | src/main.rs:123-124 | the polls that return true, plus one if the flag is still set, never exceed the number of handler runs (plus one if it started set) |
| `Latch.SetIdempotent` | src/main.rs:29 | one or more handler runs followed by two polls: the first poll returns true, the second false |
| `Latch.EdgesKeepPolled` | src/main.rs:29 | a handler run returns nothing to the loop: it leaves every poll result unchanged |
| `Latch.EdgeLatch.constructor` | src/main.rs:18 | the flag starts cleared, with an empty history |
| `Latch.EdgeLatch.Set` | src/main.rs:29 | the flag is set, whatever it was, and one `Edge` is added to the history |
| `Latch.EdgeLatch.TestAndClear` | src/main.rs:123-124 | returns the previous flag, leaves it cleared, and adds that value to the poll results of the history |
| `Latch.TestAndClearTwice` | src/main.rs:123-124 | two test-and-clears with no set in between return the previous flag and then false |
| `Latch.Gpiote.ResetEvents` | src/main.rs:25 | acknowledging the peripheral clears its latched event flags |
| `Latch.OnGpiote` | src/main.rs:21-30 | the handler acknowledges the peripheral when it is installed, and sets the flag whether it is installed or not |
| `MainLoop.Iterate` | src/main.rs:121-140 | the flag is tested and cleared on every iteration; a render writes the heart pass (40 writes) to the lines and prints nothing; idle prints exactly one `Wait for event.` line and leaves the lines unchanged; lines at rest stay at rest |
| `MainLoop.Step` | src/main.rs:122-125 | under the latch's event semantics, an iteration leaves the flag cleared and renders if and only if the flag was set, a handler ran just before, or the button reads as held |
| `MainLoop.IterateTick` | src/main.rs:121-140 | an iteration preceded by the handler (when `t.edge`) takes exactly the action `Step` gives from the old flag and leaves the flag as `Step` does, so the class-based latch and the loop's pure model agree; the history grows by that iteration's events; a render writes the heart pass to the lines and prints nothing, idle prints one `Wait for event.` and leaves the lines unchanged, lines at rest stay at rest; the peripheral's events are cleared when the handler ran and untouched otherwise |
| `MainLoop.LoopRendersIff` | src/main.rs:121-125 | over any run of iterations, iteration i renders if and only if a handler ran since the previous iteration, the button reads as held, or (for the first) the flag started set; otherwise it idles; the flag is clear after every iteration |

## Left out

- Peripheral acquisition and its `unwrap()` panics, pin configuration, UARTE setup and the
  `Hello, World!` write (src/main.rs:34-57, 108-114). These are hardware bring-up through the HAL.
  Only the initial line levels are modelled, by `Display.ConfigureLines`.
- NVIC unmask and priority (src/main.rs:103-106). This is platform interrupt configuration.
- The `cortex_m::interrupt::free` critical section, the `Mutex<RefCell<Option<Gpiote>>>` cell and
  `Ordering::Relaxed` (src/main.rs:17, 22-27, 115-117). They exist for concurrency, and the model is
  sequential. The cell's content is a parameter of `Latch.OnGpiote`: a `Gpiote?` that is null while empty.
- `asm::wfe()`, `rtt_init_print!` and RTT printing (src/main.rs:119, 138-139). Sleeping is the end of
  an idle iteration. A printed line is an element of `MainLoop.Iterate`'s `output`.
- The results of individual line writes (`let _ =`, src/main.rs:130-133). They are ignored in the
  source, so every write succeeds in the model.
- The loop never ends. It is modelled one iteration at a time (`MainLoop.Iterate`) and as finite runs of
  iterations (`MainLoop.Loop`).
- `Latch.Gpiote.ResetEvents` models `reset_events` only as clearing one event flag. The peripheral's
  registers are not part of this model.
