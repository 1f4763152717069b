# LED button matrix firmware: a Dafny model

This project models, and proves properties of, the real-time core of the firmware of a 6×10 RGB LED
button matrix. The firmware talks to a host controller as a slave on an I2C bus. The model follows
`src/main.cpp` and `src/ring-buffer.h`.

- **Event queue** (`ring_buffer.dfy`, module `RingBuffers`). `RingBuffer<T>` is the lock-free
  single-producer/single-consumer ring buffer. It is a class over an array, with a write cursor
  `head` and a read cursor `tail`, and it gives up one slot to tell full from empty. Its abstract
  contents are the slots from `tail` up to `head`. `Write` appends to them and `Read` removes the
  front.
- **BAM encoding** (`bam.dfy`, module `Bam`). `setColor` stores bit i of each 0-15 channel intensity
  in bit `row` of the stage-i mask `rgb[i][col][channel]`. `Encode` and `Level` are that encoding
  and its read-back, and `EncodeRoundTrip` proves that they undo each other.
- **Timer interrupt cursor and frame** (`scheduler.dfy`, module `Scheduler`). These are the
  `OCR1A`/column/stage update at the top of the ISR and the five bytes it shifts out.
- **Debounce state machine** (`debounce.dfy`, module `Debounce`). `Step` is one stage-0 reading of a
  column. `RowEvents` gives the events of a commit. `Run` is a sequence of readings, with its
  properties: confirmation after three equal readings, suppression of short glitches, and the lost
  release described below.
- **Host protocol** (`host_protocol.dfy`, module `HostProtocol`). This is the 4-byte colour command
  of `receiveEvent` and the 3-byte reply of `requestEvent`, including the `0xFF 0xFF 0xFF`
  "no event" sentinel.
- **Device state** (`matrix.dfy`, module `Matrix`). `Controller` is a class that holds the globals
  of `main.cpp`:
  - the `rgb` array;
  - the three per-column debounce arrays;
  - the event buffer;
  - the ISR cursor `column`, `bamCount`, `OCR1A`.

  Its methods are the handlers `SetColor`, `SetColorIndex`, `ReceiveEvent`, `RequestEvent` and
  `Tick`. Each one is an atomic step on the shared state. The methods are proved against the
  functions above: `SetColor` against `Encode`/`Cell`, `Tick` against `Advance`, `Frame` and `Step`,
  and `RequestEvent` against `Poll`.
- **Shared lemmas**. `bits.dfy` holds the bit-mask helpers and `seqs.dfy` holds small sequence
  lemmas.

Three places where the code does something other than what its comments and bit-angle modulation
lead one to expect:

- **Stage periods.** Bit-angle modulation needs stage i lit for a time proportional to 2^i, with
  stage 0 the shortest. The source says as much: the start count is "shifted in each following BAM
  stage by one" (`src/main.cpp:29`), and each doubling is commented "wait longer next time"
  (`src/main.cpp:161`). However, the code writes `OCR1A` in the ISR before it emits the stage. In
  CTC mode that write sets the length of the slot now starting, so stage 0 is shown for 128 counts
  and stages 1-3 for 16, 32 and 64. The model follows the code. `Scheduler.PeriodTable` and
  `Scheduler.OnTimeNotMonotone` state the consequence: brightness level 1 is lit eight times as long
  as level 2.
- **Lost release.** A commit leaves the counter at the threshold and keeps the change mask. A
  reading that flips exactly the same rows back is then never confirmed while it lasts. The model
  keeps this behaviour and proves it (`Debounce.LostRelease`, `Debounce.LostReleaseExample`).

  Related: an unchanged reading resets only the counter (`src/main.cpp:225-227`) and leaves the
  change mask pending. After a one-reading glitch, two readings of the same change are then enough
  to commit it (`Debounce.GlitchPrimes`). The three readings of `Debounce.ConfirmStableChange` are
  therefore what a change needs from a clean state, not a minimum in every state.
- **End slot.** `ring-buffer.h` computes the last slot with address arithmetic that scales by
  `sizeof(T)` twice. This is listed under Findings, and the controller's buffer uses the corrected
  last slot.

## Model

| member | source | states |
|---|---|---|
| RingBuffers.EndSlotAsWrittenInBounds | src/ring-buffer.h:13-14 | the end slot as computed lies inside the `size`-element allocation exactly when size is 1 or an element is one byte |
| RingBuffers.EndSlotAsWrittenForBytes | src/ring-buffer.h:14 | with one-byte elements the end slot as computed is the last slot |
| RingBuffers.EventBufferEndSlotOverruns | src/ring-buffer.h:14 | for the 10-slot buffer of 3-byte events the end slot as computed is 27, outside the block; the corrected one is 9 |
| RingBuffers.EndSlotAsWritten | src/ring-buffer.h:14 | the end slot as computed: the last slot for one-byte elements, and never before the last slot for wider ones |
| RingBuffers.EndSlot | src/ring-buffer.h:14 | the corrected end slot lies inside the block |
| RingBuffers.RingBuffer.Next | src/ring-buffer.h:20-22 | a cursor moved on stays within the block and wraps to the first slot exactly from the last one |
| RingBuffers.RingBuffer.Contents | src/ring-buffer.h:19-42 | the buffer holds at most one element fewer than its slots; it is empty exactly when `head == tail` |
| RingBuffers.RingBuffer.FullWhenNextIsTail | src/ring-buffer.h:20-23 | the buffer is full exactly when the slot after `head` is `tail` |
| RingBuffers.RingBuffer.constructor | src/ring-buffer.h:12-17 | a new buffer has both cursors on the first slot and is empty |
| RingBuffers.RingBuffer.Write | src/ring-buffer.h:19-31 | write succeeds exactly when the buffer is not full; on success it stores x at `head`, advances `head` with wrap-around and appends x to the contents; on refusal cursors, storage and contents are unchanged; `tail` never moves |
| RingBuffers.RingBuffer.WriteAppends | src/ring-buffer.h:23-25 | storing at `head` and advancing it appends the element to the slots from `tail` to `head` |
| RingBuffers.RingBuffer.Read | src/ring-buffer.h:33-42 | read succeeds exactly when the buffer is not empty; on success it yields the oldest element, advances `tail` with wrap-around and removes the front of the contents; on an empty buffer nothing changes; `head` never moves |
| RingBuffers.WriteAll | src/ring-buffer.h:19-31 | writes that fit all succeed and append the items in order |
| RingBuffers.ReadN | src/ring-buffer.h:33-42 | k reads return the first k queued items, oldest first, and leave the rest |
| RingBuffers.FillThenDrain | src/ring-buffer.h:19-42 | on an empty buffer, capacity-many writes succeed, the next one is refused, and as many reads return the items in insertion order |
| Bits.WithBit | src/main.cpp:58-66 | clear-then-maybe-set of bit k leaves bit k equal to the flag and every other bit as it was |
| Bits.Complement | src/main.cpp:175-177 | bitwise complement flips every bit |
| Bits.XorBit | src/main.cpp:191-211 | a row set in `dataIn ^ last` is set in `dataIn` exactly when it is clear in `last` |
| Bam.Level | src/main.cpp:54-67 | the read-back value is below 16 and bit i of it is bit `row` of stage mask i |
| Bam.Cell | src/main.cpp:45-67 | the effect of `setColor` on one mask: outside the grid or in another column the mask is unchanged; otherwise bit `row` becomes bit `stage` of the channel and every other bit is kept |
| Bam.Encode | src/main.cpp:54-67 | after writing intensity v into bit `row` of the four stage masks, that row reads back `v & 0xF` and every other row of every stage is unchanged |
| Bam.EncodeRoundTrip | src/main.cpp:43-67 | writing an intensity 0-15 and reading it back gives the intensity itself |
| Bam.CellsEncode | src/main.cpp:45-67 | the per-mask effect of `setColor` on one cell's four stage masks is exactly `Encode` of the channel's intensity |
| Bam.OffReadsZero | src/main.cpp:87-88 | switching a cell off makes every channel read back 0 |
| Bam.FullRedExample | src/main.cpp:54-67 | full red (15, 0, 0) sets the red row bit in all four stages and clears the green and blue ones |
| Scheduler.PeriodTable | src/main.cpp:119 | the compare values in force per stage: stage 0 gets 128, stages 1-3 get 16, 32, 64 |
| Scheduler.Period | src/main.cpp:158-161 | the compare value in force while a stage is shown lies between 16 and 128, and is 128 exactly for stage 0 |
| Scheduler.NextPeriod | src/main.cpp:158-161 | the new compare value fits the 16-bit register |
| Scheduler.NextPeriodCycles | src/main.cpp:158-165 | the period update turns the period of a stage into the period of the next stage |
| Scheduler.Advance | src/main.cpp:158-165 | the update keeps column and stage in range and the period paired with the stage; the period returns to 16 after 128 and doubles otherwise; the column moves, with wrap-around, exactly when the stage wraps to 0 |
| Scheduler.InitialValid | src/main.cpp:153-154 | the start cursor (column 9, stage 3, `OCR1A` 64) satisfies the stage/period pairing |
| Scheduler.AdvanceNValid | src/main.cpp:156-165 | the pairing holds after any number of ticks, and the stage after n ticks is the start stage plus n mod 4 |
| Scheduler.FourTicks | src/main.cpp:163-165 | four ticks move to the next column with stage and period as they were |
| Scheduler.FourTicksRepeated | src/main.cpp:163-165 | 4k ticks move k columns on |
| Scheduler.AdvanceNAdd | src/main.cpp:156-165 | m + n ticks are n ticks after m ticks |
| Scheduler.FullRefresh | src/main.cpp:156-165 | within 40 ticks every column is shown in every stage, and after 40 ticks the cursor is back where it started |
| Scheduler.OnTimeNotMonotone | src/main.cpp:158-161 | with the periods as written, intensity 1 is lit for 128 counts per refresh and intensity 2 for 16 |
| Scheduler.ColumnSelect | src/main.cpp:167 | the 16-bit column word has exactly the bit of the current column set |
| Scheduler.Frame | src/main.cpp:175-179 | the five bytes are the inverted red, blue and green masks, bit by bit, followed by the column word, high byte first |
| Debounce.Step | src/main.cpp:187-227 | a step commits exactly when the reading differs from the committed one, its change mask equals the pending one and the counter reaches the threshold now; the committed reading becomes `dataIn` only on commit; an unchanged reading resets the counter; a new change mask restarts the count; the counter never passes the threshold |
| Debounce.EventColumn | src/main.cpp:205 | the event column is the column latched one tick earlier, in range |
| Debounce.RowEvents | src/main.cpp:200-211 | every event of a commit carries the event column, a changed row below the bound, and `isPressed` 1 exactly when that row was clear in the committed reading |
| Debounce.RowEventsSorted | src/main.cpp:200-201 | events come in strictly ascending row order |
| Debounce.RowEventsComplete | src/main.cpp:200-201 | every changed row has its event |
| Debounce.CommitPolarity | src/main.cpp:191-211 | committing a change to reading d reports a press exactly for the rows that read 1 in d, and only rows 0-5 |
| Debounce.RunAppend | src/main.cpp:187-227 | running readings a then b is running b from where a ended, with the events concatenated |
| Debounce.Settled | src/main.cpp:225-227 | readings equal to the committed value produce nothing and keep the counter at 0 |
| Debounce.ThreeReadings | src/main.cpp:188-221 | three equal readings of a new value produce one event per changed row and commit it, outside the lost-release state |
| Debounce.ConfirmStableChange | src/main.cpp:188-221 | a new value held for three or more readings produces exactly the events of its changed rows once and becomes the committed value |
| Debounce.NoiseSuppressed | src/main.cpp:188-227 | from a settled counter, glitches that last one reading produce no event and leave the committed value |
| Debounce.GlitchPrimes | src/main.cpp:192-198 | a one-reading glitch is not reported but leaves its change pending, so from a released column the readings 1, 0, 1, 1 commit the press |
| Debounce.LostRelease | src/main.cpp:196-198 | after a commit, readings that flip the same rows back are never reported while they persist |
| Debounce.LostReleaseExample | src/main.cpp:188-221 | a button pressed for three readings and then released for good reports the press only, and the committed reading stays "pressed" |
| HostProtocol.ParseColorCommand | src/main.cpp:78-83 | a message is a command exactly when it has four bytes, read in the order row, column, isOn, colour |
| HostProtocol.ParseEncode | src/main.cpp:78-83 | every command survives the trip across the bus |
| HostProtocol.CommandColor | src/main.cpp:85-88 | a command with isOn 0 paints every channel 0; otherwise each channel is the palette entry's |
| HostProtocol.SerializeEvent | src/main.cpp:96 | the reply carrying an event has three bytes |
| HostProtocol.Poll | src/main.cpp:93-104 | a poll of an empty queue answers the sentinel and leaves the queue empty; otherwise it removes the oldest event |
| HostProtocol.PollDecodes | src/main.cpp:93-104 | the host decodes the oldest event from the reply to a poll of a non-empty queue, and "no event" from the reply for an empty one: a legal event never looks like the sentinel |
| HostProtocol.CommitEventsLegal | src/main.cpp:200-211 | every event the debounce machine commits has column 0-9, row 0-5 and isPressed 0 or 1 |
| Matrix.CommitRows | src/main.cpp:200-217 | the commit loop queues the events of the changed rows in ascending order; it stops at the first refused write, and then the queue holds exactly the events that fitted and is full |
| Matrix.Controller.constructor | src/main.cpp:30-40 | power-on state: all masks and debounce entries 0, an empty event buffer of 10 slots (9 usable), cursor column 9, stage 3, `OCR1A` 64 |
| Matrix.Controller.PaintStage | src/main.cpp:54-67 | one loop pass rewrites bit `row` of the three stage-i masks of column `col` as `Cell` says and touches no other stage |
| Matrix.Controller.SetColor | src/main.cpp:45-68 | every mask becomes `Cell` of its old value; an out-of-grid cell changes nothing; in the grid each channel's stage masks become `Encode` of the intensity, and the cell reads back the intensity's low four bits |
| Matrix.Controller.SetColorIndex | src/main.cpp:72-74 | paints the palette entry of the colour index |
| Matrix.Controller.ReceiveEvent | src/main.cpp:77-90 | a message whose length is not 4 changes nothing; a 4-byte message paints the palette colour, or black when isOn is 0, and then the cell reads back 0 on every channel |
| Matrix.Controller.RequestEvent | src/main.cpp:93-104 | the reply and the remaining queue are exactly `Poll` of the queue before; the host decodes the reply as the oldest queued event, or as "no event" exactly when the queue was empty, because the device only ever queues legal events |
| Matrix.Controller.AdvanceCursor | src/main.cpp:158-165 | the cursor becomes `Advance` of the old cursor |
| Matrix.Controller.StoreEntry | src/main.cpp:193-198 | the column's debounce entry is replaced and no other entry changes (the stores of lines 193-194, 198, 220 and 226) |
| Matrix.Controller.DebounceColumn | src/main.cpp:187-227 | the entry of `column` becomes its `Step` successor and a commit queues its events, keeping every queued event legal; when a write is refused, the device stops with the counter at the threshold, the committed reading not updated and the queue full; other entries are unchanged |
| Matrix.Controller.Tick | src/main.cpp:156-228 | the cursor advances as `Advance` says; the frame is `Frame` of the masks of the new stage and column; off stage 0 nothing else changes; at stage 0 the reading is debounced as `DebounceColumn` states |

## Left out

- Hardware I/O: `SPI.transfer`, `digitalWrite` on the latch pin and the `Wire` bus. The reading
  `dataIn` is a parameter of `Tick`, the frame is its result, the bytes received are a parameter of
  `ReceiveEvent` and the reply is the result of `RequestEvent`. `Serial` debug output is not
  modelled.
- `setup` and `loop`: the timer registers, the bus set-up and the start-up colour pattern. Only their
  effect on the modelled state, the initial `OCR1A` and the buffer creation, is in the constructor.
- Concurrency. Each handler is one atomic step. The model does not cover `cli`/`sei`, a bus callback
  interrupted by the timer in the middle of `setColor` (visual tearing), or the two-context
  discipline of the lock-free buffer.
- The `colors` table of `colors.h` is not part of this model. It is a parameter `palette` of
  `SetColorIndex` and `ReceiveEvent`, so a colour index past the end of the table is not modelled.
- `button-event.h` and `change-color-event.h` are not part of this model. The event is three
  one-byte fields sent in the order column, row, isPressed, and the command is four one-byte fields.
- `malloc` and `memcpy`: the block is a Dafny array of `size` elements, and copying an element is an
  assignment. The `uint16_t` bound on `size` and a buffer of size 0 are not modelled (the
  constructor requires `1 <= size`).
- Matrix.Controller.Tick: requires that the device has not halted, and so do `SetColor`,
  `SetColorIndex`, `ReceiveEvent` and `RequestEvent`. After a refused write, the source spins
  forever inside the ISR with interrupts off (`src/main.cpp:157`, `212-217`). No later interrupt
  and no bus callback runs. The model records this as `halted`, and no handler can be called
  after it.
- Matrix.Controller.DebounceColumn: the model computes the new entry first and stores it after the
  commit loop. The source stores the counter and change mask before the loop. The final state is
  the same because the ISR runs with interrupts off. On a refused write, the source never finishes
  the ISR.
- Matrix.Controller.PaintStage: computes the three new masks before storing any of them. The source
  clears all three and then sets them. Only the final values are stated, which matches the atomic
  view above.
- RingBuffers.RingBuffer.Read: when the read is refused, the source leaves the caller's element
  untouched. Here the element returned is unspecified.

## Findings

| source | as written | input that shows it | evidently intended | confidence | as-written member | corrected member |
|---|---|---|---|---|---|---|
| src/ring-buffer.h:14 | the end address is the start address of a `T*` plus `(size - 1) * sizeof(T)`, which `T*` arithmetic scales by `sizeof(T)` again, so the last slot is `(size - 1) * sizeof(T)` | `RingBuffer<ButtonEvent>(10)` in src/main.cpp:136 with a 3-byte event: last slot 27 of a 10-slot block, so `write` and `read` run past the allocation | last slot `size - 1`, giving `size - 1` usable slots inside the block | not executed | RingBuffers.EventBufferEndSlotOverruns | RingBuffers.EndSlot |
