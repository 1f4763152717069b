/** The state of main.cpp and its three handlers: the timer interrupt (Tick),
    the I2C receive callback (ReceiveEvent) and the I2C request callback
    (RequestEvent).  Every handler is one atomic step on the shared state;
    the shift-register and bus transfers are parameters and results. */
module Matrix {
  import opened Bits
  import opened Seqs
  import opened Bam
  import opened Scheduler
  import opened Debounce
  import opened HostProtocol
  import opened RingBuffers

  const BUTTON_EVENT_BUFFER_SIZE: nat := 10

  /** The queue `after` and the flag `halted` that result from writing evs
      one by one into a queue holding `before` with room for cap events,
      stopping at the first refused write: either all are queued, or the
      queue is filled to capacity with the first ones and the rest are lost. */
  predicate Enqueued(before: seq<ButtonEvent>, evs: seq<ButtonEvent>, cap: nat, halted: bool, after: seq<ButtonEvent>)
  {
    && (halted <==> |before| + |evs| > cap)
    && (!halted ==> after == before + evs)
    && (halted ==> after == (before + evs)[..cap])
  }

  /** A refused write after the events `done`, a proper prefix of evs, with
      the queue full. */
  lemma RefusedStops(before: seq<ButtonEvent>, done: seq<ButtonEvent>, evs: seq<ButtonEvent>, cap: nat)
    requires done <= evs && |done| < |evs| && |before| + |done| == cap
    ensures Enqueued(before, evs, cap, true, before + done)
  {
    assert (before + evs)[..cap] == before + done;
  }

  /** Queueing legal events on a queue of legal events leaves only legal
      events, whether or not the queue filled up on the way. */
  lemma EnqueuedLegal(before: seq<ButtonEvent>, evs: seq<ButtonEvent>, cap: nat, halted: bool, after: seq<ButtonEvent>)
    requires Enqueued(before, evs, cap, halted, after)
    requires forall e :: e in before ==> Legal(e)
    requires forall e :: e in evs ==> Legal(e)
    ensures forall e :: e in after ==> Legal(e)
  {
    forall e | e in after
      ensures Legal(e)
    {
      var i :| 0 <= i < |after| && after[i] == e;
      assert e == (before + evs)[i];
    }
  }

  /** The row loop of a commit for the column latched as `column`, whose
      pending change is `changed` and last stable reading `last`: one event per
      changed row, ascending, written to the buffer b; the loop stops at the
      first refused write, which reports `ok == false`. */
  method CommitRows(b: RingBuffer<ButtonEvent>, column: nat, changed: bv8, last: bv8) returns (ok: bool)
    requires b.Valid() && column < COLS
    modifies b`head, b.data
    ensures b.Valid()
    ensures Enqueued(old(b.Contents()), RowEvents(EventColumn(column), changed, last, ROWS), b.Capacity(), !ok, b.Contents())
  {
    ghost var before := b.Contents();
    var eventColumn := EventColumn(column);
    for row := 0 to ROWS
      invariant b.Valid()
      invariant b.Contents() == before + RowEvents(eventColumn, changed, last, row)
    {
      RowEventsNext(eventColumn, changed, last, row);
      if Bit(changed, row) {
        var btEvent := ButtonEvent(eventColumn, row, if Bit(last, row) then 0 else 1);
        ok := b.Write(btEvent);
        if !ok {
          RowEventsPrefix(eventColumn, changed, last, row + 1, ROWS);
          RefusedStops(before, RowEvents(eventColumn, changed, last, row), RowEvents(eventColumn, changed, last, ROWS), b.Capacity());
          return;
        }
        AppendAssoc(before, RowEvents(eventColumn, changed, last, row), [btEvent]);
      } else {
        AppendNil(RowEvents(eventColumn, changed, last, row));
      }
    }
    ok := true;
  }

  /** The branches of the debounce step on one column's entry s and the
      reading `dataIn`, on local copies of the three entries: the new entry
      and whether the pending change is confirmed. */
  method DecideStep(s: ColumnState, dataIn: bv8) returns (next: ColumnState, commit: bool)
    ensures Step(s, dataIn) == StepResult(next, commit)
  {
    if dataIn != s.last {
      var changes := dataIn ^ s.last;
      if changes != s.changed {
        next, commit := ColumnState(s.last, changes, 0), false;
        StepRestart(s, dataIn);
      } else if s.counter < BUTTON_INPUT_DEBOUNCE_CONSTANT {
        var counter := s.counter + 1;
        if counter >= BUTTON_INPUT_DEBOUNCE_CONSTANT {
          next, commit := ColumnState(dataIn, s.changed, counter), true;
          StepConfirm(s, dataIn);
        } else {
          next, commit := ColumnState(s.last, s.changed, counter), false;
          StepCount(s, dataIn);
        }
      } else {
        next, commit := s, false;
        StepSaturated(s, dataIn);
      }
    } else {
      next, commit := ColumnState(s.last, s.changed, 0), false;
      StepSame(s, dataIn);
    }
  }

  class Controller {
    /** Precomputed BAM masks `rgb[stage][column][colour]`. */
    const rgb: array3<bv8>
    /** Debounce state per column. */
    const lastButtonInput: array<bv8>
    const buttonInputCounter: array<nat>
    const buttonInputChanged: array<bv8>
    /** Button events from the interrupt to the poll handler. */
    const buttonEventBuffer: RingBuffer<ButtonEvent>
    /** Interrupt cursor and the timer's compare register `OCR1A`. */
    var column: nat
    var bamCount: nat
    var ocr1a: nat
    /** The interrupt found the buffer full and spins in its error loop. */
    var halted: bool

    ghost predicate Valid()
      reads this, buttonInputCounter, buttonEventBuffer, buttonEventBuffer.data
    {
      && Shape() && CursorInv(Cursor(column, bamCount, ocr1a)) && CountersBounded() && buttonEventBuffer.Valid()
      && QueueLegal()
    }

    /** The dimensions of the arrays and the buffer, and which arrays are
        distinct; all fixed at construction. */
    ghost predicate Shape()
    {
      && rgb.Length0 == BAM_STAGES && rgb.Length1 == COLS && rgb.Length2 == NUMBER_OF_COLORS
      && lastButtonInput.Length == COLS && buttonInputCounter.Length == COLS
      && buttonInputChanged.Length == COLS && lastButtonInput != buttonInputChanged
      && buttonEventBuffer.Capacity() == BUTTON_EVENT_BUFFER_SIZE - 1
      && buttonEventBuffer.data as object != lastButtonInput
      && buttonEventBuffer.data as object != buttonInputChanged
      && buttonEventBuffer.data as object != buttonInputCounter
      && lastButtonInput as object != buttonInputCounter && buttonInputChanged as object != buttonInputCounter
    }

    /** No counter passes the debounce threshold. */
    ghost predicate CountersBounded()
      reads buttonInputCounter
    {
      forall c :: 0 <= c < buttonInputCounter.Length ==> buttonInputCounter[c] <= BUTTON_INPUT_DEBOUNCE_CONSTANT
    }

    /** The queued events, oldest first. */
    ghost function Queue(): seq<ButtonEvent>
      reads buttonEventBuffer, buttonEventBuffer.data
      requires buttonEventBuffer.Valid()
    {
      buttonEventBuffer.Contents()
    }

    /** Every queued event is legal, so no reply is mistaken for the
        "no event" sentinel. */
    ghost predicate QueueLegal()
      reads buttonEventBuffer, buttonEventBuffer.data
      requires buttonEventBuffer.Valid()
    {
      forall e :: e in Queue() ==> Legal(e)
    }

    /** The debounce entry of column c, from the three parallel arrays. */
    ghost function Entry(c: nat): ColumnState
      reads lastButtonInput, buttonInputChanged, buttonInputCounter
      requires Shape() && c < COLS
    {
      ColumnState(lastButtonInput[c], buttonInputChanged[c], buttonInputCounter[c])
    }

    /** Entry c is now e and every other entry is as it was. */
    twostate predicate EntryBecomes(c: nat, e: ColumnState)
      reads lastButtonInput, buttonInputChanged, buttonInputCounter
      requires Shape() && c < COLS
    {
      && Entry(c) == e
      && forall c' :: 0 <= c' < COLS && c' != c ==> Entry(c') == old(Entry(c'))
    }

    /** The four stage masks of column c, colour ch. */
    ghost function Stages(c: nat, ch: nat): (m: seq<bv8>)
      reads rgb
      requires rgb.Length0 == BAM_STAGES && c < rgb.Length1 && ch < rgb.Length2
      ensures |m| == BAM_STAGES
    {
      [rgb[0, c, ch], rgb[1, c, ch], rgb[2, c, ch], rgb[3, c, ch]]
    }

    /** Every mask is what `setColor(row, col, color)` makes of its old value. */
    twostate predicate Painted(row: bv8, col: bv8, color: Rgb)
      reads rgb
      requires rgb.Length0 == BAM_STAGES && rgb.Length1 == COLS && rgb.Length2 == NUMBER_OF_COLORS
    {
      forall i, c, ch :: 0 <= i < BAM_STAGES && 0 <= c < COLS && 0 <= ch < NUMBER_OF_COLORS ==>
        rgb[i, c, ch] == Cell(old(rgb[i, c, ch]), i, c, ch, row, col, color)
    }

    /** Power-on state: all masks and debounce entries 0, an empty event
        buffer of 10 slots, and the cursor of main.cpp:119 and 153-154. */
    constructor ()
      ensures Valid() && !halted
      ensures fresh(rgb) && fresh(lastButtonInput) && fresh(buttonInputCounter) && fresh(buttonInputChanged)
      ensures fresh(buttonEventBuffer) && fresh(buttonEventBuffer.data)
      ensures Cursor(column, bamCount, ocr1a) == Initial
      ensures Queue() == []
      ensures forall c :: 0 <= c < COLS ==> Entry(c) == ColumnState(0, 0, 0)
      ensures forall i, c, ch :: 0 <= i < BAM_STAGES && 0 <= c < COLS && 0 <= ch < NUMBER_OF_COLORS ==>
        rgb[i, c, ch] == 0
    {
      rgb := new bv8[BAM_STAGES, COLS, NUMBER_OF_COLORS]((_, _, _) => 0);
      lastButtonInput := new bv8[COLS](_ => 0);
      buttonInputCounter := new nat[COLS](_ => 0);
      buttonInputChanged := new bv8[COLS](_ => 0);
      buttonEventBuffer := new RingBuffer<ButtonEvent>(BUTTON_EVENT_BUFFER_SIZE, EndSlot(BUTTON_EVENT_BUFFER_SIZE));
      column := COLS - 1;
      bamCount := BAM_STAGES - 1;
      ocr1a := Shl(BAM_INIT_COUNT, BAM_STAGES - 2);
      halted := false;
      InitialValid();
    }

    /** One stage of `setColor`: bit `row` of the three masks of stage i,
        column `col`, is cleared and set again in each mask whose channel has
        bit i. */
    method PaintStage(i: nat, row: bv8, col: bv8, color: Rgb)
      requires i < BAM_STAGES && InGrid(row, col)
      requires rgb.Length0 == BAM_STAGES && rgb.Length1 == COLS && rgb.Length2 == NUMBER_OF_COLORS
      modifies rgb
      ensures forall c, ch :: 0 <= c < COLS && 0 <= ch < NUMBER_OF_COLORS ==>
        rgb[i, c, ch] == Cell(old(rgb[i, c, ch]), i, c, ch, row, col, color)
      ensures forall i', c, ch :: 0 <= i' < BAM_STAGES && i' != i && 0 <= c < COLS && 0 <= ch < NUMBER_OF_COLORS ==>
        rgb[i', c, ch] == old(rgb[i', c, ch])
    {
      var r, c := row as nat, col as nat;
      var newRed := WithBit(rgb[i, c, RGB_RED], r, Bit(color.red, i));
      var newGreen := WithBit(rgb[i, c, RGB_GREEN], r, Bit(color.green, i));
      var newBlue := WithBit(rgb[i, c, RGB_BLUE], r, Bit(color.blue, i));
      rgb[i, c, RGB_RED] := newRed;
      rgb[i, c, RGB_BLUE] := newBlue;
      rgb[i, c, RGB_GREEN] := newGreen;
      forall c', ch | 0 <= c' < COLS && 0 <= ch < NUMBER_OF_COLORS
        ensures rgb[i, c', ch] == Cell(old(rgb[i, c', ch]), i, c', ch, row, col, color)
      {
        if c' == c {
          assert ch == RGB_RED || ch == RGB_GREEN || ch == RGB_BLUE;
        }
      }
    }

    /** `setColor(row, col, red, green, blue)`: for each stage i, clear bit
        `row` of the three masks of column `col` and set it again for each
        channel whose intensity has bit i; a cell outside the grid is
        ignored. */
    method SetColor(row: bv8, col: bv8, red: bv8, green: bv8, blue: bv8)
      requires Valid() && !halted
      modifies rgb
      ensures Valid()
      ensures Painted(row, col, Rgb(red, green, blue))
      ensures !InGrid(row, col) ==> unchanged(rgb)
      ensures InGrid(row, col) ==> forall ch :: 0 <= ch < NUMBER_OF_COLORS ==>
        Stages(col as nat, ch) == Encode(old(Stages(col as nat, ch)), row as nat, Channel(Rgb(red, green, blue), ch))
      ensures InGrid(row, col) ==> forall ch :: 0 <= ch < NUMBER_OF_COLORS ==>
        Level(Stages(col as nat, ch), row as nat) == Channel(Rgb(red, green, blue), ch) & 0xF
    {
      if row as nat >= ROWS {
        return;
      }
      if col as nat >= COLS {
        return;
      }
      var r, c := row as nat, col as nat;
      var color := Rgb(red, green, blue);
      for i := 0 to BAM_STAGES
        invariant forall i', c', ch :: 0 <= i' < BAM_STAGES && 0 <= c' < COLS && 0 <= ch < NUMBER_OF_COLORS ==>
          rgb[i', c', ch] == if i' < i then Cell(old(rgb[i', c', ch]), i', c', ch, row, col, color) else old(rgb[i', c', ch])
      {
        PaintStage(i, row, col, color);
      }
      forall ch | 0 <= ch < NUMBER_OF_COLORS
        ensures Stages(c, ch) == Encode(old(Stages(c, ch)), r, Channel(color, ch))
      {
        CellsEncode(old(Stages(c, ch)), c, ch, row, col, color);
      }
    }

    /** `setColor(row, col, color)`: the palette entry `colors[color]`; the
        colour table is a parameter. */
    method SetColorIndex(row: bv8, col: bv8, color: bv8, palette: bv8 -> Rgb)
      requires Valid() && !halted
      modifies rgb
      ensures Valid()
      ensures Painted(row, col, palette(color))
      ensures !InGrid(row, col) ==> unchanged(rgb)
    {
      var entry := palette(color);
      SetColor(row, col, entry.red, entry.green, entry.blue);
    }

    /** `receiveEvent`: a 4-byte message (row, column, isOn, colour) paints
        the palette colour, or black when isOn is 0; any other message
        length changes nothing. */
    method ReceiveEvent(bytes: seq<bv8>, palette: bv8 -> Rgb)
      requires Valid() && !halted
      modifies rgb
      ensures Valid()
      ensures |bytes| != 4 ==> unchanged(rgb)
      ensures |bytes| == 4 ==> Painted(bytes[0], bytes[1], CommandColor(ParseColorCommand(bytes).value, palette))
      ensures |bytes| == 4 && bytes[2] == 0 && InGrid(bytes[0], bytes[1]) ==>
        var row, col := bytes[0] as nat, bytes[1] as nat;
        forall ch :: 0 <= ch < NUMBER_OF_COLORS ==> Level(Stages(col, ch), row) == 0
    {
      var command := ParseColorCommand(bytes);
      if command.Some? {
        var cmd := command.value;
        if cmd.isOn != 0 {
          SetColorIndex(cmd.row, cmd.column, cmd.color, palette);
        } else {
          SetColor(cmd.row, cmd.column, 0, 0, 0);
          assert Black == Rgb(0, 0, 0);
        }
      }
    }

    /** `requestEvent`: the oldest queued event is removed and sent, or the
        "no event" sentinel is sent and the queue stays as it was. */
    method RequestEvent() returns (response: seq<bv8>)
      requires Valid() && !halted
      modifies buttonEventBuffer
      ensures Valid()
      ensures PollResult(response, Queue()) == Poll(old(Queue()))
      ensures |response| == 3 && DecodeResponse(response) == if old(Queue()) == [] then None else Some(old(Queue())[0])
    {
      PollDecodes(Queue());
      var ok, btEvent := buttonEventBuffer.Read();
      if ok {
        response := SerializeEvent(btEvent);
      } else {
        response := NoEvent;
      }
    }

    /** The cursor update at the top of the interrupt. */
    method AdvanceCursor()
      requires Valid()
      modifies this`column, this`bamCount, this`ocr1a
      ensures Valid()
      ensures Cursor(column, bamCount, ocr1a) == Advance(old(Cursor(column, bamCount, ocr1a)))
    {
      if ocr1a >= Shl(BAM_INIT_COUNT, BAM_STAGES - 1) {
        ocr1a := BAM_INIT_COUNT;
      } else {
        ocr1a := (ocr1a * 2) % 0x1_0000;
      }
      if bamCount >= BAM_STAGES - 1 {
        column := (column + 1) % COLS;
      }
      bamCount := (bamCount + 1) % BAM_STAGES;
    }

    /** The effect of one debounce step on the reading `dataIn` for the
        entry `column`: the entry becomes its `Step` successor and the events
        of a commit are queued, or, when a write was refused, the device stops
        with the counter at the threshold, `lastButtonInput` not updated and
        the queue full. */
    twostate predicate Debounced(dataIn: bv8)
      reads this, lastButtonInput, buttonInputChanged, buttonInputCounter, buttonEventBuffer, buttonEventBuffer.data
      requires Shape() && column < COLS
      requires old(buttonEventBuffer.Valid()) && buttonEventBuffer.Valid()
    {
      var c := column;
      var s := old(Entry(c));
      var r := Step(s, dataIn);
      && Enqueued(old(Queue()), if r.commit then CommitEvents(EventColumn(column), s) else [],
                  buttonEventBuffer.Capacity(), halted, Queue())
      && EntryBecomes(column, if halted then s.(counter := BUTTON_INPUT_DEBOUNCE_CONSTANT) else r.next)
    }

    /** Entry c becomes e; nothing else changes. */
    method StoreEntry(c: nat, e: ColumnState)
      requires Valid() && c < COLS && e.counter <= BUTTON_INPUT_DEBOUNCE_CONSTANT
      modifies lastButtonInput, buttonInputCounter, buttonInputChanged
      ensures Valid()
      ensures EntryBecomes(c, e)
    {
      lastButtonInput[c] := e.last;
      buttonInputChanged[c] := e.changed;
      buttonInputCounter[c] := e.counter;
    }

    /** The debounce branch of the interrupt, taken at stage 0, on the
        column entry `column` with the reading `dataIn`. */
    method DebounceColumn(dataIn: bv8)
      requires Valid() && !halted
      modifies lastButtonInput, buttonInputCounter, buttonInputChanged
      modifies buttonEventBuffer, buttonEventBuffer.data, this`halted
      ensures Valid()
      ensures Debounced(dataIn)
    {
      var c := column;
      var last, changed := lastButtonInput[c], buttonInputChanged[c];
      var next, commit := DecideStep(ColumnState(last, changed, buttonInputCounter[c]), dataIn);
      if commit {
        ghost var before := Queue();
        var ok := CommitRows(buttonEventBuffer, c, changed, last);
        CommitEventsLegal(c, ColumnState(last, changed, 0));
        EnqueuedLegal(before, RowEvents(EventColumn(c), changed, last, ROWS), buttonEventBuffer.Capacity(), !ok, Queue());
        if !ok {
          halted := true;
          next := next.(last := last);
        }
      }
      StoreEntry(c, next);
    }

    /** `ISR(TIMER1_COMPA_vect)`: advance the cursor, shift out the frame of
        the new (stage, column), and at stage 0 debounce the reading `dataIn`
        that came back from the previous column. */
    method Tick(dataIn: bv8) returns (frame: seq<bv8>)
      requires Valid() && !halted
      modifies this, lastButtonInput, buttonInputCounter, buttonInputChanged
      modifies buttonEventBuffer, buttonEventBuffer.data
      ensures Valid()
      ensures Cursor(column, bamCount, ocr1a) == Advance(old(Cursor(column, bamCount, ocr1a)))
      ensures frame == Frame(rgb[bamCount, column, RGB_RED], rgb[bamCount, column, RGB_BLUE],
                             rgb[bamCount, column, RGB_GREEN], column)
      ensures bamCount != 0 ==> EntryBecomes(column, old(Entry(column))) && Queue() == old(Queue()) && !halted
      ensures bamCount == 0 ==> Debounced(dataIn)
    {
      AdvanceCursor();
      frame := Frame(rgb[bamCount, column, RGB_RED], rgb[bamCount, column, RGB_BLUE],
                     rgb[bamCount, column, RGB_GREEN], column);
      if bamCount == 0 {
        DebounceColumn(dataIn);
      }
    }
  }
}
