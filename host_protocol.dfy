/** The two I2C slave callbacks of main.cpp as functions of the bytes on the
    bus: `receiveEvent` reads a 4-byte colour command, `requestEvent` answers
    a poll with the oldest button event or a 3-byte "no event" sentinel. */
module HostProtocol {
  import opened Bits
  import opened Bam
  import opened Debounce

  datatype Option<T> = None | Some(value: T)

  /** `ChangeColorEvent`: the four command bytes in the order they are read. */
  datatype ColorCommand = ColorCommand(row: bv8, column: bv8, isOn: bv8, color: bv8)

  /** The bytes a host sends for command c. */
  function EncodeColorCommand(c: ColorCommand): (b: seq<bv8>)
    ensures |b| == 4
  {
    [c.row, c.column, c.isOn, c.color]
  }

  /** A message is a command exactly when it has 4 bytes; messages of any
      other length are ignored. */
  function ParseColorCommand(bytes: seq<bv8>): (r: Option<ColorCommand>)
    ensures r.Some? <==> |bytes| == 4
    ensures r.Some? ==> EncodeColorCommand(r.value) == bytes
  {
    if |bytes| == 4 then Some(ColorCommand(bytes[0], bytes[1], bytes[2], bytes[3])) else None
  }

  /** Every command survives the trip across the bus. */
  lemma ParseEncode(c: ColorCommand)
    ensures ParseColorCommand(EncodeColorCommand(c)) == Some(c)
  {
  }

  /** The colour a command paints: the palette entry `colors[color]` when
      `isOn` is non-zero, otherwise (0, 0, 0) whatever the colour byte. */
  function CommandColor(c: ColorCommand, palette: bv8 -> Rgb): (r: Rgb)
    ensures c.isOn == 0 ==> forall ch :: 0 <= ch < NUMBER_OF_COLORS ==> Channel(r, ch) == 0
    ensures c.isOn != 0 ==> forall ch :: 0 <= ch < NUMBER_OF_COLORS ==> Channel(r, ch) == Channel(palette(c.color), ch)
  {
    if c.isOn != 0 then palette(c.color) else Black
  }

  /** The reply to a poll when the queue is empty. */
  const NoEvent: seq<bv8> := [0xFF, 0xFF, 0xFF]

  /** The reply carrying event e: its three fields, column, row, isPressed. */
  function SerializeEvent(e: ButtonEvent): (b: seq<bv8>)
    ensures |b| == 3
  {
    [e.column as bv8, e.row as bv8, e.isPressed as bv8]
  }

  /** How the host reads a 3-byte reply. */
  function DecodeResponse(b: seq<bv8>): Option<ButtonEvent>
    requires |b| == 3
  {
    if b == NoEvent then None else Some(ButtonEvent(b[0] as nat, b[1] as nat, b[2] as nat))
  }

  /** The reply to one poll and the queue left behind. */
  datatype PollResult = PollResult(response: seq<bv8>, rest: seq<ButtonEvent>)

  /** `requestEvent` on the queue's contents, oldest first. */
  function Poll(queue: seq<ButtonEvent>): (r: PollResult)
    ensures |r.response| == 3
    ensures queue == [] ==> r == PollResult(NoEvent, [])
    ensures queue != [] ==> [queue[0]] + r.rest == queue
  {
    if queue == [] then PollResult(NoEvent, []) else PollResult(SerializeEvent(queue[0]), queue[1..])
  }

  /** A legal event: column 0-9, row 0-5, isPressed 0 or 1. */
  predicate Legal(e: ButtonEvent)
  {
    e.column < COLS && e.row < ROWS && e.isPressed <= 1
  }

  /** The sentinel is unambiguous: the host decodes the oldest event from the
      reply to a poll of a non-empty queue whose oldest event is legal, and
      "no event" from the reply to a poll of an empty queue. */
  lemma PollDecodes(queue: seq<ButtonEvent>)
    requires queue != [] ==> Legal(queue[0])
    ensures DecodeResponse(Poll(queue).response) == if queue == [] then None else Some(queue[0])
  {
    if queue != [] {
      var e := queue[0];
      var b := SerializeEvent(e);
      assert b[0] != 0xFF;
      assert b != NoEvent;
      assert b[0] as nat == e.column && b[1] as nat == e.row && b[2] as nat == e.isPressed;
    }
  }

  /** Every event the debounce machine commits is legal. */
  lemma CommitEventsLegal(column: nat, s: ColumnState)
    requires column < COLS
    ensures forall e :: e in CommitEvents(EventColumn(column), s) ==> Legal(e)
  {
  }
}
