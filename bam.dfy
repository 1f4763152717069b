/** Bit-angle-modulation encoding of main.cpp: `setColor` stores the four bits
    of each 0-15 channel intensity in bit `row` of four per-stage row masks
    `rgb[stage][col][channel]`, stage i holding bit i. */
module Bam {
  import opened Bits

  const ROWS: nat := 6
  const COLS: nat := 10
  const BAM_STAGES: nat := 4
  const NUMBER_OF_COLORS: nat := 3

  /** Shift-register positions of the colours. */
  const RGB_RED: nat := 0
  const RGB_GREEN: nat := 1
  const RGB_BLUE: nat := 2

  /** A colour as three channel intensities, each meant to be 0-15. */
  datatype Rgb = Rgb(red: bv8, green: bv8, blue: bv8)

  const Black := Rgb(0, 0, 0)

  /** The intensity of channel ch (RGB_RED, RGB_GREEN or RGB_BLUE). */
  function Channel(color: Rgb, ch: nat): bv8
    requires ch < NUMBER_OF_COLORS
  {
    if ch == RGB_RED then color.red else if ch == RGB_GREEN then color.green else color.blue
  }

  /** The range checks at the top of `setColor`. */
  predicate InGrid(row: bv8, col: bv8)
  {
    row as nat < ROWS && col as nat < COLS
  }

  /** The mask `rgb[stage][c][ch]` after `setColor(row, col, color)` when it
      was m before: only bit `row` of column `col` is rewritten, and only for
      a cell inside the grid. */
  function Cell(m: bv8, stage: nat, c: nat, ch: nat, row: bv8, col: bv8, color: Rgb): (r: bv8)
    requires stage < BAM_STAGES && ch < NUMBER_OF_COLORS
    ensures !InGrid(row, col) || c != col as nat ==> r == m
    ensures InGrid(row, col) && c == col as nat ==>
      Bit(r, row as nat) == Bit(Channel(color, ch), stage)
      && forall j :: 0 <= j < 8 && j != row as nat ==> Bit(r, j) == Bit(m, j)
  {
    if InGrid(row, col) && c == col as nat then WithBit(m, row as nat, Bit(Channel(color, ch), stage)) else m
  }

  /** The number read back from bit `row` of the four stage masks of one
      column and channel, stage 0 as the least significant bit. */
  function Level(stages: seq<bv8>, row: nat): (v: bv8)
    requires |stages| == BAM_STAGES && row < 8
    ensures v < 16
    ensures forall i :: 0 <= i < BAM_STAGES ==> Bit(v, i) == Bit(stages[i], row)
  {
    (if Bit(stages[0], row) then 1 else 0) | (if Bit(stages[1], row) then 2 else 0)
    | (if Bit(stages[2], row) then 4 else 0) | (if Bit(stages[3], row) then 8 else 0)
  }

  /** Two masks with the same eight bits are equal. */
  lemma MaskExt(a: bv8, b: bv8)
    requires forall k :: 0 <= k < 8 ==> Bit(a, k) == Bit(b, k)
    ensures a == b
  {
    assert Bit(a, 0) == Bit(b, 0) && Bit(a, 1) == Bit(b, 1) && Bit(a, 2) == Bit(b, 2) && Bit(a, 3) == Bit(b, 3);
    assert Bit(a, 4) == Bit(b, 4) && Bit(a, 5) == Bit(b, 5) && Bit(a, 6) == Bit(b, 6) && Bit(a, 7) == Bit(b, 7);
  }

  /** The four stage masks of one column and channel after intensity v is
      written into bit `row`. */
  function Encode(stages: seq<bv8>, row: nat, v: bv8): (r: seq<bv8>)
    requires |stages| == BAM_STAGES && row < 8
    ensures |r| == BAM_STAGES
    ensures Level(r, row) == v & 0xF
    ensures forall i, k :: 0 <= i < BAM_STAGES && 0 <= k < 8 && k != row ==> Bit(r[i], k) == Bit(stages[i], k)
  {
    var r := seq(BAM_STAGES, i requires 0 <= i < BAM_STAGES => WithBit(stages[i], row, Bit(v, i)));
    forall k | 0 <= k < 8
      ensures Bit(Level(r, row), k) == Bit(v & 0xF, k)
    {
    }
    MaskExt(Level(r, row), v & 0xF);
    r
  }

  /** Writing intensity v and reading it back gives v's low four bits, that
      is v itself for every intensity 0-15. */
  lemma {:induction false} EncodeRoundTrip(stages: seq<bv8>, row: nat, v: bv8)
    requires |stages| == BAM_STAGES && row < 8 && v < 16
    ensures Level(Encode(stages, row, v), row) == v
  {
    MaskExt(v & 0xF, v);
  }

  /** The stage masks of one cell after `setColor` are the encoding of the
      channel's intensity into the masks it had before. */
  lemma CellsEncode(m: seq<bv8>, c: nat, ch: nat, row: bv8, col: bv8, color: Rgb)
    requires |m| == BAM_STAGES && ch < NUMBER_OF_COLORS && InGrid(row, col) && c == col as nat
    ensures [Cell(m[0], 0, c, ch, row, col, color), Cell(m[1], 1, c, ch, row, col, color),
             Cell(m[2], 2, c, ch, row, col, color), Cell(m[3], 3, c, ch, row, col, color)]
            == Encode(m, row as nat, Channel(color, ch))
  {
  }

  /** Switching a cell off (`setColor(row, col, 0, 0, 0)`) reads back 0 on
      every channel, whatever the stage masks held before. */
  lemma OffReadsZero(m: seq<bv8>, row: nat, ch: nat)
    requires |m| == BAM_STAGES && row < 8 && ch < NUMBER_OF_COLORS
    ensures Level(Encode(m, row, Channel(Black, ch)), row) == 0
  {
  }

  /** Full red (15, 0, 0) sets bit row of the red mask in all four stages and
      clears it in the green and blue masks. */
  lemma FullRedExample(red: seq<bv8>, green: seq<bv8>, blue: seq<bv8>, row: nat)
    requires |red| == |green| == |blue| == BAM_STAGES && row < 8
    ensures forall i :: 0 <= i < BAM_STAGES ==>
      Bit(Encode(red, row, 15)[i], row) && !Bit(Encode(green, row, 0)[i], row) && !Bit(Encode(blue, row, 0)[i], row)
  {
    var r, g, b := Encode(red, row, 15), Encode(green, row, 0), Encode(blue, row, 0);
    assert Level(r, row) == 15 && Level(g, row) == 0 && Level(b, row) == 0;
    assert Bit(15, 0) && Bit(15, 1) && Bit(15, 2) && Bit(15, 3);
    assert !Bit(0, 0) && !Bit(0, 1) && !Bit(0, 2) && !Bit(0, 3);
  }
}
