/** The cursor and output frame of the timer interrupt of main.cpp: each tick
    moves the period register `OCR1A`, the column and the BAM stage on, and
    shifts out a 5-byte frame for the new (stage, column). */
module Scheduler {
  import opened Bits
  import opened Bam

  /** `BAM_INIT_COUNT`: the shortest compare value. */
  const BAM_INIT_COUNT: nat := 16

  /** x << k on unbounded numbers. */
  function Shl(x: nat, k: nat): nat
  {
    if k == 0 then x else 2 * Shl(x, k - 1)
  }

  /** The compare value in force while stage s is shown: the ISR writes
      `OCR1A` and then emits the stage, and in CTC mode that write sets the
      length of the slot just starting, which gives 16 << ((s + 3) % 4). */
  function Period(s: nat): (p: nat)
    requires s < BAM_STAGES
    ensures 16 <= p <= 128
    ensures p == 128 <==> s == 0
  {
    assert Shl(BAM_INIT_COUNT, 1) == 32 && Shl(BAM_INIT_COUNT, 2) == 64 && Shl(BAM_INIT_COUNT, 3) == 128;
    Shl(BAM_INIT_COUNT, (s + BAM_STAGES - 1) % BAM_STAGES)
  }

  /** The four periods: stage 0 gets 128, stages 1-3 get 16, 32 and 64. */
  lemma PeriodTable()
    ensures Period(0) == 128 && Period(1) == 16 && Period(2) == 32 && Period(3) == 64
    ensures Shl(BAM_INIT_COUNT, BAM_STAGES - 2) == 64 && Shl(BAM_INIT_COUNT, BAM_STAGES - 1) == 128
  {
    assert Shl(16, 1) == 32;
    assert Shl(16, 2) == 64;
    assert Shl(16, 3) == 128;
  }

  /** The timer-interrupt cursor: `column`, `bamCount` and `OCR1A`. */
  datatype Cursor = Cursor(column: nat, bamCount: nat, ocr: nat)

  /** The start state: `column = COLS - 1`, `bamCount = BAM_STAGES - 1`,
      `OCR1A = BAM_INIT_COUNT << (BAM_STAGES - 2)`. */
  const Initial := Cursor(COLS - 1, BAM_STAGES - 1, Shl(BAM_INIT_COUNT, BAM_STAGES - 2))

  /** Column and stage in range, and the period paired with the stage. */
  predicate CursorInv(c: Cursor)
  {
    c.column < COLS && c.bamCount < BAM_STAGES && c.ocr == Period(c.bamCount)
  }

  /** The new period: back to the shortest after the longest, else doubled
      in the 16-bit register. */
  function NextPeriod(ocr: nat): (r: nat)
    ensures r < 0x1_0000
  {
    if ocr >= Shl(BAM_INIT_COUNT, BAM_STAGES - 1) then BAM_INIT_COUNT else (ocr * 2) % 0x1_0000
  }

  /** The period update keeps the pairing: after the slot of stage s comes
      the slot of the next stage. */
  lemma NextPeriodCycles(s: nat)
    requires s < BAM_STAGES
    ensures NextPeriod(Period(s)) == Period((s + 1) % BAM_STAGES)
  {
    PeriodTable();
  }

  /** The cursor update at the top of the ISR. */
  function Advance(c: Cursor): (r: Cursor)
    ensures CursorInv(c) ==> CursorInv(r)
    ensures CursorInv(c) ==> r.ocr == if c.ocr == 128 then 16 else 2 * c.ocr
    ensures CursorInv(c) ==> (r.column != c.column <==> c.bamCount == BAM_STAGES - 1)
    ensures CursorInv(c) ==> (r.bamCount == 0 <==> c.bamCount == BAM_STAGES - 1)
  {
    PeriodTable();
    var ocr := NextPeriod(c.ocr);
    var column := if c.bamCount >= BAM_STAGES - 1 then (c.column + 1) % COLS else c.column;
    Cursor(column, (c.bamCount + 1) % BAM_STAGES, ocr)
  }

  /** n ticks. */
  function AdvanceN(c: Cursor, n: nat): Cursor
    decreases n
  {
    if n == 0 then c else AdvanceN(Advance(c), n - 1)
  }

  lemma InitialValid()
    ensures CursorInv(Initial)
  {
    PeriodTable();
  }

  /** The invariant holds after any number of ticks, so the pairing of
      `OCR1A` with the stage holds from the start state on. */
  lemma {:induction false} AdvanceNValid(c: Cursor, n: nat)
    requires CursorInv(c)
    ensures CursorInv(AdvanceN(c, n))
    ensures AdvanceN(c, n).bamCount == (c.bamCount + n) % BAM_STAGES
    decreases n
  {
    if n > 0 {
      AdvanceNValid(Advance(c), n - 1);
      StageSucc(c.bamCount, n - 1);
    }
  }

  lemma StageSucc(a: nat, m: nat)
    ensures ((a + 1) % BAM_STAGES + m) % BAM_STAGES == (a + 1 + m) % BAM_STAGES
  {
  }

  /** Four ticks show the four stages of one column and move to the next
      column with stage and period as they were. */
  lemma {:induction false} FourTicks(c: Cursor)
    requires CursorInv(c)
    ensures AdvanceN(c, BAM_STAGES) == Cursor((c.column + 1) % COLS, c.bamCount, c.ocr)
  {
    var c1 := Advance(c);
    var c2 := Advance(c1);
    var c3 := Advance(c2);
    var c4 := Advance(c3);
    assert AdvanceN(c, 4) == AdvanceN(c1, 3) == AdvanceN(c2, 2) == AdvanceN(c3, 1) == c4;
  }

  lemma ModSucc(a: nat)
    ensures (a % COLS + 1) % COLS == (a + 1) % COLS
  {
  }

  /** k columns on after 4k ticks. */
  lemma {:induction false} FourTicksRepeated(c: Cursor, k: nat)
    requires CursorInv(c)
    ensures AdvanceN(c, BAM_STAGES * k) == Cursor((c.column + k) % COLS, c.bamCount, c.ocr)
  {
    if k > 0 {
      var m := BAM_STAGES * (k - 1);
      assert BAM_STAGES * k == m + BAM_STAGES;
      FourTicksRepeated(c, k - 1);
      var d := AdvanceN(c, m);
      assert d == Cursor((c.column + (k - 1)) % COLS, c.bamCount, c.ocr);
      AdvanceNAdd(c, m, BAM_STAGES);
      FourTicks(d);
      ModSucc(c.column + (k - 1));
    }
  }

  lemma {:induction false} AdvanceNAdd(c: Cursor, m: nat, n: nat)
    ensures AdvanceN(c, m + n) == AdvanceN(AdvanceN(c, m), n)
    decreases m
  {
    if m > 0 {
      AdvanceNAdd(Advance(c), m - 1, n);
    }
  }

  /** Column col is shown in stage st within the first 40 ticks from c. */
  ghost predicate Shown(c: Cursor, col: nat, st: nat)
  {
    exists n :: 0 <= n < BAM_STAGES * COLS && AdvanceN(c, n).column == col && AdvanceN(c, n).bamCount == st
  }

  /** The tick count at which column col is shown in stage st: first the
      ticks up to stage st, then whole columns up to col. */
  lemma ShownAt(c: Cursor, col: nat, st: nat)
    requires CursorInv(c) && col < COLS && st < BAM_STAGES
    ensures Shown(c, col, st)
  {
    var j := (st + BAM_STAGES - c.bamCount) % BAM_STAGES;
    AdvanceNValid(c, j);
    StageOffset(c.bamCount, st);
    var d := AdvanceN(c, j);
    var k := (col + COLS - d.column) % COLS;
    ColumnOffset(d.column, col);
    FourTicksRepeated(d, k);
    var m := BAM_STAGES * k;
    AdvanceNAdd(c, j, m);
    var n := j + m;
    assert AdvanceN(c, n) == Cursor(col, st, d.ocr);
    assert n < BAM_STAGES * COLS;
  }

  lemma StageOffset(b: nat, st: nat)
    requires b < BAM_STAGES && st < BAM_STAGES
    ensures (b + (st + BAM_STAGES - b) % BAM_STAGES) % BAM_STAGES == st
  {
  }

  lemma ColumnOffset(a: nat, col: nat)
    requires a < COLS && col < COLS
    ensures (a + (col + COLS - a) % COLS) % COLS == col
  {
  }

  /** A full refresh is 40 ticks: every column is shown in every stage,
      and after them the cursor is back where it started. */
  lemma FullRefresh(c: Cursor)
    requires CursorInv(c)
    ensures forall col, st :: 0 <= col < COLS && 0 <= st < BAM_STAGES ==> Shown(c, col, st)
    ensures AdvanceN(c, BAM_STAGES * COLS) == c
  {
    forall col, st | 0 <= col < COLS && 0 <= st < BAM_STAGES
      ensures Shown(c, col, st)
    {
      ShownAt(c, col, st);
    }
    FourTicksRepeated(c, COLS);
    ModSelf(c.column);
  }

  lemma ModSelf(a: nat)
    requires a < COLS
    ensures (a + COLS) % COLS == a
  {
  }

  /** The time per refresh of one column during which a channel of
      intensity v is lit: the periods of the stages whose bit is set. */
  function OnTime(v: bv8): nat
  {
    (if Bit(v, 0) then Period(0) else 0) + (if Bit(v, 1) then Period(1) else 0)
    + (if Bit(v, 2) then Period(2) else 0) + (if Bit(v, 3) then Period(3) else 0)
  }

  /** Because stage 0 gets the longest slot, brightness is not monotone in
      the intensity: level 1 is lit eight times as long as level 2. */
  lemma OnTimeNotMonotone()
    ensures OnTime(1) == 128 && OnTime(2) == 16
  {
    PeriodTable();
    assert Bit(1, 0) && !Bit(1, 1) && !Bit(1, 2) && !Bit(1, 3);
    assert !Bit(2, 0) && Bit(2, 1) && !Bit(2, 2) && !Bit(2, 3);
  }

  /** The 16-bit column-select word sent as the last two frame bytes. */
  function SelectWord(hi: bv8, lo: bv8): bv16
  {
    (hi as bv16 << 8) | lo as bv16
  }

  /** `1 << column` as the 16-bit `tmpCol`: exactly bit `column` is set. */
  function ColumnSelect(column: nat): (w: bv16)
    requires column < 16
    ensures forall k :: 0 <= k < 16 ==> (Bit16(w, k) <==> k == column)
  {
    1 << column
  }

  /** The five bytes shifted out per tick: the inverted red, blue and green
      row masks (the LED drivers are active-low) and then `1 << column`,
      high byte first. */
  function Frame(red: bv8, blue: bv8, green: bv8, column: nat): (f: seq<bv8>)
    requires column < 16
    ensures |f| == 5
    ensures forall k :: 0 <= k < 8 ==>
      (Bit(f[0], k) <==> !Bit(red, k)) && (Bit(f[1], k) <==> !Bit(blue, k)) && (Bit(f[2], k) <==> !Bit(green, k))
    ensures SelectWord(f[3], f[4]) == ColumnSelect(column)
  {
    Complement(red);
    Complement(blue);
    Complement(green);
    var tmpCol: bv16 := ColumnSelect(column);
    [!red, !blue, !green, (tmpCol >> 8) as bv8, (tmpCol & 0xFF) as bv8]
  }
}
