/** The per-column debounce state machine of the timer interrupt in main.cpp.
    Once per BAM cycle a column's raw 8-bit reading `dataIn` is compared with
    the last committed reading; a change mask has to be seen on consecutive
    readings until the counter reaches BUTTON_INPUT_DEBOUNCE_CONSTANT, and then
    one ButtonEvent per changed row is produced. */
module Debounce {
  import opened Bits
  import opened Seqs
  import opened Bam

  const BUTTON_INPUT_DEBOUNCE_CONSTANT: nat := 2

  /** A press or release of the button at (column, row); `isPressed` is 1 or 0. */
  datatype ButtonEvent = ButtonEvent(column: Byte, row: Byte, isPressed: Byte)

  /** One column's entries of `lastButtonInput`, `buttonInputChanged` and
      `buttonInputCounter`. */
  datatype ColumnState = ColumnState(last: bv8, changed: bv8, counter: nat)

  /** The state after one reading, and whether the reading commits the pending
      change (which then produces events and stores the reading). */
  datatype StepResult = StepResult(next: ColumnState, commit: bool)

  /** One reading at stage 0 (main.cpp, the `bamCount == 0` branch). */
  function Step(s: ColumnState, dataIn: bv8): (r: StepResult)
    ensures r.commit <==> dataIn != s.last && dataIn ^ s.last == s.changed
                          && s.counter + 1 == BUTTON_INPUT_DEBOUNCE_CONSTANT
    ensures r.next.last == if r.commit then dataIn else s.last
    ensures dataIn == s.last ==> r.next == s.(counter := 0)
    ensures dataIn != s.last ==> r.next.changed == dataIn ^ s.last
    ensures dataIn != s.last && dataIn ^ s.last != s.changed ==> r.next.counter == 0
    ensures s.counter <= BUTTON_INPUT_DEBOUNCE_CONSTANT ==> r.next.counter <= BUTTON_INPUT_DEBOUNCE_CONSTANT
  {
    if dataIn != s.last then
      var changes := dataIn ^ s.last;
      if changes != s.changed then
        StepResult(ColumnState(s.last, changes, 0), false)
      else if s.counter < BUTTON_INPUT_DEBOUNCE_CONSTANT then
        var counter := s.counter + 1;
        if counter >= BUTTON_INPUT_DEBOUNCE_CONSTANT then
          StepResult(ColumnState(dataIn, s.changed, counter), true)
        else
          StepResult(s.(counter := counter), false)
      else
        StepResult(s, false)
    else
      StepResult(s.(counter := 0), false)
  }

  /** The five outcomes of a step, one lemma per branch of the source. */
  lemma StepSame(s: ColumnState, dataIn: bv8)
    requires dataIn == s.last
    ensures Step(s, dataIn) == StepResult(ColumnState(s.last, s.changed, 0), false)
  {
  }

  lemma StepRestart(s: ColumnState, dataIn: bv8)
    requires dataIn != s.last && dataIn ^ s.last != s.changed
    ensures Step(s, dataIn) == StepResult(ColumnState(s.last, dataIn ^ s.last, 0), false)
  {
  }

  lemma StepConfirm(s: ColumnState, dataIn: bv8)
    requires dataIn != s.last && dataIn ^ s.last == s.changed
    requires s.counter < BUTTON_INPUT_DEBOUNCE_CONSTANT <= s.counter + 1
    ensures Step(s, dataIn) == StepResult(ColumnState(dataIn, s.changed, s.counter + 1), true)
  {
  }

  lemma StepCount(s: ColumnState, dataIn: bv8)
    requires dataIn != s.last && dataIn ^ s.last == s.changed
    requires s.counter + 1 < BUTTON_INPUT_DEBOUNCE_CONSTANT
    ensures Step(s, dataIn) == StepResult(ColumnState(s.last, s.changed, s.counter + 1), false)
  {
  }

  lemma StepSaturated(s: ColumnState, dataIn: bv8)
    requires dataIn != s.last && dataIn ^ s.last == s.changed
    requires s.counter >= BUTTON_INPUT_DEBOUNCE_CONSTANT
    ensures Step(s, dataIn) == StepResult(s, false)
  {
  }

  /** The column stamped on events: the reading belongs to the column latched
      one tick earlier, `(column + COLS - 1) % COLS`. */
  function EventColumn(column: nat): (c: Byte)
    requires column < COLS
    ensures c < COLS && (c + 1) % COLS == column
  {
    (column + COLS - 1) % COLS
  }

  /** The events of a commit for rows 0 .. n-1, ascending: one per row whose
      bit is set in `changed`; pressed exactly when that row's bit was clear
      in `last` (RowEventsSorted, RowEventsComplete). */
  function RowEvents(col: Byte, changed: bv8, last: bv8, n: nat): (evs: seq<ButtonEvent>)
    requires n <= 8
    ensures |evs| <= n
    ensures forall i :: 0 <= i < |evs| ==>
      evs[i].column == col && evs[i].row < n && Bit(changed, evs[i].row)
      && evs[i].isPressed == (if Bit(last, evs[i].row) then 0 else 1)
    decreases n
  {
    if n == 0 then []
    else
      var earlier := RowEvents(col, changed, last, n - 1);
      var row := n - 1;
      if Bit(changed, row) then
        earlier + [ButtonEvent(col, row, if Bit(last, row) then 0 else 1)]
      else
        earlier
  }

  /** The events come in ascending row order, one row at most once. */
  lemma {:induction false} RowEventsSorted(col: Byte, changed: bv8, last: bv8, n: nat)
    requires n <= 8
    ensures forall i, j :: 0 <= i < j < |RowEvents(col, changed, last, n)| ==>
      RowEvents(col, changed, last, n)[i].row < RowEvents(col, changed, last, n)[j].row
  {
    if n > 0 {
      RowEventsSorted(col, changed, last, n - 1);
    }
  }

  /** Every changed row among rows 0 .. n-1 has its event. */
  lemma {:induction false} RowEventsComplete(col: Byte, changed: bv8, last: bv8, n: nat, row: nat)
    requires row < n <= 8 && Bit(changed, row)
    ensures exists i :: 0 <= i < |RowEvents(col, changed, last, n)| && RowEvents(col, changed, last, n)[i].row == row
  {
    var evs := RowEvents(col, changed, last, n);
    if row == n - 1 {
      assert evs[|evs| - 1].row == row;
    } else {
      RowEventsComplete(col, changed, last, n - 1, row);
      var i :| 0 <= i < |RowEvents(col, changed, last, n - 1)| && RowEvents(col, changed, last, n - 1)[i].row == row;
      assert evs[i] == RowEvents(col, changed, last, n - 1)[i];
    }
  }

  /** Committing the change from last to d reports a press exactly for the
      rows that now read 1; bits 6 and 7 produce nothing. */
  lemma CommitPolarity(col: Byte, d: bv8, last: bv8)
    ensures forall e :: e in RowEvents(col, d ^ last, last, ROWS) ==>
      e.row < ROWS && (e.isPressed == 1 <==> Bit(d, e.row))
  {
    forall e | e in RowEvents(col, d ^ last, last, ROWS)
      ensures e.row < ROWS && (e.isPressed == 1 <==> Bit(d, e.row))
    {
      EventPolarity(col, d, last, e);
    }
  }

  /** One event of such a commit. */
  lemma EventPolarity(col: Byte, d: bv8, last: bv8, e: ButtonEvent)
    requires e in RowEvents(col, d ^ last, last, ROWS)
    ensures e.row < ROWS && (e.isPressed == 1 <==> Bit(d, e.row))
  {
    var evs := RowEvents(col, d ^ last, last, ROWS);
    var i :| 0 <= i < |evs| && evs[i] == e;
    XorBit(d, last, e.row);
  }

  /** The events for fewer rows are a prefix of those for more rows. */
  lemma {:induction false} RowEventsPrefix(col: Byte, changed: bv8, last: bv8, m: nat, n: nat)
    requires m <= n <= 8
    ensures RowEvents(col, changed, last, m) <= RowEvents(col, changed, last, n)
    decreases n
  {
    if m < n {
      RowEventsPrefix(col, changed, last, m, n - 1);
    }
  }

  /** Row n of a commit adds at most its own event. */
  lemma RowEventsNext(col: Byte, changed: bv8, last: bv8, n: nat)
    requires n < 8
    ensures RowEvents(col, changed, last, n + 1) == RowEvents(col, changed, last, n)
      + if Bit(changed, n) then [ButtonEvent(col, n, if Bit(last, n) then 0 else 1)] else []
  {
  }

  /** The events a commit produces for a column with state s. */
  function CommitEvents(col: Byte, s: ColumnState): seq<ButtonEvent>
  {
    RowEvents(col, s.changed, s.last, ROWS)
  }

  /** The final state and all events of a run of readings of one column. */
  datatype RunResult = RunResult(final: ColumnState, events: seq<ButtonEvent>)

  function Run(s: ColumnState, samples: seq<bv8>, col: Byte): RunResult
    decreases |samples|
  {
    if samples == [] then RunResult(s, [])
    else
      var r := Step(s, samples[0]);
      var rest := Run(r.next, samples[1..], col);
      RunResult(rest.final, (if r.commit then CommitEvents(col, s) else []) + rest.events)
  }

  /** n readings of the same value d. */
  function Constant(d: bv8, n: nat): (ds: seq<bv8>)
    ensures |ds| == n && forall i :: 0 <= i < n ==> ds[i] == d
  {
    seq(n, _ => d)
  }

  /** A run of a then b is the run of b from where a ended. */
  lemma {:induction false} RunAppend(s: ColumnState, a: seq<bv8>, b: seq<bv8>, col: Byte)
    ensures Run(s, a + b, col)
      == RunResult(Run(Run(s, a, col).final, b, col).final,
                   Run(s, a, col).events + Run(Run(s, a, col).final, b, col).events)
    decreases |a|
  {
    if a == [] {
      AppendNil(b);
      AppendNil(Run(s, b, col).events);
    } else {
      AppendUncons(a, b);
      var r := Step(s, a[0]);
      RunAppend(r.next, a[1..], b, col);
      AppendAssoc(if r.commit then CommitEvents(col, s) else [], Run(r.next, a[1..], col).events,
                  Run(Run(r.next, a[1..], col).final, b, col).events);
    }
  }

  /** Readings equal to the committed value produce nothing and keep the
      counter at 0. */
  lemma {:induction false} Settled(s: ColumnState, n: nat, col: Byte)
    ensures Run(s, Constant(s.last, n), col)
      == RunResult(if n == 0 then s else s.(counter := 0), [])
    decreases n
  {
    if n > 0 {
      var ds := Constant(s.last, n);
      assert ds[1..] == Constant(s.last, n - 1);
      Settled(s.(counter := 0), n - 1, col);
    }
  }

  /** A run that starts with reading d takes one step and then runs on. */
  lemma RunCons(s: ColumnState, d: bv8, ds: seq<bv8>, col: Byte)
    ensures var r := Step(s, d);
      Run(s, [d] + ds, col)
      == RunResult(Run(r.next, ds, col).final,
                   (if r.commit then CommitEvents(col, s) else []) + Run(r.next, ds, col).events)
  {
    assert ([d] + ds)[0] == d && ([d] + ds)[1..] == ds;
  }

  /** Run of three readings, one step at a time. */
  lemma RunThree(s: ColumnState, d: bv8, col: Byte)
    ensures var t1 := Step(s, d); var t2 := Step(t1.next, d); var t3 := Step(t2.next, d);
      Run(s, Constant(d, 3), col)
      == RunResult(t3.next, (if t1.commit then CommitEvents(col, s) else [])
                            + ((if t2.commit then CommitEvents(col, t1.next) else [])
                            + (if t3.commit then CommitEvents(col, t2.next) else [])))
  {
    var t1 := Step(s, d);
    var t2 := Step(t1.next, d);
    var t3 := Step(t2.next, d);
    assert Constant(d, 3) == [d] + ([d] + ([d] + []));
    RunCons(s, d, [d] + ([d] + []), col);
    RunCons(t1.next, d, [d] + [], col);
    RunCons(t2.next, d, [], col);
    assert Run(t3.next, [], col) == RunResult(t3.next, []);
  }

  /** Three readings of a new value d commit it, except in the lost-release
      state. */
  lemma ThreeReadings(s: ColumnState, d: bv8, col: Byte)
    requires d != s.last && s.counter <= BUTTON_INPUT_DEBOUNCE_CONSTANT
    requires !(s.changed == d ^ s.last && s.counter == BUTTON_INPUT_DEBOUNCE_CONSTANT)
    ensures Run(s, Constant(d, 3), col).events == RowEvents(col, d ^ s.last, s.last, ROWS)
    ensures Run(s, Constant(d, 3), col).final.last == d
  {
    RunThree(s, d, col);
    var m := d ^ s.last;
    var t1 := Step(s, d);
    if s.changed != m {
      var u := ColumnState(s.last, m, 0);
      assert t1 == StepResult(u, false);
      assert Step(u, d) == StepResult(u.(counter := 1), false);
      assert Step(u.(counter := 1), d) == StepResult(ColumnState(d, m, 2), true);
    } else if s.counter == 0 {
      assert t1 == StepResult(s.(counter := 1), false);
      assert Step(s.(counter := 1), d) == StepResult(ColumnState(d, m, 2), true);
      assert Step(ColumnState(d, m, 2), d) == StepResult(ColumnState(d, m, 0), false);
    } else {
      assert t1 == StepResult(ColumnState(d, m, 2), true);
      assert Step(ColumnState(d, m, 2), d) == StepResult(ColumnState(d, m, 0), false);
      assert Step(ColumnState(d, m, 0), d) == StepResult(ColumnState(d, m, 0), false);
    }
  }

  /** A reading that differs from the committed value and is held for three
      or more readings produces exactly one event per changed row among rows
      0-5 and becomes the committed value.  (Excluded: the lost-release state
      of LostRelease.) */
  lemma ConfirmStableChange(s: ColumnState, d: bv8, n: nat, col: Byte)
    requires d != s.last && s.counter <= BUTTON_INPUT_DEBOUNCE_CONSTANT
    requires !(s.changed == d ^ s.last && s.counter == BUTTON_INPUT_DEBOUNCE_CONSTANT)
    requires n >= 3
    ensures Run(s, Constant(d, n), col).events == RowEvents(col, d ^ s.last, s.last, ROWS)
    ensures Run(s, Constant(d, n), col).final.last == d
  {
    assert Constant(d, n) == Constant(d, 3) + Constant(d, n - 3);
    RunAppend(s, Constant(d, 3), Constant(d, n - 3), col);
    ThreeReadings(s, d, col);
    Settled(Run(s, Constant(d, 3), col).final, n - 3, col);
  }

  /** Noise is suppressed: from a settled counter, when every reading that
      differs from the committed value is followed at once by the committed
      value again, no event is produced and the committed value stays. */
  lemma {:induction false} NoiseSuppressed(s: ColumnState, ds: seq<bv8>, col: Byte)
    requires s.counter == 0
    requires forall i :: 0 <= i < |ds| - 1 && ds[i] != s.last ==> ds[i + 1] == s.last
    ensures Run(s, ds, col).events == []
    ensures Run(s, ds, col).final.last == s.last
    decreases |ds|
  {
    if ds != [] {
      var t := Step(s, ds[0]).next;
      if ds[0] == s.last {
        assert t == s;
        NoiseSuppressed(s, ds[1..], col);
      } else if |ds| == 1 {
        assert ds[1..] == [];
      } else {
        assert ds[1] == s.last;
        assert t.last == s.last && t.counter <= 1;
        assert Step(t, ds[1]).next == t.(counter := 0) == s.(changed := t.changed);
        var u := s.(changed := t.changed);
        assert ds[1..][1..] == ds[2..];
        NoiseSuppressed(u, ds[2..], col);
      }
    }
  }

  /** After a commit the counter stays at the threshold and the change mask
      is kept, so readings that flip exactly the same bits back are never
      reported while they persist. */
  lemma {:induction false} LostRelease(t: ColumnState, d: bv8, n: nat, col: Byte)
    requires t.counter == BUTTON_INPUT_DEBOUNCE_CONSTANT && d != t.last && d ^ t.last == t.changed
    ensures Run(t, Constant(d, n), col) == RunResult(t, [])
    decreases n
  {
    if n > 0 {
      assert Constant(d, n)[1..] == Constant(d, n - 1);
      LostRelease(t, d, n - 1, col);
    }
  }

  /** A button of row 0 read as pressed for three readings and then released
      for good: the press is reported, the release never is, and the
      committed reading stays "pressed". */
  lemma LostReleaseExample(n: nat, col: Byte)
    ensures Run(ColumnState(0, 0, 0), Constant(1, 3) + Constant(0, n), col).events
            == [ButtonEvent(col, 0, 1)]
    ensures Run(ColumnState(0, 0, 0), Constant(1, 3) + Constant(0, n), col).final.last == 1
  {
    var s := ColumnState(0, 0, 0);
    RunAppend(s, Constant(1, 3), Constant(0, n), col);
    ConfirmStableChange(s, 1, 3, col);
    var r := Run(s, Constant(1, 3), col);
    RowZeroPressed(col);
    assert r.final == ColumnState(1, 1, 2) by {
      assert Step(s, 1).next == ColumnState(0, 1, 0);
      assert Step(ColumnState(0, 1, 0), 1).next == ColumnState(0, 1, 1);
      assert Step(ColumnState(0, 1, 1), 1).next == ColumnState(1, 1, 2);
      assert Constant(1, 3)[1..] == Constant(1, 2) && Constant(1, 2)[1..] == Constant(1, 1);
      assert Constant(1, 1)[1..] == [];
    }
    LostRelease(r.final, 0, n, col);
  }

  /** Pressing the button of row 0 from an all-released column commits one
      press event. */
  lemma RowZeroPressed(col: Byte)
    ensures RowEvents(col, 1, 0, ROWS) == [ButtonEvent(col, 0, 1)]
  {
    assert Bit(1, 0) && forall k :: 1 <= k < 8 ==> !Bit(1, k);
    var evs := RowEvents(col, 1, 0, ROWS);
    assert |evs| == 1 by {
      assert forall i :: 0 <= i < |evs| ==> evs[i].row == 0;
    }
  }

  /** A glitch primes the debouncer: a one-reading glitch is not reported,
      but it leaves its change mask pending, since an unchanged reading
      resets only the counter.  Two readings of the same change then
      commit it. */
  lemma GlitchPrimes(col: Byte)
    ensures Run(ColumnState(0, 0, 0), [1, 0, 1, 1], col)
            == RunResult(ColumnState(1, 1, 2), [ButtonEvent(col, 0, 1)])
  {
    var s0, s1, s2 := ColumnState(0, 0, 0), ColumnState(0, 1, 0), ColumnState(0, 1, 1);
    assert [1, 0, 1, 1] == [1] + [0, 1, 1] && [0, 1, 1] == [0] + [1, 1] && [1, 1] == [1] + [1];
    assert [1] == [1] + [];
    assert Step(s0, 1) == StepResult(s1, false);
    assert Step(s1, 0) == StepResult(s1, false);
    assert Step(s1, 1) == StepResult(s2, false);
    assert Step(s2, 1) == StepResult(ColumnState(1, 1, 2), true);
    RunCons(s0, 1, [0, 1, 1], col);
    RunCons(s1, 0, [1, 1], col);
    RunCons(s1, 1, [1], col);
    RunCons(s2, 1, [], col);
    RowZeroPressed(col);
  }
}
