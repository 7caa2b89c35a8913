/** Laws of the single-byte instructions: which part of the state each one
    touches, the instructions that undo each other, and the wrap-around of
    the cursor and the function pointer. */
module InstructionLaws {
  import opened CellArith
  import opened Machine

  // ---- writing a cell --------------------------------------------------------

  /** Writing a cell twice keeps only the second value, and writing back the
      value a cell already holds changes nothing. */
  lemma SetCellOverwrite(s: State, v: Int32, w: Int32)
    ensures SetCell(SetCell(s, v), w) == SetCell(s, w)
    ensures SetCell(s, Cell(s)) == s
  {
    var row := s.cells[s.y];
    assert row[s.x := v][s.x := w] == row[s.x := w];
    assert s.cells[s.y := row[s.x := v]][s.y := row[s.x := w]] == s.cells[s.y := row[s.x := w]];
    assert row[s.x := Cell(s)] == row;
    assert s.cells[s.y := row] == s.cells;
  }

  /** `!` twice restores the cell (and so the whole state). */
  lemma NotTwice(s: State)
    ensures Step('!', Step('!', s)) == s
  {
    SetCellFrame(s, Complement(Cell(s)));
    SetCellOverwrite(s, Complement(Cell(s)), Cell(s));
  }

  /** Each of the eight cell instructions `! ~ + - * | % ?` stores its
      arithmetic result in the cell under the cursor and touches nothing else:
      `!` is `Complement`, `+` `Increment`, `-` `Decrement`, `*` `Double`,
      `|` `Halve`, `%` `Remainder`, `~` stores 0 and `?` stores `temp`. */
  lemma CellOpStep(c: char, s: State)
    requires IsCellOp(c)
    ensures Cell(Step(c, s)) == CellOp(c, Cell(s), s.temp)
    ensures c == '!' ==> Cell(Step(c, s)) == Complement(Cell(s))
    ensures c == '+' ==> Cell(Step(c, s)) == Increment(Cell(s))
    ensures c == '-' ==> Cell(Step(c, s)) == Decrement(Cell(s))
    ensures c == '|' ==> Cell(Step(c, s)) == Halve(Cell(s))
    ensures c == '%' ==> Cell(Step(c, s)) == Remainder(Cell(s))
    ensures OnlyCellChanged(s, Step(c, s))
  {
    SetCellFrame(s, CellOp(c, Cell(s), s.temp));
  }

  /** `~` zeroes the cell under the cursor and touches nothing else. */
  lemma ClearZeroesOneCell(s: State)
    ensures Cell(Step('~', s)) == 0
    ensures OnlyCellChanged(s, Step('~', s))
  {
    SetCellFrame(s, 0);
  }

  /** `&` copies the cell into `temp` and changes nothing else. */
  lemma StoreOnlyTemp(s: State)
    ensures Step('&', s).temp == Cell(s)
    ensures Step('&', s).(temp := s.temp) == s
  {
  }

  /** `?` copies `temp` into the cell under the cursor and changes nothing
      else. */
  lemma LoadSetsCell(s: State)
    ensures Cell(Step('?', s)) == s.temp
    ensures OnlyCellChanged(s, Step('?', s))
  {
    SetCellFrame(s, s.temp);
  }

  /** `&` followed by `?` writes the cell's own value back: no change at all. */
  lemma StoreThenLoad(s: State)
    ensures Step('?', Step('&', s)) == Step('&', s)
    ensures Cell(Step('?', Step('&', s))) == Cell(s)
  {
    SetCellOverwrite(Step('&', s), Cell(s), 0);
  }

  /** `+` then `-`, and `-` then `+`, restore the cell, also across the
      32-bit wrap-around. */
  lemma IncDecInverse(s: State)
    ensures Step('-', Step('+', s)) == s
    ensures Step('+', Step('-', s)) == s
  {
    IncrementDecrement(Cell(s));
    SetCellFrame(s, Increment(Cell(s)));
    SetCellOverwrite(s, Increment(Cell(s)), Cell(s));
    SetCellFrame(s, Decrement(Cell(s)));
    SetCellOverwrite(s, Decrement(Cell(s)), Cell(s));
  }

  /** `*` writes the low 32 bits of twice the cell. */
  lemma DoubleWraps(s: State)
    ensures (Cell(Step('*', s)) - 2 * Cell(s)) % TWO_32 == 0
    ensures OnlyCellChanged(s, Step('*', s))
  {
    SetCellFrame(s, Double(Cell(s)));
  }

  /** `|` and `%` follow C++ truncating division: the cell equals twice what
      `|` leaves plus what `%` leaves, and the remainder is never of the
      opposite sign to the cell. */
  lemma HalfAndRemainder(s: State)
    ensures Cell(s) == 2 * Cell(Step('|', s)) + Cell(Step('%', s))
    ensures Cell(s) >= 0 ==> 0 <= Cell(Step('%', s)) <= 1
    ensures Cell(s) < 0 ==> -1 <= Cell(Step('%', s)) <= 0
  {
    SetCellFrame(s, Halve(Cell(s)));
    SetCellFrame(s, Remainder(Cell(s)));
    HalveRemainder(Cell(s));
  }

  // ---- output ------------------------------------------------------------------

  /** `@` appends the cell's value; `.` appends the byte holding its low 8
      bits. Neither changes anything but the output. */
  lemma WritesAppendOneEvent(s: State)
    ensures Step('@', s).output == s.output + [OutInt(Cell(s))]
    ensures var e := Step('.', s).output[|s.output|];
            && Step('.', s).output == s.output + [e]
            && e.OutChar? && (e.code - Cell(s)) % 256 == 0
    ensures Step('@', s).(output := s.output) == s
    ensures Step('.', s).(output := s.output) == s
  {
  }

  // ---- cursor and function pointer ----------------------------------------------

  /** An 8-bit index moved by `d` and then by `e` is moved by `d + e`. */
  lemma ShiftAdd(b: int, d: int, e: int)
    ensures ((b + d) % 256 + e) % 256 == (b + d + e) % 256
  {
  }

  /** `>` and `<` undo each other, in either order. */
  lemma RightLeftUndo(s: State)
    ensures Step('<', Step('>', s)) == s && Step('>', Step('<', s)) == s
  {
    ShiftAdd(s.x, 1, -1);
    ShiftAdd(s.x, -1, 1);
  }

  /** `v` and `^` undo each other, in either order. */
  lemma DownUpUndo(s: State)
    ensures Step('^', Step('v', s)) == s && Step('v', Step('^', s)) == s
  {
    ShiftAdd(s.y, 1, -1);
    ShiftAdd(s.y, -1, 1);
  }

  /** `:` and `;` undo each other, in either order. */
  lemma NextPrevSlotUndo(s: State)
    ensures Step(';', Step(':', s)) == s && Step(':', Step(';', s)) == s
  {
    ShiftAdd(s.fnIndex, 1, -1);
    ShiftAdd(s.fnIndex, -1, 1);
  }

  /** `$` sends the cursor to column 0 of the same row, wherever in the row
      it was. */
  lemma HomeKeepsRow(s: State)
    ensures Step('$', s).x == 0 && Step('$', s).y == s.y
    ensures Cell(Step('$', s)) == s.cells[s.y][0]
    ensures Step('$', Step('>', s)) == Step('$', s)
    ensures Step('$', Step('<', s)) == Step('$', s)
    ensures Step('$', s).(x := s.x) == s
  {
  }

  /** The six bytes that move the cursor or the function pointer. */
  predicate IsMove(c: char) {
    c == '>' || c == '<' || c == '^' || c == 'v' || c == ':' || c == ';'
  }

  /** `n` copies of the byte `c`. */
  function Repeat(c: char, n: nat): (r: seq<char>)
    ensures |r| == n
    ensures forall k :: 0 <= k < n ==> r[k] == c
  {
    if n == 0 then [] else [c] + Repeat(c, n - 1)
  }

  /** Where `n` applications of move `c` leave the state: the moved index
      shifted by `n` modulo 256, all else as it was. */
  function Moved(c: char, s: State, n: nat): State
    requires IsMove(c)
  {
    match c
    case '>' => s.(x := (s.x + n) % 256)
    case '<' => s.(x := (s.x - n) % 256)
    case 'v' => s.(y := (s.y + n) % 256)
    case '^' => s.(y := (s.y - n) % 256)
    case ':' => s.(fnIndex := (s.fnIndex + n) % 256)
    case ';' => s.(fnIndex := (s.fnIndex - n) % 256)
  }

  /** One move followed by `n - 1` more is `n` moves. */
  lemma MovedStep(c: char, s: State, n: nat)
    requires IsMove(c) && n > 0
    ensures Moved(c, Step(c, s), n - 1) == Moved(c, s, n)
  {
    if c == '>' || c == '<' {
      ColumnMovedStep(c, s, n);
    } else if c == 'v' || c == '^' {
      RowMovedStep(c, s, n);
    } else {
      SlotMovedStep(c, s, n);
    }
  }

  lemma ColumnMovedStep(c: char, s: State, n: nat)
    requires (c == '>' || c == '<') && n > 0
    ensures Moved(c, Step(c, s), n - 1) == Moved(c, s, n)
  {
    if c == '>' {
      ShiftAdd(s.x, 1, n - 1);
    } else {
      ShiftAdd(s.x, -1, -(n - 1));
    }
  }

  lemma RowMovedStep(c: char, s: State, n: nat)
    requires (c == 'v' || c == '^') && n > 0
    ensures Moved(c, Step(c, s), n - 1) == Moved(c, s, n)
  {
    if c == 'v' {
      ShiftAdd(s.y, 1, n - 1);
    } else {
      ShiftAdd(s.y, -1, -(n - 1));
    }
  }

  lemma SlotMovedStep(c: char, s: State, n: nat)
    requires (c == ':' || c == ';') && n > 0
    ensures Moved(c, Step(c, s), n - 1) == Moved(c, s, n)
  {
    if c == ':' {
      ShiftAdd(s.fnIndex, 1, n - 1);
    } else {
      ShiftAdd(s.fnIndex, -1, -(n - 1));
    }
  }

  lemma {:induction false} RepeatedMove(c: char, n: nat, s: State)
    requires IsMove(c)
    ensures StepAll(Repeat(c, n), s) == Moved(c, s, n)
    decreases n
  {
    if n > 0 {
      var code := Repeat(c, n);
      assert code[0] == c && code[1..] == Repeat(c, n - 1);
      RepeatedMove(c, n - 1, Step(c, s));
      MovedStep(c, s, n);
    }
  }

  /** 256 applications of any one move bring the state back to where it was. */
  lemma MoveCycle(c: char, s: State)
    requires IsMove(c)
    ensures StepAll(Repeat(c, 256), s) == s
  {
    RepeatedMove(c, 256, s);
  }
}
