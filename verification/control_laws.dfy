/** Laws of the executor: how blocks, calls, the backtick and comment bytes
    move through a program, what fuel means, and how standard input and
    output evolve over any run. */
module ControlLaws {
  import opened CellArith
  import opened Machine
  import opened Scanner
  import opened Interpreter

  // ---- one byte at a time -----------------------------------------------------

  /** A simple instruction or a comment byte applies its step and moves on
      to the next byte. */
  lemma SimpleStep(code: seq<char>, i: nat, s: State, fuel: nat)
    requires i < |code| && fuel > 0
    requires !IsOpener(code[i]) && code[i] != '`' && code[i] != '#'
    ensures Run(code, i, s, fuel) == Run(code, i + 1, Step(code[i], s), fuel - 1)
  {
  }

  /** A backtick moves the index of the current sequence and nothing else. */
  lemma BacktickStep(code: seq<char>, i: nat, s: State, fuel: nat)
    requires i < |code| && code[i] == '`' && fuel > 0
    ensures Run(code, i, s, fuel) == Run(code, Jump(i, Cell(s)), s, fuel - 1)
  {
  }

  /** `#` runs the body in the selected slot, as it is at the time of the
      call, and then goes on with the next byte. */
  lemma CallStep(code: seq<char>, i: nat, s: State, fuel: nat)
    requires i < |code| && code[i] == '#' && fuel > 0
    ensures var r := Run(s.functions[s.fnIndex], 0, s, fuel - 1);
            Run(code, i, s, fuel) == if r.Ok? then Run(code, i + 1, r.state, fuel - 1) else r
  {
  }

  /** A block opener whose block is scanned successfully. */
  lemma OpenerStep(code: seq<char>, i: nat, s: State, fuel: nat, block: Block)
    requires i < |code| && IsOpener(code[i]) && fuel > 0
    requires ScanBlock(code, i + 1, CloseOf(code[i])) == Some(block)
    ensures var r := RunBlock(code[i], block.body, s, fuel - 1);
            Run(code, i, s, fuel) == if r.Ok? then Run(code, block.close + 1, r.state, fuel - 1) else r
  {
  }

  // ---- standard input and output -------------------------------------------

  /** Over any run that finishes, input is only consumed from the front and
      output is only appended to. */
  lemma {:induction false} RunAdvancesIo(code: seq<char>, i: nat, s: State, fuel: nat)
    ensures Run(code, i, s, fuel).Ok? ==> IoAdvances(s, Run(code, i, s, fuel).state)
    decreases fuel, 0
  {
    if i < |code| && fuel > 0 {
      var c := code[i];
      if IsOpener(c) {
        match ScanBlock(code, i + 1, CloseOf(c))
        case None =>
        case Some(block) =>
          OpenerStep(code, i, s, fuel, block);
          ScannedBlockAdvancesIo(code, block, s, c, fuel - 1);
      } else if c == '`' {
        BacktickStep(code, i, s, fuel);
        RunAdvancesIo(code, Jump(i, Cell(s)), s, fuel - 1);
      } else if c == '#' {
        CallStep(code, i, s, fuel);
        var r := Run(s.functions[s.fnIndex], 0, s, fuel - 1);
        RunAdvancesIo(s.functions[s.fnIndex], 0, s, fuel - 1);
        if r.Ok? {
          RunThenAdvancesIo(code, i + 1, s, r.state, fuel - 1);
        }
      } else {
        SimpleStep(code, i, s, fuel);
        StepAdvancesIo(c, s);
        RunThenAdvancesIo(code, i + 1, s, Step(c, s), fuel - 1);
      }
    }
  }

  /** The continuation after a sub-run: chains the two advances. */
  lemma {:induction false} RunThenAdvancesIo(code: seq<char>, i: nat, s: State, t: State, fuel: nat)
    requires IoAdvances(s, t)
    ensures Run(code, i, t, fuel).Ok? ==> IoAdvances(s, Run(code, i, t, fuel).state)
    decreases fuel, 1
  {
    RunAdvancesIo(code, i, t, fuel);
    if Run(code, i, t, fuel).Ok? {
      IoAdvancesTransitive(s, t, Run(code, i, t, fuel).state);
    }
  }

  lemma {:induction false} ScannedBlockAdvancesIo(code: seq<char>, block: Block, s: State, opener: char, fuel: nat)
    requires IsOpener(opener)
    ensures var r := RunBlock(opener, block.body, s, fuel);
            var t := if r.Ok? then Run(code, block.close + 1, r.state, fuel) else r;
            t.Ok? ==> IoAdvances(s, t.state)
    decreases fuel, 3
  {
    var r := RunBlock(opener, block.body, s, fuel);
    RunBlockAdvancesIo(opener, block.body, s, fuel);
    if r.Ok? {
      RunThenAdvancesIo(code, block.close + 1, s, r.state, fuel);
    }
  }

  lemma {:induction false} RunBlockAdvancesIo(opener: char, body: seq<char>, s: State, fuel: nat)
    requires IsOpener(opener)
    ensures RunBlock(opener, body, s, fuel).Ok? ==> IoAdvances(s, RunBlock(opener, body, s, fuel).state)
    decreases fuel, 1
  {
    match opener
    case '{' =>
    case '(' => RunAdvancesIo(body, 0, s, fuel);
    case '/' => RunAdvancesIo(body, 0, s, fuel);
    case '[' => LoopAdvancesIo(body, s, fuel);
  }

  lemma {:induction false} LoopAdvancesIo(body: seq<char>, s: State, fuel: nat)
    ensures Loop(body, s, fuel).Ok? ==> IoAdvances(s, Loop(body, s, fuel).state)
    decreases fuel, 0
  {
    if Cell(s) > 0 && fuel > 0 {
      var r := Run(body, 0, s, fuel - 1);
      RunAdvancesIo(body, 0, s, fuel - 1);
      if r.Ok? {
        LoopAdvancesIo(body, r.state, fuel - 1);
        var t := Loop(body, r.state, fuel - 1);
        if t.Ok? {
          IoAdvancesTransitive(s, r.state, t.state);
        }
      }
    }
  }

  /** A whole program reads its input from the front, never more bytes than
      there are, and its output starts from nothing. */
  lemma ExecuteReadsPrefix(program: seq<char>, input: seq<Byte>, fuel: nat)
    ensures var r := Execute(program, input, fuel);
            r.Ok? ==> r.state.input == input && r.state.consumed <= |input|
  {
    RunAdvancesIo(program, 0, Initial(input), fuel);
  }

  // ---- fuel ----------------------------------------------------------------

  /** Fuel is only a bound: a run that ends without running out of fuel ends
      the same way, in the same state, given any larger amount. */
  lemma {:induction false} RunFuelMonotone(code: seq<char>, i: nat, s: State, fuel: nat, more: nat)
    requires fuel <= more
    requires Run(code, i, s, fuel) != OutOfFuel
    ensures Run(code, i, s, more) == Run(code, i, s, fuel)
    decreases fuel, 1
  {
    if i < |code| {
      var c := code[i];
      if IsOpener(c) {
        OpenerFuelMonotone(code, i, s, fuel, more);
      } else if c == '`' {
        BacktickStep(code, i, s, fuel);
        BacktickStep(code, i, s, more);
        RunFuelMonotone(code, Jump(i, Cell(s)), s, fuel - 1, more - 1);
      } else if c == '#' {
        CallFuelMonotone(code, i, s, fuel, more);
      } else {
        SimpleStep(code, i, s, fuel);
        SimpleStep(code, i, s, more);
        RunFuelMonotone(code, i + 1, Step(c, s), fuel - 1, more - 1);
      }
    }
  }

  lemma {:induction false} OpenerFuelMonotone(code: seq<char>, i: nat, s: State, fuel: nat, more: nat)
    requires i < |code| && IsOpener(code[i])
    requires fuel <= more
    requires Run(code, i, s, fuel) != OutOfFuel
    ensures Run(code, i, s, more) == Run(code, i, s, fuel)
    decreases fuel, 0
  {
    match ScanBlock(code, i + 1, CloseOf(code[i]))
    case None =>
    case Some(block) =>
      OpenerStep(code, i, s, fuel, block);
      OpenerStep(code, i, s, more, block);
      ScannedBlockFuelMonotone(code, block, s, code[i], fuel - 1, more - 1);
  }

  /** The block, then the rest of the code after its close byte. */
  lemma {:induction false} ScannedBlockFuelMonotone(code: seq<char>, block: Block, s: State, opener: char, fuel: nat, more: nat)
    requires IsOpener(opener)
    requires fuel <= more
    requires var r := RunBlock(opener, block.body, s, fuel);
             (if r.Ok? then Run(code, block.close + 1, r.state, fuel) else r) != OutOfFuel
    ensures var r := RunBlock(opener, block.body, s, fuel);
            var r' := RunBlock(opener, block.body, s, more);
            (if r'.Ok? then Run(code, block.close + 1, r'.state, more) else r')
            == (if r.Ok? then Run(code, block.close + 1, r.state, fuel) else r)
    decreases fuel, 3
  {
    var r := RunBlock(opener, block.body, s, fuel);
    RunBlockFuelMonotone(opener, block.body, s, fuel, more);
    if r.Ok? {
      RunFuelMonotone(code, block.close + 1, r.state, fuel, more);
    }
  }

  lemma {:induction false} CallFuelMonotone(code: seq<char>, i: nat, s: State, fuel: nat, more: nat)
    requires i < |code| && code[i] == '#'
    requires fuel <= more
    requires Run(code, i, s, fuel) != OutOfFuel
    ensures Run(code, i, s, more) == Run(code, i, s, fuel)
    decreases fuel, 0
  {
    CallStep(code, i, s, fuel);
    CallStep(code, i, s, more);
    var r := Run(s.functions[s.fnIndex], 0, s, fuel - 1);
    RunFuelMonotone(s.functions[s.fnIndex], 0, s, fuel - 1, more - 1);
    if r.Ok? {
      RunFuelMonotone(code, i + 1, r.state, fuel - 1, more - 1);
    }
  }

  lemma {:induction false} RunBlockFuelMonotone(opener: char, body: seq<char>, s: State, fuel: nat, more: nat)
    requires IsOpener(opener)
    requires fuel <= more
    requires RunBlock(opener, body, s, fuel) != OutOfFuel
    ensures RunBlock(opener, body, s, more) == RunBlock(opener, body, s, fuel)
    decreases fuel, 2
  {
    match opener
    case '{' =>
    case '(' => if Cell(s) != 0 { RunFuelMonotone(body, 0, s, fuel, more); }
    case '/' => if Cell(s) == 0 { RunFuelMonotone(body, 0, s, fuel, more); }
    case '[' => LoopFuelMonotone(body, s, fuel, more);
  }

  lemma {:induction false} LoopFuelMonotone(body: seq<char>, s: State, fuel: nat, more: nat)
    requires fuel <= more
    requires Loop(body, s, fuel) != OutOfFuel
    ensures Loop(body, s, more) == Loop(body, s, fuel)
    decreases fuel, 1
  {
    if Cell(s) > 0 {
      var r := Run(body, 0, s, fuel - 1);
      RunFuelMonotone(body, 0, s, fuel - 1, more - 1);
      if r.Ok? {
        LoopFuelMonotone(body, r.state, fuel - 1, more - 1);
      }
    }
  }

  // ---- blocks --------------------------------------------------------------

  /** At a block opener, the block's body is exactly the bytes strictly
      between the opener and the first later close byte, and execution goes
      on at the byte after that close byte. */
  lemma BlockResumesAfterClose(code: seq<char>, i: nat, s: State, fuel: nat, close: nat)
    requires i < |code| && IsOpener(code[i]) && fuel > 0
    requires FirstAt(code, i + 1, CloseOf(code[i]), close)
    ensures var r := RunBlock(code[i], code[i + 1..close], s, fuel - 1);
            Run(code, i, s, fuel) == if r.Ok? then Run(code, close + 1, r.state, fuel - 1) else r
  {
    ScanFindsFirst(code, i + 1, CloseOf(code[i]), close);
  }

  /** At a block opener with no close byte after it, the run stops with
      `UnterminatedBlock`, whatever the state. */
  lemma MissingCloseIsUnterminated(code: seq<char>, i: nat, s: State, fuel: nat)
    requires i < |code| && IsOpener(code[i]) && fuel > 0
    requires forall k :: i < k < |code| ==> code[k] != CloseOf(code[i])
    ensures Run(code, i, s, fuel) == UnterminatedBlock
  {
  }

  /** `{b}` stores `b` in the selected slot and changes nothing else. */
  lemma DefineBlock(b: seq<char>, s: State, fuel: nat)
    requires '}' !in b
    ensures Run("{" + b + "}", 0, s, fuel + 1) == Ok(Define(s, b))
  {
    ScanDelimited("{" + b + "}", b, '}');
  }

  /** `{b}#` defines `b` and then runs exactly `b`, in the state the
      definition left. */
  lemma DefineThenCall(b: seq<char>, s: State, fuel: nat)
    requires '}' !in b
    ensures Run("{" + b + "}#", 0, s, fuel + 2) == Run(b, 0, Define(s, b), fuel)
  {
    var code := "{" + b + "}#";
    ScanDelimited(code, b, '}');
    OpenerStep(code, 0, s, fuel + 2, Block(b, |b| + 1));
    var t := Define(s, b);
    assert code[|b| + 2] == '#';
    CallStep(code, |b| + 2, t, fuel + 1);
  }

  /** `(b)` runs `b` exactly once when the cell is non-zero and not at all
      when it is zero. */
  lemma IfNonZeroBlock(b: seq<char>, s: State, fuel: nat)
    requires ')' !in b
    ensures Run("(" + b + ")", 0, s, fuel + 1)
            == if Cell(s) != 0 then Run(b, 0, s, fuel) else Ok(s)
  {
    ScanDelimited("(" + b + ")", b, ')');
  }

  /** `/b\` is the complement of `(b)`: it runs `b` exactly once when the
      cell is zero and not at all otherwise. */
  lemma IfZeroBlock(b: seq<char>, s: State, fuel: nat)
    requires '\\' !in b
    ensures Run("/" + b + "\\", 0, s, fuel + 1)
            == if Cell(s) == 0 then Run(b, 0, s, fuel) else Ok(s)
  {
    ScanDelimited("/" + b + "\\", b, '\\');
  }

  /** `[b]` is the loop over `b`: a cell that starts at or below zero leaves
      the state as it was, and when the loop ends the cell under the cursor
      (wherever the body left it) is at or below zero. */
  lemma WhileBlock(b: seq<char>, s: State, fuel: nat)
    requires ']' !in b
    ensures Run("[" + b + "]", 0, s, fuel + 1) == Loop(b, s, fuel)
    ensures Cell(s) <= 0 ==> Run("[" + b + "]", 0, s, fuel + 1) == Ok(s)
    ensures var r := Run("[" + b + "]", 0, s, fuel + 1);
            r.Ok? ==> Cell(r.state) <= 0
  {
    ScanDelimited("[" + b + "]", b, ']');
  }

  // ---- comments --------------------------------------------------------------

  /** A byte outside the instruction set is skipped without any effect. */
  lemma CommentSkipped(code: seq<char>, i: nat, s: State, fuel: nat)
    requires i < |code| && !IsInstruction(code[i]) && fuel > 0
    ensures Run(code, i, s, fuel) == Run(code, i + 1, s, fuel - 1)
  {
  }

  /** A stretch of comment bytes leaves the state unchanged; it only costs
      one unit of fuel per byte. */
  lemma {:induction false} CommentsAreInert(code: seq<char>, i: nat, s: State, fuel: nat)
    requires i <= |code|
    requires forall k :: i <= k < |code| ==> !IsInstruction(code[k])
    ensures Run(code, i, s, fuel) == if fuel >= |code| - i then Ok(s) else OutOfFuel
    decreases |code| - i
  {
    if i < |code| && fuel > 0 {
      CommentsAreInert(code, i + 1, s, fuel - 1);
    }
  }

  /** A loop whose body cannot change anything never ends once its cell is
      positive: every amount of fuel runs out. */
  lemma {:induction false} InertLoopDiverges(body: seq<char>, s: State, fuel: nat)
    requires Cell(s) > 0
    requires forall k :: 0 <= k < |body| ==> !IsInstruction(body[k])
    ensures Loop(body, s, fuel) == OutOfFuel
    decreases fuel
  {
    if fuel > 0 {
      CommentsAreInert(body, 0, s, fuel - 1);
      if fuel - 1 >= |body| {
        InertLoopDiverges(body, s, fuel - 1);
      }
    }
  }

  /** A body that, started on a positive cell, always finishes on a positive
      cell under the cursor it leaves: such a body never clears the loop's
      condition. */
  ghost predicate KeepsCellPositive(body: seq<char>) {
    forall t: State, f: nat :: Cell(t) > 0 && Run(body, 0, t, f).Ok? ==> Cell(Run(body, 0, t, f).state) > 0
  }

  /** `[...]` over a body that never clears its cell does not terminate once
      the cell is positive: no amount of fuel lets the loop finish. */
  lemma {:induction false} LoopNeverClearedDiverges(body: seq<char>, s: State, fuel: nat)
    requires Cell(s) > 0
    requires KeepsCellPositive(body)
    ensures !Loop(body, s, fuel).Ok?
    decreases fuel
  {
    if fuel > 0 {
      var r := Run(body, 0, s, fuel - 1);
      if r.Ok? {
        assert Cell(r.state) > 0;
        LoopNeverClearedDiverges(body, r.state, fuel - 1);
      }
    }
  }

  // ---- straight-line code --------------------------------------------------

  /** Code made only of simple instructions runs as the composition of their
      single steps, given one unit of fuel per byte. */
  lemma {:induction false} StraightLine(code: seq<char>, i: nat, s: State, fuel: nat)
    requires i <= |code|
    requires forall k :: i <= k < |code| ==> IsSimple(code[k])
    requires fuel >= |code| - i
    ensures Run(code, i, s, fuel) == Ok(StepAll(code[i..], s))
    decreases |code| - i
  {
    if i < |code| {
      SimpleStep(code, i, s, fuel);
      StraightLine(code, i + 1, Step(code[i], s), fuel - 1);
      assert code[i..][1..] == code[i + 1..];
    }
  }

  // ---- the backtick ----------------------------------------------------------

  /** A backtick over a zero cell does nothing. */
  lemma BacktickZero(code: seq<char>, i: nat, s: State, fuel: nat)
    requires i < |code| < TWO_32 && code[i] == '`' && Cell(s) == 0 && fuel > 0
    ensures Run(code, i, s, fuel) == Run(code, i + 1, s, fuel - 1)
  {
  }

  /** A backtick over a positive cell `n` skips the next `n` bytes, and ends
      the current sequence when that lands at or past its end. */
  lemma BacktickSkips(code: seq<char>, i: nat, s: State, fuel: nat)
    requires i < |code| <= MAX32 && code[i] == '`' && Cell(s) > 0 && fuel > 0
    ensures i + Cell(s) + 1 < |code| ==>
              Run(code, i, s, fuel) == Run(code, i + Cell(s) + 1, s, fuel - 1)
    ensures i + Cell(s) + 1 >= |code| ==> Run(code, i, s, fuel) == Ok(s)
  {
  }

  /** A backward jump to before the start of the sequence wraps the unsigned
      index past its end, which ends the current sequence. */
  lemma BacktickBeforeStart(code: seq<char>, i: nat, s: State, fuel: nat)
    requires i < |code| <= MAX32 && code[i] == '`' && i + Cell(s) + 1 < 0 && fuel > 0
    ensures Run(code, i, s, fuel) == Ok(s)
  {
  }

  /** A backtick over -1 jumps back onto itself and never ends. */
  lemma {:induction false} BacktickMinusOneSpins(code: seq<char>, i: nat, s: State, fuel: nat)
    requires i < |code| < TWO_32 && code[i] == '`' && Cell(s) == -1
    ensures Run(code, i, s, fuel) == OutOfFuel
    decreases fuel
  {
    if fuel > 0 {
      BacktickMinusOneSpins(code, i, s, fuel - 1);
    }
  }
}
