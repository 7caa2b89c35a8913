/** Small example programs run from the initial state, and the consequences
    of first-close-byte block scanning. */
module Programs {
  import opened CellArith
  import opened Machine
  import opened Scanner
  import opened Interpreter
  import opened ControlLaws
  import opened InstructionLaws

  /** `+++.` writes the byte 3. */
  lemma PrintCharThree()
    ensures Execute("+++.", [], 4).Ok?
    ensures Execute("+++.", [], 4).state.output == [OutChar(3)]
  {
    StraightLine("+++.", 0, Initial([]), 4);
  }

  /** `+++@` writes the number 3. */
  lemma PrintIntThree()
    ensures Execute("+++@", [], 4).Ok?
    ensures Execute("+++@", [], 4).state.output == [OutInt(3)]
  {
    StraightLine("+++@", 0, Initial([]), 4);
  }

  /** `{+}#@` defines slot 0 as `+`, calls it, and writes 1. */
  lemma DefineCallPrint()
    ensures Execute("{+}#@", [], 4).Ok?
    ensures Execute("{+}#@", [], 4).state.output == [OutInt(1)]
  {
    var code := "{+}#@";
    var s0 := Initial([]);
    ScanDelimited(code, "+", '}');
    OpenerStep(code, 0, s0, 4, Block("+", 2));
    var s1 := Define(s0, "+");
    CallStep(code, 3, s1, 3);
    StraightLine("+", 0, s1, 2);
    var s2 := Step('+', s1);
    StraightLine(code, 4, s2, 2);
  }

  /** `+(+)@`: the cell is 1 when `(` is reached, so the body runs once and
      the program writes 2. */
  lemma IfNonZeroPrints()
    ensures Execute("+(+)@", [], 4).Ok?
    ensures Execute("+(+)@", [], 4).state.output == [OutInt(2)]
  {
    var code := "+(+)@";
    var s0 := Initial([]);
    SimpleStep(code, 0, s0, 4);
    var s1 := Step('+', s0);
    ScanDelimited(code[1..], "+", ')');
    assert code[1..][1..] == code[2..];
    OpenerStep(code, 1, s1, 3, Block("+", 3));
    StraightLine("+", 0, s1, 2);
    var s2 := Step('+', s1);
    StraightLine(code, 4, s2, 2);
  }

  /** `+/+  \@`: the cell is 1 when `/` is reached, so the body is skipped
      and the program writes 1. */
  lemma IfZeroSkipped()
    ensures Execute("+/+  \\@", [], 4).Ok?
    ensures Execute("+/+  \\@", [], 4).state.output == [OutInt(1)]
  {
    var code := "+/+  \\@";
    var s0 := Initial([]);
    SimpleStep(code, 0, s0, 4);
    var s1 := Step('+', s0);
    assert code[2..5] == "+  ";
    ScanFindsFirst(code, 2, '\\', 5);
    OpenerStep(code, 1, s1, 3, Block("+  ", 5));
    StraightLine(code, 6, s1, 2);
  }

  /** An opener without its close byte stops the program with
      `UnterminatedBlock` instead of reading past the end. */
  lemma UnclosedParenthesis(fuel: nat)
    requires fuel > 0
    ensures Execute("(", [], fuel) == UnterminatedBlock
  {
  }

  /** `+[]`: the loop's cell is 1 and the empty body never changes it, so no
      amount of fuel is enough. */
  lemma EmptyLoopNeverEnds(fuel: nat)
    ensures Execute("+[]", [], fuel) == OutOfFuel
  {
    var code := "+[]";
    var s0 := Initial([]);
    if fuel > 0 {
      SimpleStep(code, 0, s0, fuel);
      var s1 := Step('+', s0);
      SetCellFrame(s0, 1);
      if fuel > 1 {
        OpenerStep(code, 1, s1, fuel - 1, Block([], 2));
        InertLoopDiverges([], s1, fuel - 2);
      }
    }
  }

  /** `@` writes the cell and leaves it as it was, so it never clears a
      positive cell. */
  lemma PrintKeepsCellPositive()
    ensures KeepsCellPositive("@")
  {
    forall t: State, f: nat | Cell(t) > 0 && Run("@", 0, t, f).Ok?
      ensures Cell(Run("@", 0, t, f).state) > 0
    {
      SimpleStep("@", 0, t, f);
    }
  }

  /** `+[@]`: the body writes the cell but never changes it, so the loop
      never finishes, whatever the fuel. */
  lemma PrintLoopNeverEnds(fuel: nat)
    ensures !Execute("+[@]", [], fuel).Ok?
  {
    var code := "+[@]";
    var s0 := Initial([]);
    if fuel > 0 {
      SimpleStep(code, 0, s0, fuel);
      var s1 := Step('+', s0);
      SetCellFrame(s0, 1);
      if fuel > 1 {
        assert code[2..3] == "@";
        ScanFindsFirst(code, 2, ']', 3);
        OpenerStep(code, 1, s1, fuel - 1, Block("@", 3));
        PrintKeepsCellPositive();
        LoopNeverClearedDiverges("@", s1, fuel - 2);
      }
    }
  }

  /** Blocks do not nest: in `(a(b)c)` the body of the outer block ends at
      the first `)`, so it is `a(b`. */
  lemma ScanStopsAtFirstClose()
    ensures ScanBlock("(a(b)c)", 1, ')') == Some(Block("a(b", 4))
  {
    assert "(a(b)c)"[1..4] == "a(b";
    ScanFindsFirst("(a(b)c)", 1, ')', 4);
  }

  /** The same in a running program: `+(+(+)+)@` would write 4 if blocks
      nested, but the outer body is `+(+`, whose own `(` has no `)`. */
  lemma NestedSameKindIsUnterminated()
    ensures Execute("+(+(+)+)@", [], 10) == UnterminatedBlock
  {
    var code := "+(+(+)+)@";
    var s0 := Initial([]);
    SimpleStep(code, 0, s0, 10);
    var s1 := Step('+', s0);
    SetCellFrame(s0, 1);
    assert code[2..5] == "+(+";
    ScanFindsFirst(code, 2, ')', 5);
    OpenerStep(code, 1, s1, 9, Block("+(+", 5));
    var body := "+(+";
    SimpleStep(body, 0, s1, 8);
    var s2 := Step('+', s1);
    MissingCloseIsUnterminated(body, 1, s2, 7);
  }

  /** `,@` reads the first input byte and writes its value; on empty input
      it writes -1, the EOF value. */
  lemma ReadThenPrint(b: Byte)
    ensures Execute(",@", [b], 2).Ok?
    ensures Execute(",@", [b], 2).state.output == [OutInt(b)]
    ensures Execute(",@", [], 2).Ok?
    ensures Execute(",@", [], 2).state.output == [OutInt(-1)]
  {
    StraightLine(",@", 0, Initial([b]), 2);
    ReadSpec(Initial([b]));
    StraightLine(",@", 0, Initial([]), 2);
    ReadSpec(Initial([]));
  }

  /** `+[>]`: the loop tests the cell under the cursor as the body left it.
      The first test sees cell (0, 0) = 1; the body moves right, the second
      test sees the still-zero cell (0, 1), and the loop ends there with cell
      (0, 0) still 1. */
  lemma LoopRetestsMovedCursor()
    ensures Execute("+[>]", [], 10).Ok?
    ensures var t := Execute("+[>]", [], 10).state;
            t.x == 1 && t.y == 0 && t.cells[0][0] == 1 && Cell(t) == 0
  {
    var code := "+[>]";
    var s0 := Initial([]);
    SimpleStep(code, 0, s0, 10);
    var s1 := Step('+', s0);
    SetCellFrame(s0, 1);
    assert code[2..3] == ">";
    ScanFindsFirst(code, 2, ']', 3);
    OpenerStep(code, 1, s1, 9, Block(">", 3));
    StraightLine(">", 0, s1, 7);
    var s2 := Step('>', s1);
    assert Cell(s2) == 0;
  }

  /** A program of 256 copies of one move byte ends where it started. */
  lemma MoveCycleProgram(c: char, s: State)
    requires IsMove(c)
    ensures Run(Repeat(c, 256), 0, s, 256) == Ok(s)
  {
    StraightLine(Repeat(c, 256), 0, s, 256);
    assert Repeat(c, 256)[0..] == Repeat(c, 256);
    MoveCycle(c, s);
  }
}
