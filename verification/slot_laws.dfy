/** An invariant of the function table: no slot ever holds a `}` byte,
    because every slot is either empty or a body the scanner cut off at its
    first `}`.

    Its consequence for `#`: a `{` inside a called function can never find
    its `}`, so a function body can never redefine a slot while it runs.
    main.cpp iterates over a reference to the live slot, which a
    redefinition would invalidate; under this invariant that redefinition is
    unreachable, and the model's copy-at-call-time reading of `#` loses
    nothing. */
module SlotLaws {
  import opened Machine
  import opened Scanner
  import opened Interpreter
  import opened ControlLaws

  ghost predicate SlotsClean(s: State) {
    forall k: Byte :: '}' !in s.functions[k]
  }

  lemma StepKeepsFunctions(c: char, s: State)
    ensures Step(c, s).functions == s.functions
  {
  }

  lemma {:induction false} RunKeepsSlotsClean(code: seq<char>, i: nat, s: State, fuel: nat)
    requires SlotsClean(s)
    ensures Run(code, i, s, fuel).Ok? ==> SlotsClean(Run(code, i, s, fuel).state)
    decreases fuel, 1
  {
    if i < |code| && fuel > 0 {
      var c := code[i];
      if IsOpener(c) {
        match ScanBlock(code, i + 1, CloseOf(c))
        case None =>
        case Some(block) =>
          OpenerStep(code, i, s, fuel, block);
          ScannedBlockKeepsSlotsClean(code, block, s, c, fuel - 1);
      } else if c == '`' {
        BacktickStep(code, i, s, fuel);
        RunKeepsSlotsClean(code, Jump(i, Cell(s)), s, fuel - 1);
      } else if c == '#' {
        CallStep(code, i, s, fuel);
        var r := Run(s.functions[s.fnIndex], 0, s, fuel - 1);
        RunKeepsSlotsClean(s.functions[s.fnIndex], 0, s, fuel - 1);
        if r.Ok? {
          RunKeepsSlotsClean(code, i + 1, r.state, fuel - 1);
        }
      } else {
        SimpleStep(code, i, s, fuel);
        StepKeepsFunctions(c, s);
        RunKeepsSlotsClean(code, i + 1, Step(c, s), fuel - 1);
      }
    }
  }

  lemma {:induction false} ScannedBlockKeepsSlotsClean(code: seq<char>, block: Block, s: State, opener: char, fuel: nat)
    requires IsOpener(opener) && CloseOf(opener) !in block.body
    requires SlotsClean(s)
    ensures var r := RunBlock(opener, block.body, s, fuel);
            var t := if r.Ok? then Run(code, block.close + 1, r.state, fuel) else r;
            t.Ok? ==> SlotsClean(t.state)
    decreases fuel, 3
  {
    var r := RunBlock(opener, block.body, s, fuel);
    RunBlockKeepsSlotsClean(opener, block.body, s, fuel);
    if r.Ok? {
      RunKeepsSlotsClean(code, block.close + 1, r.state, fuel);
    }
  }

  lemma {:induction false} RunBlockKeepsSlotsClean(opener: char, body: seq<char>, s: State, fuel: nat)
    requires IsOpener(opener) && CloseOf(opener) !in body
    requires SlotsClean(s)
    ensures RunBlock(opener, body, s, fuel).Ok? ==> SlotsClean(RunBlock(opener, body, s, fuel).state)
    decreases fuel, 2
  {
    match opener
    case '{' =>
    case '(' => RunKeepsSlotsClean(body, 0, s, fuel);
    case '/' => RunKeepsSlotsClean(body, 0, s, fuel);
    case '[' => LoopKeepsSlotsClean(body, s, fuel);
  }

  lemma {:induction false} LoopKeepsSlotsClean(body: seq<char>, s: State, fuel: nat)
    requires SlotsClean(s)
    ensures Loop(body, s, fuel).Ok? ==> SlotsClean(Loop(body, s, fuel).state)
    decreases fuel, 1
  {
    if Cell(s) > 0 && fuel > 0 {
      var r := Run(body, 0, s, fuel - 1);
      RunKeepsSlotsClean(body, 0, s, fuel - 1);
      if r.Ok? {
        LoopKeepsSlotsClean(body, r.state, fuel - 1);
      }
    }
  }

  /** In every run of a whole program, no slot ever holds a `}`. */
  lemma ExecuteKeepsSlotsClean(program: seq<char>, input: seq<Byte>, fuel: nat)
    ensures Execute(program, input, fuel).Ok? ==> SlotsClean(Execute(program, input, fuel).state)
  {
    RunKeepsSlotsClean(program, 0, Initial(input), fuel);
  }

  /** A slice of `}`-free code is `}`-free. */
  lemma NoCloseInSlice(code: seq<char>, a: nat, b: nat)
    requires '}' !in code && a <= b <= |code|
    ensures '}' !in code[a..b]
  {
    forall k | a <= k < b
      ensures code[k] != '}'
    {
      assert code[k] in code;
    }
  }

  /** Code with no `}` in it never changes the function table while the slots
      are clean: each `{` it reaches is unterminated, wherever it sits, and
      every block body and every called slot is `}`-free too. */
  lemma {:induction false} CleanCodeKeepsTable(code: seq<char>, i: nat, s: State, fuel: nat)
    requires SlotsClean(s) && '}' !in code
    ensures Run(code, i, s, fuel).Ok? ==> Run(code, i, s, fuel).state.functions == s.functions
    decreases fuel, 1
  {
    if i < |code| && fuel > 0 {
      var c := code[i];
      if c == '{' {
        NoCloseInSlice(code, i + 1, |code|);
        assert forall k :: i + 1 <= k < |code| ==> code[i + 1..][k - (i + 1)] == code[k];
        assert ScanBlock(code, i + 1, '}').None?;
      } else if IsOpener(c) {
        match ScanBlock(code, i + 1, CloseOf(c))
        case None =>
        case Some(block) =>
          OpenerStep(code, i, s, fuel, block);
          NoCloseInSlice(code, i + 1, block.close);
          ScannedBlockKeepsTable(code, block, s, c, fuel - 1);
      } else if c == '`' {
        BacktickStep(code, i, s, fuel);
        CleanCodeKeepsTable(code, Jump(i, Cell(s)), s, fuel - 1);
      } else if c == '#' {
        CallStep(code, i, s, fuel);
        var r := Run(s.functions[s.fnIndex], 0, s, fuel - 1);
        CleanCodeKeepsTable(s.functions[s.fnIndex], 0, s, fuel - 1);
        if r.Ok? {
          CleanCodeKeepsTable(code, i + 1, r.state, fuel - 1);
        }
      } else {
        SimpleStep(code, i, s, fuel);
        StepKeepsFunctions(c, s);
        CleanCodeKeepsTable(code, i + 1, Step(c, s), fuel - 1);
      }
    }
  }

  lemma {:induction false} ScannedBlockKeepsTable(code: seq<char>, block: Block, s: State, opener: char, fuel: nat)
    requires IsOpener(opener) && opener != '{'
    requires SlotsClean(s) && '}' !in code && '}' !in block.body
    ensures var r := RunBlock(opener, block.body, s, fuel);
            var t := if r.Ok? then Run(code, block.close + 1, r.state, fuel) else r;
            t.Ok? ==> t.state.functions == s.functions
    decreases fuel, 3
  {
    var r := RunBlock(opener, block.body, s, fuel);
    RunBlockKeepsTable(opener, block.body, s, fuel);
    if r.Ok? {
      CleanCodeKeepsTable(code, block.close + 1, r.state, fuel);
    }
  }

  lemma {:induction false} RunBlockKeepsTable(opener: char, body: seq<char>, s: State, fuel: nat)
    requires IsOpener(opener) && opener != '{'
    requires SlotsClean(s) && '}' !in body
    ensures RunBlock(opener, body, s, fuel).Ok? ==> RunBlock(opener, body, s, fuel).state.functions == s.functions
    decreases fuel, 2
  {
    match opener
    case '(' => CleanCodeKeepsTable(body, 0, s, fuel);
    case '/' => CleanCodeKeepsTable(body, 0, s, fuel);
    case '[' => LoopKeepsTable(body, s, fuel);
  }

  lemma {:induction false} LoopKeepsTable(body: seq<char>, s: State, fuel: nat)
    requires SlotsClean(s) && '}' !in body
    ensures Loop(body, s, fuel).Ok? ==> Loop(body, s, fuel).state.functions == s.functions
    decreases fuel, 1
  {
    if Cell(s) > 0 && fuel > 0 {
      var r := Run(body, 0, s, fuel - 1);
      CleanCodeKeepsTable(body, 0, s, fuel - 1);
      if r.Ok? {
        LoopKeepsTable(body, r.state, fuel - 1);
      }
    }
  }

  /** While the slots are clean, a `#` call never changes the function table:
      the slot being run stays exactly the bytes that were copied when the
      call began. */
  lemma CallKeepsTable(s: State, fuel: nat)
    requires SlotsClean(s)
    ensures var r := Run(s.functions[s.fnIndex], 0, s, fuel);
            r.Ok? ==> r.state.functions == s.functions
  {
    CleanCodeKeepsTable(s.functions[s.fnIndex], 0, s, fuel);
  }

  /** A `{` at any index of a called slot's own bytes is unterminated. */
  lemma DefineInsideCallIsUnterminated(s: State, i: nat, t: State, fuel: nat)
    requires SlotsClean(s)
    requires i < |s.functions[s.fnIndex]| && s.functions[s.fnIndex][i] == '{'
    requires fuel > 0
    ensures Run(s.functions[s.fnIndex], i, t, fuel) == UnterminatedBlock
  {
    var code := s.functions[s.fnIndex];
    forall k | i < k < |code|
      ensures code[k] != '}'
    {
      assert code[k] in code;
    }
    MissingCloseIsUnterminated(code, i, t, fuel);
  }
}
