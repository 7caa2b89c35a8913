/** The executor: `execute` of main.cpp as a fuel-bounded function.

    `Run(code, i, s, fuel)` is main.cpp's `for` loop standing at index `i`
    of `code`. Executing a byte costs one unit of fuel; for an opener or a
    `#` that same unit also pays for entering the block body or the called
    slot, and only each iteration of a `[...]` loop costs a unit of its own.
    So fuel bounds both the length of a run and its nesting depth; a run that would need more
    ends in `OutOfFuel`. That covers the three ways a program can fail to
    stop (a `[...]` loop that never clears its cell, a backward backtick, a
    function that calls itself) and the host stack overflow that deep
    recursion causes in the C++ interpreter. */
module Interpreter {
  import opened CellArith
  import opened Machine
  import opened Scanner

  datatype Outcome = Ok(state: State) | OutOfFuel | UnterminatedBlock

  /** The four bytes that open a block. */
  predicate IsOpener(c: char) {
    c == '{' || c == '(' || c == '/' || c == '['
  }

  /** The byte that closes the block each opener starts. */
  function CloseOf(opener: char): char
    requires IsOpener(opener)
  {
    match opener
    case '{' => '}'
    case '(' => ')'
    case '/' => '\\'
    case '[' => ']'
  }

  /** The index after a backtick at `i` over the value `n`: main.cpp adds
      the int32 `n` to the `unsigned` index and then steps past it, both
      modulo 2^32. A negative `n` therefore lands far past the end unless
      it stays at or after index 0. */
  function Jump(i: nat, n: Int32): (r: nat)
    ensures r < TWO_32
    ensures 0 <= i + n + 1 < TWO_32 ==> r == i + n + 1
    ensures i < TWO_32 && i + n + 1 < 0 ==> r == i + n + 1 + TWO_32
    ensures i < TWO_32 && i + n + 1 >= TWO_32 ==> r == i + n + 1 - TWO_32
  {
    (i + n + 1) % TWO_32
  }

  /** Execute `code` from index `i` on. */
  function Run(code: seq<char>, i: nat, s: State, fuel: nat): Outcome
    decreases fuel, 0
  {
    if i >= |code| then Ok(s)
    else if fuel == 0 then OutOfFuel
    else
      var c := code[i];
      if IsOpener(c) then
        match ScanBlock(code, i + 1, CloseOf(c))
        case None => UnterminatedBlock
        case Some(block) =>
          var r := RunBlock(c, block.body, s, fuel - 1);
          if r.Ok? then
            Run(code, block.close + 1, r.state, fuel - 1)
          else r
      else if c == '`' then
        Run(code, Jump(i, Cell(s)), s, fuel - 1)
      else if c == '#' then
        var r := Run(s.functions[s.fnIndex], 0, s, fuel - 1);
        if r.Ok? then
          Run(code, i + 1, r.state, fuel - 1)
        else r
      else
        Run(code, i + 1, Step(c, s), fuel - 1)
  }

  /** What a scanned block does once its body is known. `{` stores the body
      in the selected slot; `(` runs it once if the cell is non-zero, `/` once
      if the cell is zero; `[` loops on it while the cell is positive. */
  function RunBlock(opener: char, body: seq<char>, s: State, fuel: nat): Outcome
    requires IsOpener(opener)
    decreases fuel, 1
  {
    match opener
    case '{' => Ok(Define(s, body))
    case '(' => if Cell(s) != 0 then Run(body, 0, s, fuel) else Ok(s)
    case '/' => if Cell(s) == 0 then Run(body, 0, s, fuel) else Ok(s)
    case '[' => Loop(body, s, fuel)
  }

  /** `while (cell > 0) execute(body)`: the cell is read afresh, under the
      cursor as the previous iteration left it, before every iteration. */
  function Loop(body: seq<char>, s: State, fuel: nat): (r: Outcome)
    decreases fuel, 0
    ensures Cell(s) <= 0 ==> r == Ok(s)
    ensures r.Ok? ==> Cell(r.state) <= 0
  {
    if Cell(s) <= 0 then Ok(s)
    else if fuel == 0 then OutOfFuel
    else
      var r := Run(body, 0, s, fuel - 1);
      if r.Ok? then
        Loop(body, r.state, fuel - 1)
      else r
  }

  /** A whole program run from the initial state on the given input. */
  function Execute(program: seq<char>, input: seq<Byte>, fuel: nat): Outcome
  {
    Run(program, 0, Initial(input), fuel)
  }
}
