# wot++ interpreter core in Dafny

This project models the execution engine of the wot++ interpreter (`execute` in
`main.cpp`). wot++ is a character-driven esoteric language over a 256×256 grid
of signed 32-bit cells. The model has three parts, each a pure function over an
immutable record:

- **Interpreter state** (`machine.dfy`, module `Machine`). This holds the grid
  `cells[y][x]`, the cursor `x`/`y` and the function-pointer index `fnIndex`.
  All three indices are `uint8_t` in the source and wrap modulo 256. It also
  holds the 256 function slots, the `temp` register, the input stream with its
  read position, and the output written so far. Each single-byte instruction is
  a function on this record, and `Step` dispatches a byte to it.
- **Cell arithmetic** (`cell_arith.dfy`, module `CellArith`). `+`, `-` and `*`
  wrap as 32-bit two's complement. `|` and `%` follow C++ truncating division.
  `Halve` and `Remainder` apply Dafny's Euclidean `/` and `%` only to
  non-negative operands. The wrap-arounds, of the cells modulo 2^32 and of the
  cursor and function index modulo 256, rely on Euclidean `%` on negative
  values too, because that is exactly the unsigned reduction.
- **Block scanner** (`scanner.dfy`, module `Scanner`). The source inlines the
  scanner four times. `ScanBlock` copies the bytes after an opener up to the
  first close byte. It does not track nesting. `CopyBlock` is the same scan
  written as the source's push-back loop, and is proved equal to it.
- **Executor** (`interpreter.dfy`, module `Interpreter`). `Run(code, i, s, fuel)`
  is the `for` loop standing at index `i`. `RunBlock` gives the meaning of the
  four block kinds, and `Loop` is the `[...]` loop. Executing a byte costs one unit
  of fuel. For an opener or a `#`, that same unit also pays for entering the
  block body or the called slot, so `(b)` costs one unit more than `b`. Only
  each iteration of a `[...]` loop costs a unit of its own. A run ends in `Ok(state)`,
  `OutOfFuel` or `UnterminatedBlock`.

The laws are in `control_laws.dfy`, `instruction_laws.dfy`, `slot_laws.dfy` and
`programs.dfy`:

- `ControlLaws` covers blocks, calls, the backtick and comment bytes, plus fuel
  monotonicity and I/O monotonicity.
- `InstructionLaws` covers the frame of each instruction, the pairs of
  instructions that undo each other, and the mod-256 cycles.
- `SlotLaws` proves that no function slot ever holds a `}`.
- `Programs` holds small example programs.

All source references below are to `main.cpp`.

## Model

| member | source | states |
|---|---|---|
| CellArith.Wrap | main.cpp:140-153 | the result is a 32-bit value congruent to the input modulo 2^32; in-range values are unchanged |
| CellArith.Increment | main.cpp:140-143 | `+` gives the successor, except that INT32_MAX wraps to INT32_MIN |
| CellArith.Decrement | main.cpp:145-148 | `-` gives the predecessor, except that INT32_MIN wraps to INT32_MAX |
| CellArith.Double | main.cpp:150-153 | `*` gives a value congruent to 2v modulo 2^32, which is exactly 2v when 2v fits in 32 bits |
| CellArith.Complement | main.cpp:110-113 | `!` (C++ bitwise `~`) flips the sign: the result is negative exactly when the cell is non-negative |
| CellArith.Halve | main.cpp:155-158 | `/ 2` truncates toward zero: v - 2q is in {0, 1} for v ≥ 0 and in {-1, 0} for v < 0 |
| CellArith.Remainder | main.cpp:160-163 | `% 2` is 0 or 1 for a non-negative cell, and 0 or -1 for a negative one |
| CellArith.HalveRemainder | main.cpp:155-163 | the C++ identity (v/2)*2 + v%2 == v; a non-zero remainder has the sign of v |
| CellArith.IncrementDecrement | main.cpp:140-148 | incrementing and decrementing undo each other, in either order, across the wrap |
| CellArith.ComplementInvolutive | main.cpp:110-113 | bitwise NOT applied twice is the identity |
| Machine.Initial | main.cpp:34-37 | at start every cell, the cursor, the function index and temp are 0, every slot is empty, and nothing is read or written |
| Machine.SetCellFrame | main.cpp:36 | writing `cells[cells_y][cells_x]` sets exactly that cell; every other cell and field keeps its value |
| Machine.ReadSpec | main.cpp:175-178 | `,` stores the next unread input byte and consumes it; at end of input it stores -1 (EOF) and consumes nothing; only the cell changes |
| Machine.Define | main.cpp:53 | `{` replaces only the slot at `func_ptr_index`; the other 255 slots and every other field are unchanged |
| Machine.Step | main.cpp:210-212 | a byte that is not a one-byte instruction leaves the state unchanged; comment bytes therefore do nothing |
| Machine.StepAdvancesIo | main.cpp:165-178 | a single instruction consumes input only from the front, never past its end, and only appends output |
| Scanner.ScanBlock | main.cpp:43-51 | the body is exactly the bytes between the opener and the FIRST later close byte, which it never contains; when there is no close byte the result is None |
| Scanner.ScanFindsFirst | main.cpp:57-65 | wherever the first close byte after the opener is, the scanner stops on it and returns the bytes before it |
| Scanner.ScanDelimited | main.cpp:73-81 | for the text opener + body + close, where the body has no close byte, the scan returns exactly that body and ends on that close byte |
| Scanner.CopyBlock | main.cpp:89-97 | the push-back loop finds a block exactly when `ScanBlock` does, and then returns the same body and close index |
| Interpreter.Jump | main.cpp:105-108 | the backtick's target is i + n + 1 modulo 2^32, because the index is unsigned and the for loop adds one after the jump |
| Interpreter.Loop | main.cpp:99-100 | a loop whose cell starts at or below 0 changes nothing; a loop that ends leaves the cell under the final cursor at or below 0 |
| ControlLaws.SimpleStep | main.cpp:40-41 | a simple instruction or comment byte applies its step, then execution continues at the next byte |
| ControlLaws.BacktickStep | main.cpp:105-108 | a backtick changes only the index within the current sequence |
| ControlLaws.CallStep | main.cpp:200-203 | `#` runs the selected slot's body as it is at call time, then continues after the `#` |
| ControlLaws.OpenerStep | main.cpp:43-103 | at an opener whose block is scanned, the block runs, then execution continues after the close byte; a failure inside the block ends the run |
| ControlLaws.BlockResumesAfterClose | main.cpp:43-55 | the block's body is exactly the bytes strictly between the opener and the first close byte, and execution resumes at the byte after that close byte |
| ControlLaws.MissingCloseIsUnterminated | main.cpp:48-51 | an opener with no close byte after it ends the run with UnterminatedBlock, in any state |
| ControlLaws.DefineBlock | main.cpp:43-55 | the program `{b}` stores `b` in the selected slot and changes nothing else |
| ControlLaws.DefineThenCall | main.cpp:200-203 | `{b}#` behaves exactly like running `b` after the definition |
| ControlLaws.IfNonZeroBlock | main.cpp:57-71 | `(b)` runs `b` exactly once when the cell is non-zero, and not at all otherwise |
| ControlLaws.IfZeroBlock | main.cpp:73-87 | `/b\` is the complement of `(b)`: it runs `b` once exactly when the cell is zero |
| ControlLaws.WhileBlock | main.cpp:89-103 | `[b]` is the loop over `b`; it leaves the state unchanged when the cell starts ≤ 0, and ends only with the current cell ≤ 0 |
| ControlLaws.LoopNeverClearedDiverges | main.cpp:99-100 | a loop whose body, started on a positive cell, always finishes on a positive cell never finishes itself once its cell is positive, for any amount of fuel |
| ControlLaws.InertLoopDiverges | main.cpp:99-100 | a loop over a body with no instructions runs out of fuel, for any amount of fuel, once its cell is positive |
| ControlLaws.CommentSkipped | main.cpp:210-212 | a non-instruction byte is skipped with no effect |
| ControlLaws.CommentsAreInert | main.cpp:210-212 | code made only of comment bytes finishes with the state unchanged when given one unit of fuel per byte, and runs out of fuel otherwise |
| ControlLaws.StraightLine | main.cpp:40-41 | code made only of simple instructions runs as the composition of their single steps, left to right |
| ControlLaws.BacktickZero | main.cpp:105-108 | a backtick over a zero cell is a no-op |
| ControlLaws.BacktickSkips | main.cpp:105-108 | a backtick over a positive n skips the next n bytes; if the target is at or past the end, the current sequence ends |
| ControlLaws.BacktickBeforeStart | main.cpp:105-108 | a jump to before index 0 wraps the unsigned index past the end, which ends the current sequence |
| ControlLaws.BacktickMinusOneSpins | main.cpp:105-108 | a backtick over -1 lands on itself and never ends |
| ControlLaws.RunAdvancesIo | main.cpp:39-215 | over any finished run, input is read only from the front and never past its end, and output is only appended to |
| ControlLaws.ExecuteReadsPrefix | main.cpp:175-178 | a whole program reads a prefix of its input and never reads more bytes than there are |
| ControlLaws.RunFuelMonotone | main.cpp:39-215 | fuel is only a bound: a run that does not run out of fuel gives the same outcome with any larger amount |
| InstructionLaws.NotTwice | main.cpp:110-113 | `!!` restores the state |
| InstructionLaws.CellOpStep | main.cpp:110-163 | each cell instruction stores its arithmetic result in the current cell and changes nothing else: `!` the bitwise NOT, `+` the wrapping successor, `-` the wrapping predecessor, `|` the truncating half, `%` the truncating remainder |
| InstructionLaws.ClearZeroesOneCell | main.cpp:115-118 | `~` makes the current cell 0 and touches no other cell or field |
| InstructionLaws.StoreOnlyTemp | main.cpp:185-188 | `&` sets temp to the cell and changes nothing else |
| InstructionLaws.LoadSetsCell | main.cpp:180-183 | `?` sets the cell to temp and changes nothing else |
| InstructionLaws.StoreThenLoad | main.cpp:180-188 | `&` followed by `?` writes the cell's own value back, so the cell and every other field are as after `&` alone |
| InstructionLaws.IncDecInverse | main.cpp:140-148 | `+-` and `-+` restore the state, also at the 32-bit boundaries |
| InstructionLaws.DoubleWraps | main.cpp:150-153 | `*` stores the low 32 bits of twice the cell and touches nothing else |
| InstructionLaws.HalfAndRemainder | main.cpp:155-163 | cell == 2·(after `|`) + (after `%`), and the remainder never has the opposite sign to the cell |
| InstructionLaws.WritesAppendOneEvent | main.cpp:165-173 | `@` appends the cell's value and `.` appends the byte of its low 8 bits; neither changes anything else |
| InstructionLaws.RightLeftUndo | main.cpp:120-128 | `><` and `<>` are the identity, also across column 0/255 |
| InstructionLaws.DownUpUndo | main.cpp:130-138 | `v^` and `^v` are the identity, also across row 0/255 |
| InstructionLaws.NextPrevSlotUndo | main.cpp:190-198 | `:;` and `;:` are the identity, also across slot 0/255 |
| InstructionLaws.HomeKeepsRow | main.cpp:205-208 | `$` moves to column 0 of the same row, forgets any earlier column move, and changes nothing else |
| InstructionLaws.RepeatedMove | main.cpp:120-138 | n copies of one move shift that index by n modulo 256 and change nothing else |
| InstructionLaws.MoveCycle | main.cpp:35 | 256 copies of any one move return the state to where it started |
| SlotLaws.RunKeepsSlotsClean | main.cpp:43-55 | if no slot holds `}` before a run, none holds `}` after it |
| SlotLaws.ExecuteKeepsSlotsClean | main.cpp:37 | whenever a whole program finishes, no function slot holds a `}` |
| SlotLaws.CleanCodeKeepsTable | main.cpp:43-55 | while no slot holds `}`, running code without `}` never changes the function table: every `{` it reaches, at top level or inside a block or a nested call, is unterminated |
| SlotLaws.CallKeepsTable | main.cpp:200-203 | while no slot holds `}`, a `#` call that finishes leaves the function table, including the slot being run, exactly as it was when the call began |
| SlotLaws.DefineInsideCallIsUnterminated | main.cpp:200-203 | a `{` at a top-level index of the called slot's own bytes ends the run with UnterminatedBlock |
| Programs.PrintCharThree | main.cpp:170-173 | `+++.` writes exactly the byte 3 |
| Programs.PrintIntThree | main.cpp:165-168 | `+++@` writes exactly the number 3 |
| Programs.DefineCallPrint | main.cpp:200-203 | `{+}#@` writes exactly 1 |
| Programs.IfNonZeroPrints | main.cpp:57-71 | `+(+)@` writes exactly 2 |
| Programs.IfZeroSkipped | main.cpp:73-87 | `+/+  \@` writes exactly 1 |
| Programs.UnclosedParenthesis | main.cpp:62-65 | `(` ends with UnterminatedBlock |
| Programs.EmptyLoopNeverEnds | main.cpp:99-100 | `+[]` runs out of fuel for every amount of fuel |
| Programs.ScanStopsAtFirstClose | main.cpp:62-65 | the body of `(a(b)c)` is `a(b` |
| Programs.NestedSameKindIsUnterminated | main.cpp:57-71 | `+(+(+)+)@` ends with UnterminatedBlock, because blocks of one kind do not nest |
| Programs.ReadThenPrint | main.cpp:175-178 | `,@` writes the first input byte, or -1 on empty input |
| Programs.PrintLoopNeverEnds | main.cpp:99-100 | `+[@]` never finishes, for any amount of fuel, because `@` does not change the cell |
| Programs.LoopRetestsMovedCursor | main.cpp:99-100 | in `+[>]` the loop re-tests the cell under the moved cursor and stops after one iteration, at column 1 |
| Programs.MoveCycleProgram | main.cpp:120-138 | a program of 256 copies of one move byte (`>`, `<`, `^` or `v` here, and `:` or `;` of main.cpp:190-198 likewise) ends in the state it started in |

## Behaviour worth noting

- The backtick advances the index by the cell and then by one more, because the
  `for` loop adds one. A cell value of n therefore skips n bytes, and n = -1
  repeats the backtick forever. The index is `unsigned`, so a jump to before
  index 0 ends the current sequence. One exception: a jump that lands exactly
  one byte before index 0 wraps round and continues at index 0.
- `+(+)@` writes 2. Cells start at 0, and the leading `+` sets the cell to 1
  before `(` is reached.
- There is no separate recursion-limit error. Deep nesting and non-termination
  both end in `OutOfFuel`, because fuel bounds steps and depth together.

## Left out

- `main` (main.cpp:217-234): argument checking and reading the file. The
  program is given as a `seq<char>` in which each `char` stands for one byte
  of the file, so its values are 0..255. The backtick counts bytes, so a
  program must be handed over byte by byte: decoding a multi-byte UTF-8
  comment character into one `char` would change jump distances.
- Real standard input and output. Input is a fixed `seq<Byte>` with a read
  position, so `getchar` yields 0..255, or -1 at end of input. Output is a list
  of events, `OutInt(v)` for `@` and `OutChar(low 8 bits)` for `.`. Decimal
  formatting and stream buffering are not modelled.
- The out-of-range read of the scanning loops when a close byte is missing
  (main.cpp:48, 62, 78, 94). This is undefined behaviour in C++; the model
  reports `UnterminatedBlock` instead.
- Host stack exhaustion from deep recursion (main.cpp:68, 84, 100, 201). Fuel
  replaces it, and `OutOfFuel` is the outcome.
- Signed overflow on `+`, `-` and `*` (main.cpp:141, 146, 151). This is
  undefined behaviour in C++. The model fixes it as 32-bit two's-complement
  wrap-around.
- `#` iterates over a reference to the live slot (main.cpp:201), while a `{`
  inside the call could reassign that slot (main.cpp:53). The model copies the
  slot's bytes at call time. `SlotLaws` proves that the reassignment cannot
  happen. No slot ever contains `}`, so every `{` reached during a call is
  unterminated, and a call that finishes leaves the function table unchanged.
- Programs of 2^31 bytes or more. `Jump` is exact for any index below 2^32, but
  `BacktickSkips` and `BacktickBeforeStart` assume a program shorter than
  2^31 bytes.
- CellArith.Complement: its contract states the sign flip and, via
  `ComplementInvolutive`, that it is its own inverse. It does not state
  bit-for-bit equality with `~` on a 32-bit word. The body, -v - 1, is the
  two's-complement identity for it.
- Interpreter.Run, Interpreter.RunBlock and Interpreter.Execute carry no
  `ensures` of their own. What they guarantee is stated by the lemmas in
  `ControlLaws`, `SlotLaws` and `Programs`.
