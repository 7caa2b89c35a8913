/** The interpreter state (the globals of main.cpp) and the effect of every
    single-byte instruction that neither opens a block nor transfers control.

    The state is an immutable record; each instruction is a pure function from
    the state before it to the state after it. Standard input and output are
    part of the record: the bytes still to be read, and the events written so
    far. */
module Machine {
  import opened CellArith

  /** A `uint8_t`: the cursor coordinates and the function-slot index. */
  type Byte = b: int | 0 <= b < 256

  /** One row of the grid: 256 cells, indexed by the column `x`. */
  type Row = r: seq<Int32> | |r| == 256 witness seq(256, _ => 0)

  const BlankRow: Row := seq(256, _ => 0)

  /** The 256x256 grid, indexed `cells[y][x]` as in main.cpp. */
  type Grid = g: seq<Row> | |g| == 256 witness seq<Row>(256, _ => BlankRow)

  /** The 256 function slots; each holds the bytes of one function body. */
  type Table = t: seq<seq<char>> | |t| == 256 witness seq(256, _ => [])

  /** What the program writes to standard output: `@` writes a cell in
      decimal, `.` writes the byte made of the cell's low 8 bits. */
  datatype Event = OutInt(value: Int32) | OutChar(code: Byte)

  /** `x` is the column (cells_x) and `y` the row (cells_y) of the cursor;
      `fnIndex` is func_ptr_index; `temp` is temp_var. `input` is everything
      standard input will ever deliver and `consumed` how many of its bytes
      have been read; `output` is what has been written so far. */
  datatype State = State(
    cells: Grid,
    x: Byte,
    y: Byte,
    functions: Table,
    fnIndex: Byte,
    temp: Int32,
    input: seq<Byte>,
    consumed: nat,
    output: seq<Event>)

  /** The state at program start: every cell, index and register zero, every
      function slot empty. */
  function Initial(input: seq<Byte>): (s: State)
    ensures forall x: Byte, y: Byte :: s.cells[y][x] == 0
    ensures forall k: Byte :: s.functions[k] == []
    ensures s.x == 0 && s.y == 0 && s.fnIndex == 0 && s.temp == 0
    ensures s.input == input && s.consumed == 0 && s.output == []
  {
    State(seq<Row>(256, _ => BlankRow), 0, 0, seq(256, _ => []), 0, 0, input, 0, [])
  }

  /** The cell under the cursor. */
  function Cell(s: State): Int32 {
    s.cells[s.y][s.x]
  }

  /** `t` differs from `s` at most in the cell under the cursor. */
  ghost predicate OnlyCellChanged(s: State, t: State) {
    && t.x == s.x && t.y == s.y
    && t.functions == s.functions && t.fnIndex == s.fnIndex
    && t.temp == s.temp
    && t.input == s.input && t.consumed == s.consumed && t.output == s.output
    && forall x: Byte, y: Byte :: (x != s.x || y != s.y) ==> t.cells[y][x] == s.cells[y][x]
  }

  /** Store `v` into the cell under the cursor. */
  function SetCell(s: State, v: Int32): State {
    s.(cells := s.cells[s.y := s.cells[s.y][s.x := v]])
  }

  /** `SetCell` writes exactly the cell under the cursor: that cell reads
      back `v`, every other cell and every other field is as before. */
  lemma SetCellFrame(s: State, v: Int32)
    ensures Cell(SetCell(s, v)) == v
    ensures OnlyCellChanged(s, SetCell(s, v))
  {
  }

  /** Standard input and output have only moved forward from `s` to `t`:
      the input stream is the same, no byte of it was un-read and none read
      past its end, and output was only appended to. */
  ghost predicate IoAdvances(s: State, t: State) {
    && t.input == s.input
    && s.consumed <= t.consumed
    && (s.consumed <= |s.input| ==> t.consumed <= |t.input|)
    && s.output <= t.output
  }

  lemma IoAdvancesTransitive(s: State, t: State, u: State)
    requires IoAdvances(s, t) && IoAdvances(t, u)
    ensures IoAdvances(s, u)
  {
  }

  // ---- cell instructions --------------------------------------------------

  /** The instructions that overwrite the cell under the cursor with a value
      computed from the cell and the temp register. */
  predicate IsCellOp(c: char) {
    || c == '!' || c == '~' || c == '+' || c == '-' || c == '*' || c == '|'
    || c == '%' || c == '?'
  }

  /** The value a cell instruction writes, given the cell `v` and `temp`:
      `!` NOT, `~` zero, `+`/`-`/`*` wrap-around increment, decrement and
      doubling, `|`/`%` truncating halving and remainder, `?` the temp
      register. */
  function CellOp(c: char, v: Int32, temp: Int32): Int32
    requires IsCellOp(c)
  {
    match c
    case '!' => Complement(v)
    case '~' => 0
    case '+' => Increment(v)
    case '-' => Decrement(v)
    case '*' => Double(v)
    case '|' => Halve(v)
    case '%' => Remainder(v)
    case '?' => temp
  }

  /** `&`: copy the cell into the temp register. */
  function Store(s: State): State {
    s.(temp := Cell(s))
  }

  // ---- cursor and function-pointer moves ----------------------------------

  /** `>`: cells_x++ on a uint8_t. */
  function Right(s: State): State {
    s.(x := (s.x + 1) % 256)
  }

  /** `<`: cells_x-- on a uint8_t. */
  function Left(s: State): State {
    s.(x := (s.x - 1) % 256)
  }

  /** `^`: cells_y-- on a uint8_t. */
  function Up(s: State): State {
    s.(y := (s.y - 1) % 256)
  }

  /** `v`: cells_y++ on a uint8_t. */
  function Down(s: State): State {
    s.(y := (s.y + 1) % 256)
  }

  /** `$`: back to column 0 of the current row. */
  function Home(s: State): State {
    s.(x := 0)
  }

  /** `:`: func_ptr_index++ on a uint8_t. */
  function NextSlot(s: State): State {
    s.(fnIndex := (s.fnIndex + 1) % 256)
  }

  /** `;`: func_ptr_index-- on a uint8_t. */
  function PrevSlot(s: State): State {
    s.(fnIndex := (s.fnIndex - 1) % 256)
  }

  // ---- input and output ---------------------------------------------------

  /** `@`: write the cell in decimal. */
  function WriteInt(s: State): State {
    s.(output := s.output + [OutInt(Cell(s))])
  }

  /** `.`: write the cell cast to `char`, i.e. its low 8 bits. */
  function WriteChar(s: State): State {
    s.(output := s.output + [OutChar(Cell(s) % 256)])
  }

  /** `,`: getchar() into the cell: the next unread byte of the input, or
      -1 (EOF) once every byte has been read. */
  function Read(s: State): State {
    if s.consumed < |s.input| then SetCell(s.(consumed := s.consumed + 1), s.input[s.consumed])
    else SetCell(s, -1)
  }

  /** `,` consumes one byte while there is one, and reads -1 without
      consuming anything at end of input; it writes nothing but the cell. */
  lemma ReadSpec(s: State)
    ensures s.consumed < |s.input| ==>
              Cell(Read(s)) == s.input[s.consumed] && Read(s).consumed == s.consumed + 1
    ensures s.consumed >= |s.input| ==> Cell(Read(s)) == -1 && Read(s).consumed == s.consumed
    ensures OnlyCellChanged(s.(consumed := Read(s).consumed), Read(s))
  {
    if s.consumed < |s.input| {
      SetCellFrame(s.(consumed := s.consumed + 1), s.input[s.consumed]);
    } else {
      SetCellFrame(s, -1);
    }
  }

  // ---- function table -----------------------------------------------------

  /** The effect of a `{...}` block: slot `fnIndex` now holds `body`. */
  function Define(s: State, body: seq<char>): (r: State)
    ensures r.functions[s.fnIndex] == body
    ensures forall k: Byte :: k != s.fnIndex ==> r.functions[k] == s.functions[k]
    ensures r == s.(functions := r.functions)
  {
    s.(functions := s.functions[s.fnIndex := body])
  }

  // ---- dispatch -----------------------------------------------------------

  /** The bytes whose whole effect is a state change at the current position:
      every instruction except the block openers, the backtick and `#`. */
  predicate IsSimple(c: char) {
    || c == '!' || c == '~' || c == '+' || c == '-' || c == '*' || c == '|'
    || c == '%' || c == '?' || c == '&' || c == '>' || c == '<' || c == '^'
    || c == 'v' || c == '$' || c == ':' || c == ';' || c == '@' || c == '.'
    || c == ','
  }

  /** The bytes the interpreter gives a meaning to; all others are comments. */
  predicate IsInstruction(c: char) {
    || IsSimple(c)
    || c == '{' || c == '(' || c == '/' || c == '[' || c == '`' || c == '#'
  }

  /** The effect of one simple instruction; a comment byte changes nothing. */
  function Step(c: char, s: State): (r: State)
    ensures !IsSimple(c) ==> r == s
  {
    if IsCellOp(c) then SetCell(s, CellOp(c, Cell(s), s.temp))
    else match c
      case '&' => Store(s)
      case '>' => Right(s)
      case '<' => Left(s)
      case '^' => Up(s)
      case 'v' => Down(s)
      case '$' => Home(s)
      case ':' => NextSlot(s)
      case ';' => PrevSlot(s)
      case '@' => WriteInt(s)
      case '.' => WriteChar(s)
      case ',' => Read(s)
      case _ => s
  }

  /** A single step reads input only from the front (`,`) and writes output
      only at the end (`@`, `.`). */
  lemma StepAdvancesIo(c: char, s: State)
    ensures IoAdvances(s, Step(c, s))
  {
  }

  /** The effect of a straight-line run of instructions, one `Step` per byte. */
  function StepAll(code: seq<char>, s: State): State
    decreases |code|
  {
    if code == [] then s else StepAll(code[1..], Step(code[0], s))
  }
}
