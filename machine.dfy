/**
 * The virtual machine (src/main.rs, `interpret` and its helpers
 * `change_value`, `move_pointer`, `positive_jump`, `negative_jump`).
 *
 * Output is the sequence of bytes printed so far. Input is the sequence of
 * lines the standard input would deliver, each as its bytes (a line read by
 * `read_line` keeps its newline; at end of input `read_line` delivers an empty
 * line, which is what an empty or exhausted input sequence stands for here).
 * A guest program need not stop, so a run is bounded by a number of steps.
 */
module Machine {
  import opened Wrappers
  import B = Bytecode

  /** The number of cells of the tape (`[0; 30000]`). */
  const TapeSize: nat := 30000

  /** A Rust `u8`. */
  type Byte = x: int | 0 <= x < 256

  // ---------------------------------------------------------------------------
  // The instruction helpers; `None` is their `panic!`
  // ---------------------------------------------------------------------------

  /** `change_value`: one step up or down, wrapping 255 + 1 to 0 and 0 - 1 to 255;
      any larger change is "Value changed by more than one". */
  function ChangeValue(current: Byte, change: int): (r: Option<Byte>)
    ensures r.Some? <==> -1 <= current + change <= 256
    ensures r.Some? ==> r.value == (current + change) % 256
  {
    var next := current + change;
    if next == 256 then Some(0)
    else if next == -1 then Some(255)
    else if 0 <= next <= 255 then Some(next)
    else None
  }

  /** `move_pointer`: one cell left or right on the circular tape, wrapping 29999 + 1
      to 0 and 0 - 1 to 29999; any larger move is "Pointer moved by more than one". */
  function MovePointer(current: nat, change: int): (r: Option<nat>)
    ensures r.Some? <==> -1 <= current + change <= TapeSize
    ensures r.Some? ==> r.value < TapeSize && r.value == (current + change) % TapeSize
  {
    var next := current + change;
    if next == 30000 then Some(0)
    else if next == -1 then Some(29999)
    else if 0 <= next <= 29999 then Some(next)
    else None
  }

  /** `positive_jump`: to `destination` when the cell is zero, else stay. */
  function PositiveJump(value: Byte, position: nat, destination: nat): (r: nat)
    ensures value == 0 ==> r == destination
    ensures value != 0 ==> r == position
  {
    match value
    case 0 => destination
    case _ => position
  }

  /** `negative_jump`: to `destination` when the cell is not zero, else stay. */
  function NegativeJump(value: Byte, position: nat, destination: nat): (r: nat)
    ensures value != 0 ==> r == destination
    ensures value == 0 ==> r == position
  {
    match value
    case 0 => position
    case _ => destination
  }

  /** Single steps never reach the panics. */
  lemma UnitStepsNeverPanic(value: Byte, pointer: nat, change: int)
    requires change == 1 || change == -1
    requires pointer < TapeSize
    ensures ChangeValue(value, change).Some?
    ensures MovePointer(pointer, change).Some?
  {
  }

  // ---------------------------------------------------------------------------
  // Input: `read` skips lines that are not ASCII
  // ---------------------------------------------------------------------------

  predicate IsAscii(line: seq<Byte>) {
    forall i :: 0 <= i < |line| ==> line[i] < 128
  }

  /**
   * `read`: the first ASCII line and the lines after it. With no ASCII line
   * left the result is the empty line that `read_line` gives at end of input.
   */
  function ReadLine(input: seq<seq<Byte>>): (r: (seq<Byte>, seq<seq<Byte>>))
    ensures IsAscii(r.0)
    ensures |r.1| <= |input| && r.1 == input[|input| - |r.1|..]
  {
    if input == [] then ([], [])
    else if IsAscii(input[0]) then (input[0], input[1..])
    else ReadLine(input[1..])
  }

  /** `read` hands over the first ASCII line, every line before it being skipped
      as not ASCII; with no ASCII line left, it gives the empty end-of-input line. */
  lemma {:induction false} ReadLineSkips(input: seq<seq<Byte>>)
    ensures var r := ReadLine(input);
      || (r == ([], []) && forall i :: 0 <= i < |input| ==> !IsAscii(input[i]))
      || (|r.1| < |input| && r.0 == input[|input| - |r.1| - 1] &&
          forall i :: 0 <= i < |input| - |r.1| - 1 ==> !IsAscii(input[i]))
  {
    if input != [] && !IsAscii(input[0]) {
      var rest := input[1..];
      ReadLineSkips(rest);
      assert ReadLine(input) == ReadLine(rest);
      forall i | 0 <= i < |rest| ensures rest[i] == input[i + 1] { }
    }
  }

  // ---------------------------------------------------------------------------
  // Machine state and one step
  // ---------------------------------------------------------------------------

  /** The panics a run can stop with: the two helpers' and `pop_front().unwrap()`
      on an empty input buffer. */
  datatype Fault = ValueOutOfRange | PointerOutOfRange | InputExhausted

  datatype State = State(
    tape: seq<Byte>,            // `mem`
    pointer: nat,               // `pointer`
    pc: nat,                    // `program_counter`
    buffer: seq<Byte>,          // `input_buffer`, front first
    input: seq<seq<Byte>>,      // the lines standard input has yet to deliver
    output: seq<Byte>)          // every byte printed so far

  ghost predicate Valid(st: State) {
    |st.tape| == TapeSize && st.pointer < TapeSize
  }

  function Initial(input: seq<seq<Byte>>): (st: State)
    ensures Valid(st) && st.pointer == 0 && st.pc == 0
    ensures st.input == input && st.output == [] && st.buffer == []
    ensures forall i :: 0 <= i < TapeSize ==> st.tape[i] == 0
  {
    State(seq(TapeSize, _ => 0), 0, 0, [], input, [])
  }

  datatype StepResult = Next(state: State) | Stop(fault: Fault)

  /**
   * What an instruction other than a jump does to the tape, the pointer, the
   * input and the output. The program counter is left alone: the loop adds
   * one to it afterwards.
   */
  function Execute(b: B.BytecodeElement, st: State): (r: StepResult)
    requires Valid(st) && !B.IsJump(b)
    ensures r.Next? ==> Valid(r.state) && r.state.pc == st.pc
    ensures r.Next? ==> r.state.output == st.output + (if b.Print? then [st.tape[st.pointer]] else [])
    ensures r.Stop? ==>
      || (b.ChangeValue? && r.fault == ValueOutOfRange)
      || (b.MovePointer? && r.fault == PointerOutOfRange)
      || (b.Read? && r.fault == InputExhausted)
  {
    var cell := st.tape[st.pointer];
    match b
    case ChangeValue(val) =>
      (match ChangeValue(cell, val)
       case Some(v) => Next(st.(tape := st.tape[st.pointer := v]))
       case None => Stop(ValueOutOfRange))
    case MovePointer(val) =>
      (match MovePointer(st.pointer, val)
       case Some(p) => Next(st.(pointer := p))
       case None => Stop(PointerOutOfRange))
    case Print => Next(st.(output := st.output + [cell]))
    case Read =>
      var (buffer, input) := if st.buffer == [] then ReadLine(st.input) else (st.buffer, st.input);
      if buffer == [] then Stop(InputExhausted)
      else Next(st.(tape := st.tape[st.pointer := buffer[0]], buffer := buffer[1..], input := input))
  }

  /** One turn of the `while let` loop: run `code[pc]`, then `program_counter += 1`. */
  function Step(code: seq<B.BytecodeElement>, st: State): (r: StepResult)
    requires Valid(st) && st.pc < |code|
    ensures r.Next? ==> Valid(r.state)
    ensures r.Next? && !B.IsJump(code[st.pc]) ==> r.state.pc == st.pc + 1
    ensures r.Next? ==> r.state.output == st.output + (if code[st.pc].Print? then [st.tape[st.pointer]] else [])
    ensures code[st.pc].Print? || B.IsJump(code[st.pc]) ==> r.Next?
    ensures r.Stop? ==> match code[st.pc]
                        case ChangeValue(_) => r.fault == ValueOutOfRange
                        case MovePointer(_) => r.fault == PointerOutOfRange
                        case Read => r.fault == InputExhausted
                        case _ => false
  {
    var cell := st.tape[st.pointer];
    match code[st.pc]
    case PositiveJump(index) => Next(st.(pc := PositiveJump(cell, st.pc, index) + 1))
    case NegativeJump(index) => Next(st.(pc := NegativeJump(cell, st.pc, index) + 1))
    case _ =>
      match Execute(code[st.pc], st)
      case Next(next) => Next(next.(pc := st.pc + 1))
      case Stop(f) => Stop(f)
  }

  /** How a bounded run ends: the program counter left the code, a panic, or the
      step budget ran out. */
  datatype Outcome = Halted(state: State) | Faulted(fault: Fault, state: State) | OutOfFuel(state: State)

  /** At most `fuel` steps from `st`. */
  function Run(code: seq<B.BytecodeElement>, st: State, fuel: nat): (r: Outcome)
    requires Valid(st)
    ensures Valid(r.state)
    ensures r.Halted? <==> r.state.pc >= |code|
    ensures st.pc >= |code| ==> r == Halted(st)
    ensures st.output <= r.state.output
    decreases fuel
  {
    if st.pc >= |code| then Halted(st)
    else if fuel == 0 then OutOfFuel(st)
    else
      match Step(code, st)
      case Stop(f) => Faulted(f, st)
      case Next(next) => Run(code, next, fuel - 1)
  }

  // ---------------------------------------------------------------------------
  // The interpreter as the source writes it
  // ---------------------------------------------------------------------------

  /**
   * `interpret`, stopped after `fuel` instructions: the tape is an array of
   * 30000 bytes updated in place. The outcome is the one `Run` describes.
   */
  method Interpret(code: seq<B.BytecodeElement>, input: seq<seq<Byte>>, fuel: nat) returns (out: Outcome)
    ensures out == Run(code, Initial(input), fuel)
  {
    var mem := new Byte[TapeSize](_ => 0);
    var pointer: nat := 0;
    var programCounter: nat := 0;
    var inputBuffer: seq<Byte> := [];
    var lines := input;
    var output: seq<Byte> := [];
    var steps := fuel;
    assert mem[..] == Initial(input).tape;
    while programCounter < |code|
      invariant mem.Length == TapeSize && pointer < TapeSize
      invariant Run(code, State(mem[..], pointer, programCounter, inputBuffer, lines, output), steps)
             == Run(code, Initial(input), fuel)
      decreases steps
    {
      ghost var st := State(mem[..], pointer, programCounter, inputBuffer, lines, output);
      if steps == 0 {
        return OutOfFuel(State(mem[..], pointer, programCounter, inputBuffer, lines, output));
      }
      var cell := mem[pointer];
      match code[programCounter] {
        case ChangeValue(val) =>
          var r := ChangeValue(cell, val);
          if r.None? {
            return Faulted(ValueOutOfRange, State(mem[..], pointer, programCounter, inputBuffer, lines, output));
          }
          mem[pointer] := r.value;
        case MovePointer(val) =>
          var r := MovePointer(pointer, val);
          if r.None? {
            return Faulted(PointerOutOfRange, State(mem[..], pointer, programCounter, inputBuffer, lines, output));
          }
          pointer := r.value;
        case Print =>
          output := output + [cell];
        case Read =>
          var pending := lines;
          if inputBuffer == [] {
            inputBuffer, pending := ReadLine(lines).0, ReadLine(lines).1;
          }
          if inputBuffer == [] {
            // `pop_front().unwrap()` panics in the state the instruction started from.
            return Faulted(InputExhausted, State(mem[..], pointer, programCounter, inputBuffer, lines, output));
          }
          lines := pending;
          mem[pointer] := inputBuffer[0];
          inputBuffer := inputBuffer[1..];
        case PositiveJump(index) =>
          programCounter := PositiveJump(cell, programCounter, index);
        case NegativeJump(index) =>
          programCounter := NegativeJump(cell, programCounter, index);
      }
      programCounter := programCounter + 1;
      steps := steps - 1;
      assert Step(code, st) == Next(State(mem[..], pointer, programCounter, inputBuffer, lines, output));
    }
    return Halted(State(mem[..], pointer, programCounter, inputBuffer, lines, output));
  }

  // ---------------------------------------------------------------------------
  // What a run of lowered code can and cannot do
  // ---------------------------------------------------------------------------

  /** With only single steps in the code, the only panic left is running out of input. */
  lemma {:induction false} UnitStepsOnlyInputFaults(code: seq<B.BytecodeElement>, st: State, fuel: nat)
    requires B.UnitSteps(code) && Valid(st)
    ensures Run(code, st, fuel).Faulted? ==> Run(code, st, fuel).fault == InputExhausted
    decreases fuel
  {
    if st.pc < |code| && fuel > 0 {
      var cell := st.tape[st.pointer];
      if code[st.pc].ChangeValue? || code[st.pc].MovePointer? {
        assert code[st.pc].delta == 1 || code[st.pc].delta == -1;
        UnitStepsNeverPanic(cell, st.pointer, code[st.pc].delta);
      }
      if Step(code, st).Next? {
        UnitStepsOnlyInputFaults(code, Step(code, st).state, fuel - 1);
      }
    }
  }

  /**
   * A `PositiveJump` leaves the tape, pointer, input and output alone. When the
   * cell is zero it resumes just after its matching `NegativeJump` (past the
   * loop); otherwise at the next instruction, the first of the loop body.
   */
  lemma ForwardJumpStep(code: seq<B.BytecodeElement>, st: State)
    requires B.JumpsMatched(code, 0)
    requires Valid(st) && st.pc < |code| && code[st.pc].PositiveJump?
    ensures Step(code, st).Next?
    ensures var j := code[st.pc].dest;
      && st.pc < j < |code| && code[j] == B.NegativeJump(st.pc)
      && Step(code, st).state == st.(pc := if st.tape[st.pointer] == 0 then j + 1 else st.pc + 1)
  {
    assert code[st.pc].dest - 0 == code[st.pc].dest;
  }

  /**
   * A `NegativeJump` leaves the tape, pointer, input and output alone. When the
   * cell is not zero it resumes at the first body instruction, just after its
   * matching `PositiveJump`; otherwise it leaves the loop.
   */
  lemma BackwardJumpStep(code: seq<B.BytecodeElement>, st: State)
    requires B.JumpsMatched(code, 0)
    requires Valid(st) && st.pc < |code| && code[st.pc].NegativeJump?
    ensures Step(code, st).Next?
    ensures var i := code[st.pc].dest;
      && i < st.pc && code[i] == B.PositiveJump(st.pc)
      && Step(code, st).state == st.(pc := if st.tape[st.pointer] != 0 then i + 1 else st.pc + 1)
  {
    assert code[st.pc].dest - 0 == code[st.pc].dest;
  }

  /** `ChangeValue(d)` panics exactly when the sum leaves -1..256; otherwise it
      stores the sum modulo 256 in the current cell and changes nothing else. */
  lemma ChangeValueStep(code: seq<B.BytecodeElement>, st: State)
    requires Valid(st) && st.pc < |code| && code[st.pc].ChangeValue?
    ensures var sum := st.tape[st.pointer] + code[st.pc].delta;
      && (Step(code, st).Stop? <==> sum < -1 || 256 < sum)
      && (Step(code, st).Next? ==>
            Step(code, st).state == st.(tape := st.tape[st.pointer := sum % 256], pc := st.pc + 1))
  {
  }

  /** `MovePointer(d)` panics exactly when the sum leaves -1..30000; otherwise the
      pointer becomes the sum modulo 30000 and nothing else changes. */
  lemma MovePointerStep(code: seq<B.BytecodeElement>, st: State)
    requires Valid(st) && st.pc < |code| && code[st.pc].MovePointer?
    ensures var sum := st.pointer + code[st.pc].delta;
      && (Step(code, st).Stop? <==> sum < -1 || TapeSize < sum)
      && (Step(code, st).Next? ==> Step(code, st).state == st.(pointer := sum % TapeSize, pc := st.pc + 1))
  {
  }

  /** `Print` never panics; it appends the current cell to the output and leaves
      the tape, the pointer and the input alone. */
  lemma PrintStep(code: seq<B.BytecodeElement>, st: State)
    requires Valid(st) && st.pc < |code| && code[st.pc].Print?
    ensures Step(code, st).Next?
    ensures Step(code, st).state == st.(output := st.output + [st.tape[st.pointer]], pc := st.pc + 1)
  {
  }

  // ---------------------------------------------------------------------------
  // Input as one stream of bytes
  // ---------------------------------------------------------------------------

  /** The bytes of the ASCII lines, in order: everything `read` will ever hand over. */
  function Stream(input: seq<seq<Byte>>): seq<Byte> {
    if input == [] then []
    else if IsAscii(input[0]) then input[0] + Stream(input[1..])
    else Stream(input[1..])
  }

  /** The input the machine has yet to consume: its buffer, then the stream. */
  function Pending(st: State): seq<Byte> {
    st.buffer + Stream(st.input)
  }

  /** Every line `read_line` returns before the end of input holds at least its newline. */
  ghost predicate NoEmptyLines(input: seq<seq<Byte>>) {
    forall i :: 0 <= i < |input| ==> input[i] != []
  }

  lemma {:induction false} ReadLineStream(input: seq<seq<Byte>>)
    requires NoEmptyLines(input)
    ensures Stream(input) == ReadLine(input).0 + Stream(ReadLine(input).1)
    ensures ReadLine(input).0 == [] <==> Stream(input) == []
  {
    if input != [] && !IsAscii(input[0]) {
      var rest := input[1..];
      forall i | 0 <= i < |rest|
        ensures rest[i] != []
      {
        assert rest[i] == input[i + 1];
      }
      ReadLineStream(rest);
    }
  }

  /**
   * `Read` takes the next byte of the pending input into the current cell and
   * changes nothing else but the buffer and the lines (refilled only when the
   * buffer is empty); it panics exactly when no input is left.
   */
  lemma {:induction false} ReadTakesNextByte(code: seq<B.BytecodeElement>, st: State)
    requires Valid(st) && st.pc < |code| && code[st.pc] == B.Read
    requires NoEmptyLines(st.input)
    ensures Step(code, st).Next? <==> Pending(st) != []
    ensures Step(code, st).Next? ==>
      var next := Step(code, st).state;
      && next.tape == st.tape[st.pointer := Pending(st)[0]]
      && Pending(next) == Pending(st)[1..]
      && next.pointer == st.pointer && next.output == st.output && next.pc == st.pc + 1
      && (st.buffer != [] ==> next.input == st.input)
  {
    ReadLineStream(st.input);
    if st.buffer == [] {
      var (line, rest) := ReadLine(st.input);
      if line != [] {
        assert Pending(st) == line + Stream(rest);
        assert Pending(Step(code, st).state) == line[1..] + Stream(rest);
      }
    } else {
      assert Pending(st)[1..] == st.buffer[1..] + Stream(st.input);
    }
  }
}
