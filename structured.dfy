/**
 * A structured interpretation of the parse tree, and the proof that running the
 * lowered bytecode (src/main.rs, `tree_walker` then `interpret`) behaves the
 * same way.
 *
 * The tree interpreter runs statements in order and a block as a loop: test the
 * cell on entry, run the body, test again at the end. It never looks at the
 * program counter. Each simple statement has its own effect, chosen by the
 * statement and not by the instruction it is lowered to: `+` and `-` change the
 * current cell by one, `>` and `<` move the pointer by one, `.` prints the cell
 * and `,` reads a byte. It charges one unit of fuel
 * wherever the machine spends one step: one per simple statement, one per test
 * on entry to a block, and one per test at the end of a body.
 */
module Structured {
  import P = Parser
  import opened Bytecode
  import Lowering
  import M = Machine

  /** How a bounded structured run ends. */
  datatype Exec =
    | Done(state: M.State, fuel: nat)        // ran to the end with this fuel left
    | Panicked(fault: M.Fault, state: M.State) // a panic, in the state before the statement
    | Starved(state: M.State)                 // the fuel ran out in this state

  /** The statements of `tree` in order. */
  function ExecSeq(tree: seq<P.ParseElement>, st: M.State, fuel: nat): (r: Exec)
    requires M.Valid(st)
    ensures M.Valid(r.state)
    ensures r.Done? ==> r.fuel <= fuel
    decreases fuel, tree, 0
  {
    if tree == [] then Done(st, fuel)
    else
      match ExecElement(tree[0], st, fuel)
      case Done(next, left) => ExecSeq(tree[1..], next, left)
      case other => other
  }

  /** One statement: a simple one takes a step, a block is entered. */
  function ExecElement(e: P.ParseElement, st: M.State, fuel: nat): (r: Exec)
    requires M.Valid(st)
    ensures M.Valid(r.state)
    ensures r.Done? ==> r.fuel < fuel
    decreases fuel, e, 0
  {
    if e.Block? then Enter(e.body, st, fuel)
    else if fuel == 0 then Starved(st)
    else
      match Effect(e, st)
      case Next(next) => Done(next, fuel - 1)
      case Stop(f) => Panicked(f, st)
  }

  /** What a simple statement does to the tape, the pointer, the input and the output. */
  function Effect(e: P.ParseElement, st: M.State): (r: M.StepResult)
    requires M.Valid(st) && !e.Block?
    ensures r.Next? ==> M.Valid(r.state) && r.state.pc == st.pc
  {
    match e
    case Increment => AddToCell(st, 1)
    case Decrement => AddToCell(st, -1)
    case MoveUp => MoveBy(st, 1)
    case MoveDown => MoveBy(st, -1)
    case Print => M.Next(st.(output := st.output + [st.tape[st.pointer]]))
    case Read => M.Execute(Read, st)
  }

  /** The current cell changed by `d`, with the machine's wrap-around and panic. */
  function AddToCell(st: M.State, d: int): (r: M.StepResult)
    requires M.Valid(st)
    ensures r.Next? ==> M.Valid(r.state) && r.state.pc == st.pc
  {
    match M.ChangeValue(st.tape[st.pointer], d)
    case Some(v) => M.Next(st.(tape := st.tape[st.pointer := v]))
    case None => M.Stop(M.ValueOutOfRange)
  }

  /** The pointer moved by `d`, with the machine's wrap-around and panic. */
  function MoveBy(st: M.State, d: int): (r: M.StepResult)
    requires M.Valid(st)
    ensures r.Next? ==> M.Valid(r.state) && r.state.pc == st.pc
  {
    match M.MovePointer(st.pointer, d)
    case Some(p) => M.Next(st.(pointer := p))
    case None => M.Stop(M.PointerOutOfRange)
  }

  /** The test on entry to a block: the block is skipped when the cell is zero. */
  function Enter(body: seq<P.ParseElement>, st: M.State, fuel: nat): (r: Exec)
    requires M.Valid(st)
    ensures M.Valid(r.state)
    ensures r.Done? ==> r.fuel < fuel
    decreases fuel, body, 3
  {
    if fuel == 0 then Starved(st)
    else if st.tape[st.pointer] == 0 then Done(st, fuel - 1)
    else Loop(body, st, fuel - 1)
  }

  /** The body of a loop whose cell was not zero, then the test at its end. */
  function Loop(body: seq<P.ParseElement>, st: M.State, fuel: nat): (r: Exec)
    requires M.Valid(st)
    ensures M.Valid(r.state)
    ensures r.Done? ==> r.fuel <= fuel
    decreases fuel, body, 2
  {
    match ExecSeq(body, st, fuel)
    case Done(next, left) => Retest(body, next, left)
    case other => other
  }

  /** The test at the end of a loop body: another turn while the cell is not zero. */
  function Retest(body: seq<P.ParseElement>, st: M.State, fuel: nat): (r: Exec)
    requires M.Valid(st)
    ensures M.Valid(r.state)
    ensures r.Done? ==> r.fuel < fuel
    decreases fuel, body, 1
  {
    if fuel == 0 then Starved(st)
    else if st.tape[st.pointer] != 0 then Loop(body, st, fuel - 1)
    else Done(st, fuel - 1)
  }

  // ---------------------------------------------------------------------------
  // The bytecode machine simulates the tree interpreter
  // ---------------------------------------------------------------------------

  /**
   * The machine outcome `start` agrees with the structured result `r` of the
   * code that ends at address `end`: when the structured run finishes, the
   * machine continues at `end` from the same state with the same fuel; a panic
   * or a starved run is the machine's own, in the same state up to the
   * program counter.
   */
  ghost predicate Agrees(code: seq<BytecodeElement>, r: Exec, start: M.Outcome, end: nat) {
    match r
    case Done(s, left) => M.Valid(s) && start == M.Run(code, s.(pc := end), left)
    case Panicked(f, s) => start == M.Faulted(f, s.(pc := start.state.pc))
    case Starved(s) => start == M.OutOfFuel(s.(pc := start.state.pc))
  }

  /**
   * Running `r` and then, when it finishes, `after` from where it ended: if `r`
   * agrees with the machine up to `mid` and `after` with the machine from `mid`
   * up to `end`, the whole run `whole` agrees with the machine up to `end`.
   */
  lemma AgreesThen(code: seq<BytecodeElement>, r: Exec, start: M.Outcome, mid: nat, after: Exec, end: nat, whole: Exec)
    requires Agrees(code, r, start, mid)
    requires r.Done? ==> Agrees(code, after, M.Run(code, r.state.(pc := mid), r.fuel), end)
    requires whole == if r.Done? then after else r
    ensures Agrees(code, whole, start, end)
  {
  }

  /** `code` holds `piece` at address `base`. */
  ghost predicate Holds(code: seq<BytecodeElement>, piece: seq<BytecodeElement>, base: nat) {
    base + |piece| <= |code| && code[base..base + |piece|] == piece
  }

  lemma HoldsSplit(code: seq<BytecodeElement>, a: seq<BytecodeElement>, b: seq<BytecodeElement>, base: nat)
    requires Holds(code, a + b, base)
    ensures Holds(code, a, base) && Holds(code, b, base + |a|)
  {
    assert code[base..base + |a|] == (a + b)[..|a|];
    assert code[base + |a|..base + |a| + |b|] == (a + b)[|a|..];
  }

  /** The machine, started at the code of `tree`, does what the tree interpreter does. */
  lemma {:induction false} SeqAgrees(code: seq<BytecodeElement>, tree: seq<P.ParseElement>, base: nat, st: M.State, fuel: nat)
    requires M.Valid(st) && Holds(code, Lowering.CompileSeq(tree, base), base)
    ensures Agrees(code, ExecSeq(tree, st, fuel), M.Run(code, st.(pc := base), fuel),
                   base + |Lowering.CompileSeq(tree, base)|)
    decreases fuel, tree, 0
  {
    if tree != [] {
      var first := Lowering.CompileElement(tree[0], base);
      SeqHeld(code, tree, base);
      ElementAgrees(code, tree[0], base, st, fuel);
      var r := ExecElement(tree[0], st, fuel);
      var after := if r.Done? then ExecSeq(tree[1..], r.state, r.fuel) else r;
      if r.Done? {
        SeqAgrees(code, tree[1..], base + |first|, r.state, r.fuel);
      }
      SeqUnfold(tree, base, st, fuel);
      AgreesThen(code, r, M.Run(code, st.(pc := base), fuel), base + |first|,
                 after, base + |Lowering.CompileSeq(tree, base)|, ExecSeq(tree, st, fuel));
    }
  }

  /** A non-empty sequence runs its first statement, then the rest; its code is
      the first statement's code, then the rest's. */
  lemma SeqUnfold(tree: seq<P.ParseElement>, base: nat, st: M.State, fuel: nat)
    requires M.Valid(st) && tree != []
    ensures var r := ExecElement(tree[0], st, fuel);
      ExecSeq(tree, st, fuel) == if r.Done? then ExecSeq(tree[1..], r.state, r.fuel) else r
    ensures var first := Lowering.CompileElement(tree[0], base);
      |Lowering.CompileSeq(tree, base)| == |first| + |Lowering.CompileSeq(tree[1..], base + |first|)|
  {
  }

  /** The code of a non-empty sequence holds that of its first statement, then that of the rest. */
  lemma {:induction false} SeqHeld(code: seq<BytecodeElement>, tree: seq<P.ParseElement>, base: nat)
    requires tree != [] && Holds(code, Lowering.CompileSeq(tree, base), base)
    ensures var first := Lowering.CompileElement(tree[0], base);
      && Holds(code, first, base)
      && Holds(code, Lowering.CompileSeq(tree[1..], base + |first|), base + |first|)
  {
    var first := Lowering.CompileElement(tree[0], base);
    HoldsSplit(code, first, Lowering.CompileSeq(tree[1..], base + |first|), base);
  }

  lemma {:induction false} ElementAgrees(code: seq<BytecodeElement>, e: P.ParseElement, base: nat, st: M.State, fuel: nat)
    requires M.Valid(st) && Holds(code, Lowering.CompileElement(e, base), base)
    ensures Agrees(code, ExecElement(e, st, fuel), M.Run(code, st.(pc := base), fuel),
                   base + |Lowering.CompileElement(e, base)|)
    decreases fuel, e, 0
  {
    if e.Block? {
      LoopHeld(code, e.body, base);
      EnterAgrees(code, e.body, base, base + |Lowering.CompileElement(e, base)|, st, fuel);
    } else {
      assert code[base] == Lowering.CompileElement(e, base)[0] == Lowering.Simple(e);
      SimpleAgrees(code, e, base, st, fuel);
    }
  }

  /** A simple statement is one machine step with the same effect. */
  lemma SimpleAgrees(code: seq<BytecodeElement>, e: P.ParseElement, base: nat, st: M.State, fuel: nat)
    requires M.Valid(st) && !e.Block? && base < |code| && code[base] == Lowering.Simple(e)
    ensures Agrees(code, ExecElement(e, st, fuel), M.Run(code, st.(pc := base), fuel), base + 1)
  {
    SimpleEffect(e, st);
    if fuel != 0 {
      var here := st.(pc := base);
      var r := M.Execute(Lowering.Simple(e), st);
      ExecuteIgnoresPc(Lowering.Simple(e), st, base);
      assert M.Step(code, here) == if r.Next? then M.Next(r.state.(pc := base + 1)) else M.Stop(r.fault);
    }
  }

  /** The lowering table is right: the instruction a simple statement lowers to has
      that statement's own effect on the machine. */
  lemma SimpleEffect(e: P.ParseElement, st: M.State)
    requires M.Valid(st) && !e.Block?
    ensures M.Execute(Lowering.Simple(e), st) == Effect(e, st)
  {
  }

  /** An instruction other than a jump has the same effect wherever it stands. */
  lemma ExecuteIgnoresPc(b: BytecodeElement, st: M.State, pc: nat)
    requires M.Valid(st) && !IsJump(b)
    ensures var r := M.Execute(b, st);
      M.Execute(b, st.(pc := pc)) == if r.Next? then M.Next(r.state.(pc := pc)) else r
  {
  }

  /** `code` holds the loop of `body` at `base`: the guard, the body one address
      on, and the back jump. */
  ghost predicate LoopAt(code: seq<BytecodeElement>, body: seq<P.ParseElement>, base: nat) {
    var inner := Lowering.CompileSeq(body, base + 1);
    && base + 2 + |inner| <= |code|
    && code[base] == PositiveJump(base + 1 + |inner|)
    && Holds(code, inner, base + 1)
    && code[base + 1 + |inner|] == NegativeJump(base)
  }

  lemma LoopHeld(code: seq<BytecodeElement>, body: seq<P.ParseElement>, base: nat)
    requires Holds(code, Lowering.CompileElement(P.Block(body), base), base)
    ensures LoopAt(code, body, base)
    ensures |Lowering.CompileElement(P.Block(body), base)| == |Lowering.CompileSeq(body, base + 1)| + 2
  {
    var inner := Lowering.CompileSeq(body, base + 1);
    var guard, back := [PositiveJump(base + 1 + |inner|)], [NegativeJump(base)];
    assert Lowering.CompileElement(P.Block(body), base) == guard + inner + back;
    HoldsSplit(code, guard + inner, back, base);
    HoldsSplit(code, guard, inner, base);
    assert code[base] == code[base..base + 1][0];
    assert code[base + 1 + |inner|] == code[base + 1 + |inner|..base + 2 + |inner|][0];
  }

  /** The guard at `base` of a loop ending before `past` enters the body when the
      cell is not zero and otherwise resumes at `past`, just past the loop. */
  lemma GuardStep(code: seq<BytecodeElement>, base: nat, past: nat, st: M.State, fuel: nat)
    requires M.Valid(st) && base < past <= |code| && code[base] == PositiveJump(past - 1) && 0 < fuel
    ensures M.Run(code, st.(pc := base), fuel)
         == M.Run(code, st.(pc := if st.tape[st.pointer] == 0 then past else base + 1), fuel - 1)
  {
  }

  /** The back jump at `past - 1` of the loop at `base` returns to the first body
      instruction when the cell is not zero and otherwise resumes at `past`. */
  lemma BackStep(code: seq<BytecodeElement>, base: nat, past: nat, st: M.State, fuel: nat)
    requires M.Valid(st) && base < past <= |code| && code[past - 1] == NegativeJump(base) && 0 < fuel
    ensures M.Run(code, st.(pc := past - 1), fuel)
         == M.Run(code, st.(pc := if st.tape[st.pointer] != 0 then base + 1 else past), fuel - 1)
  {
  }

  /** At the guard of the loop at `base`, the machine does what `Enter` does. */
  lemma {:induction false} EnterAgrees(code: seq<BytecodeElement>, body: seq<P.ParseElement>, base: nat, past: nat, st: M.State, fuel: nat)
    requires M.Valid(st) && LoopAt(code, body, base)
    requires past == base + 2 + |Lowering.CompileSeq(body, base + 1)|
    ensures Agrees(code, Enter(body, st, fuel), M.Run(code, st.(pc := base), fuel), past)
    decreases fuel, body, 3
  {
    if fuel != 0 {
      GuardStep(code, base, past, st, fuel);
      if st.tape[st.pointer] != 0 {
        LoopAgrees(code, body, base, past, st, fuel - 1);
      }
    }
  }

  /** From the first body instruction of the loop at `base`, the machine does what `Loop` does. */
  lemma {:induction false} LoopAgrees(code: seq<BytecodeElement>, body: seq<P.ParseElement>, base: nat, past: nat, st: M.State, fuel: nat)
    requires M.Valid(st) && LoopAt(code, body, base)
    requires past == base + 2 + |Lowering.CompileSeq(body, base + 1)|
    ensures Agrees(code, Loop(body, st, fuel), M.Run(code, st.(pc := base + 1), fuel), past)
    decreases fuel, body, 2
  {
    SeqAgrees(code, body, base + 1, st, fuel);
    var r := ExecSeq(body, st, fuel);
    if r.Done? {
      RetestAgrees(code, body, base, past, r.state, r.fuel);
    }
  }

  /** At the back jump of the loop at `base`, the machine does what `Retest` does. */
  lemma {:induction false} RetestAgrees(code: seq<BytecodeElement>, body: seq<P.ParseElement>, base: nat, past: nat, st: M.State, fuel: nat)
    requires M.Valid(st) && LoopAt(code, body, base)
    requires past == base + 2 + |Lowering.CompileSeq(body, base + 1)|
    ensures Agrees(code, Retest(body, st, fuel), M.Run(code, st.(pc := past - 1), fuel), past)
    decreases fuel, body, 1
  {
    if fuel != 0 {
      BackStep(code, base, past, st, fuel);
      if st.tape[st.pointer] != 0 {
        LoopAgrees(code, body, base, past, st, fuel - 1);
      }
    }
  }

  /**
   * The machine outcome `run` of a program of `size` instructions is the
   * structured result `x`: both halt in the same state (the machine with its
   * counter past the code), panic with the same fault in the same state, or run
   * out of fuel in the same state, up to the program counter.
   */
  ghost predicate SameRun(run: M.Outcome, x: Exec, size: nat) {
    match x
    case Done(s, _) => run == M.Halted(s.(pc := size))
    case Panicked(f, s) => run == M.Faulted(f, s.(pc := run.state.pc))
    case Starved(s) => run == M.OutOfFuel(s.(pc := run.state.pc))
  }

  /** Running the bytecode of a tree from the initial state is observably the
      structured run of the tree. */
  lemma LoweringPreservesBehaviour(tree: seq<P.ParseElement>, input: seq<seq<M.Byte>>, fuel: nat)
    ensures var code := Lowering.CompileSeq(tree, 0);
      SameRun(M.Run(code, M.Initial(input), fuel), ExecSeq(tree, M.Initial(input), fuel), |code|)
  {
    var code := Lowering.CompileSeq(tree, 0);
    assert code[0..|code|] == code;
    SeqAgrees(code, tree, 0, M.Initial(input), fuel);
    assert M.Initial(input).(pc := 0) == M.Initial(input);
  }
}
