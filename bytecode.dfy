/** The flat instruction form the lowering pass emits and the machine runs
    (src/main.rs, `enum BytecodeElement`). */
module Bytecode {

  /**
   * The deltas are Rust `i32` and the jump destinations `usize` indices into
   * the same instruction sequence. A jump destination is the index of the
   * instruction BEFORE the one that runs next, because the machine adds one to
   * the program counter after every instruction, jumps included.
   */
  datatype BytecodeElement =
    | ChangeValue(delta: int)
    | MovePointer(delta: int)
    | Print
    | Read
    | PositiveJump(dest: nat)
    | NegativeJump(dest: nat)

  /** Every `PositiveJump` in `code` (placed at absolute address `base`) jumps
      forward to a `NegativeJump` inside `code` that jumps back to it. */
  ghost predicate ForwardJumpsMatched(code: seq<BytecodeElement>, base: nat) {
    forall i :: 0 <= i < |code| && code[i].PositiveJump? ==>
      base + i < code[i].dest < base + |code| && code[code[i].dest - base] == NegativeJump(base + i)
  }

  /** Every `NegativeJump` jumps back to a `PositiveJump` inside `code` that jumps forward to it. */
  ghost predicate BackwardJumpsMatched(code: seq<BytecodeElement>, base: nat) {
    forall i :: 0 <= i < |code| && code[i].NegativeJump? ==>
      base <= code[i].dest < base + i && code[code[i].dest - base] == PositiveJump(base + i)
  }

  predicate IsJump(b: BytecodeElement) {
    b.PositiveJump? || b.NegativeJump?
  }

  /** Loops nest: a jump between a `PositiveJump` and its `NegativeJump` stays strictly between them. */
  ghost predicate JumpsNested(code: seq<BytecodeElement>, base: nat) {
    forall i, k :: 0 <= i < k < |code| && code[i].PositiveJump? && base + k < code[i].dest && IsJump(code[k]) ==>
      base + i < code[k].dest < code[i].dest
  }

  /** The loop structure of `code` is well formed when it is placed at address `base`. */
  ghost predicate JumpsMatched(code: seq<BytecodeElement>, base: nat) {
    ForwardJumpsMatched(code, base) && BackwardJumpsMatched(code, base) && JumpsNested(code, base)
  }

  /** Only the single steps the machine accepts: `ChangeValue(±1)` and `MovePointer(±1)`. */
  ghost predicate UnitSteps(code: seq<BytecodeElement>) {
    forall i :: 0 <= i < |code| ==>
      (code[i].ChangeValue? ==> code[i].delta == 1 || code[i].delta == -1) &&
      (code[i].MovePointer? ==> code[i].delta == 1 || code[i].delta == -1)
  }
}
