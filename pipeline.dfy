/**
 * The whole toolchain of `main` without its file and argument handling
 * (src/main.rs:44-47): text to tokens, tokens to tree, tree to bytecode,
 * bytecode run on the machine.
 */
module Pipeline {
  import Lexer
  import P = Parser
  import Bytecode
  import Lowering
  import M = Machine
  import Structured

  datatype Execution =
    | ParseFailed(error: P.ParseError)
    | Executed(tree: seq<P.ParseElement>, code: seq<Bytecode.BytecodeElement>, outcome: M.Outcome)

  /**
   * A program whose brackets do not balance stops before running, with the
   * parser's panic. Any other program is lowered to one instruction per token
   * with matched jumps and single steps only, and its run can then panic only
   * by running out of input. Its run is the structured run of its tree.
   */
  method RunProgram(source: string, input: seq<seq<M.Byte>>, fuel: nat) returns (r: Execution)
    ensures r.ParseFailed? <==> !P.Balanced(Lexer.Tokenize(source))
    ensures r == ParseFailed(P.UnexpectedClose) <==> !P.NeverBelow(Lexer.Tokenize(source))
    ensures r.Executed? ==>
      && P.Unparse(r.tree) == Lexer.Tokenize(source)
      && r.code == Lowering.CompileSeq(r.tree, 0)
      && |r.code| == |Lexer.Tokenize(source)|
      && Bytecode.JumpsMatched(r.code, 0)
      && Bytecode.UnitSteps(r.code)
      && r.outcome == M.Run(r.code, M.Initial(input), fuel)
      && (r.outcome.Faulted? ==> r.outcome.fault == M.InputExhausted)
      && Structured.SameRun(r.outcome, Structured.ExecSeq(r.tree, M.Initial(input), fuel), |r.code|)
  {
    var tokens := Lexer.Tokenize(source);
    var parsed := P.ParseRoot(tokens);
    if parsed.Err? {
      return ParseFailed(parsed.error);
    }
    var bytecode := Lowering.TreeWalker(parsed.value);
    Lowering.CompileSeqPointwise(parsed.value, 0);
    Lowering.CompileSeqMatched(parsed.value, 0);
    Lowering.LoweringUnitSteps(parsed.value, 0);
    M.UnitStepsOnlyInputFaults(bytecode, M.Initial(input), fuel);
    Structured.LoweringPreservesBehaviour(parsed.value, input, fuel);
    var outcome := M.Interpret(bytecode, input, fuel);
    return Executed(parsed.value, bytecode, outcome);
  }

  /** Text without operator characters lowers to no code, and the machine halts
      at once without output. */
  lemma NoOpProgram(source: string, tree: seq<P.ParseElement>, input: seq<seq<M.Byte>>, fuel: nat)
    requires forall i :: 0 <= i < |source| ==> !Lexer.IsOperator(source[i])
    requires P.Unparse(tree) == Lexer.Tokenize(source)
    ensures tree == [] && Lowering.CompileSeq(tree, 0) == []
    ensures M.Run([], M.Initial(input), fuel) == M.Halted(M.Initial(input))
    ensures M.Run([], M.Initial(input), fuel).state.output == []
  {
    Lexer.TokenizeNoOperators(source);
    P.UnparseInjective(tree, []);
  }

  /** "[+" stops with "missing ]" and "+]" with "unexpected ]". */
  lemma UnmatchedBracketPrograms()
    ensures P.NeverBelow(Lexer.Tokenize("[+")) && P.Net(Lexer.Tokenize("[+")) > 0
    ensures !P.NeverBelow(Lexer.Tokenize("+]"))
  {
    MissingCloseProgram();
    StrayCloseProgram();
  }

  lemma MissingCloseProgram()
    ensures Lexer.Tokenize("[+") == [Lexer.LoopOpen, Lexer.Increment]
    ensures P.NeverBelow(Lexer.Tokenize("[+")) && P.Net(Lexer.Tokenize("[+")) == 1
  {
    var text := "[+";
    assert text[1..] == "+" && text[1..][1..] == [];
    assert Lexer.Tokenize(text[1..]) == [Lexer.Increment];
    var ts := [Lexer.LoopOpen, Lexer.Increment];
    assert ts[..0] == [] && ts[..1] == [Lexer.LoopOpen] && ts[..2] == ts;
    assert [Lexer.LoopOpen][..0] == [];
    assert P.Net([Lexer.LoopOpen]) == 1;
    assert P.Net(ts) == 1;
  }

  lemma StrayCloseProgram()
    ensures Lexer.Tokenize("+]") == [Lexer.Increment, Lexer.LoopClose]
    ensures P.Net(Lexer.Tokenize("+]")) == -1
    ensures !P.NeverBelow(Lexer.Tokenize("+]"))
  {
    var text := "+]";
    assert text[1..] == "]" && text[1..][1..] == [];
    assert Lexer.Tokenize(text[1..]) == [Lexer.LoopClose];
    var ts := [Lexer.Increment, Lexer.LoopClose];
    assert ts[..1] == [Lexer.Increment] && ts[..2] == ts;
    assert [Lexer.Increment][..0] == [];
    assert P.Net([Lexer.Increment]) == 0;
    assert P.Net(ts) == -1;
  }

  /** ",.,." parses to read, print, read, print, lowered to the same four instructions. */
  lemma EchoProgramLowers()
    ensures Lexer.Tokenize(",.,.") == P.Unparse([P.Read, P.Print, P.Read, P.Print])
    ensures Lowering.CompileSeq([P.Read, P.Print, P.Read, P.Print], 0)
         == [Bytecode.Read, Bytecode.Print, Bytecode.Read, Bytecode.Print]
  {
    var tree := [P.Read, P.Print, P.Read, P.Print];
    assert tree[1..] == [P.Print, P.Read, P.Print] && tree[2..] == [P.Read, P.Print] && tree[3..] == [P.Print];
    assert tree[1..][1..] == tree[2..] && tree[2..][1..] == tree[3..] && tree[3..][1..] == [];
    assert Lowering.CompileSeq(tree[3..], 3) == [Bytecode.Print];
    assert Lowering.CompileSeq(tree[2..], 2) == [Bytecode.Read, Bytecode.Print];
    assert Lowering.CompileSeq(tree[1..], 1) == [Bytecode.Print, Bytecode.Read, Bytecode.Print];
    assert P.Unparse(tree[3..]) == [Lexer.Print];
    assert P.Unparse(tree[2..]) == [Lexer.Read, Lexer.Print];
    assert P.Unparse(tree[1..]) == [Lexer.Print, Lexer.Read, Lexer.Print];
    var text := ",.,.";
    assert text[1..] == ".,." && text[2..] == ",." && text[3..] == "." && text[4..] == "";
    assert text[1..][1..] == text[2..] && text[2..][1..] == text[3..] && text[3..][1..] == text[4..];
  }

  /** Given the line "AB", the code of ",.,." prints "AB" and halts after four steps. */
  lemma EchoProgramRuns()
    ensures var code := [Bytecode.Read, Bytecode.Print, Bytecode.Read, Bytecode.Print];
      M.Run(code, M.Initial([[65, 66, 10]]), 4).Halted? &&
      M.Run(code, M.Initial([[65, 66, 10]]), 4).state.output == [65, 66]
  {
    var code := [Bytecode.Read, Bytecode.Print, Bytecode.Read, Bytecode.Print];
    var line: seq<M.Byte> := [65, 66, 10];
    assert M.IsAscii(line);
    assert M.ReadLine([line]) == (line, []);
    var s0 := M.Initial([line]);
    var s1 := s0.(tape := s0.tape[0 := 65], buffer := [66, 10], input := [], pc := 1);
    assert M.Step(code, s0) == M.Next(s1);
    var s2 := s1.(output := [65], pc := 2);
    assert M.Step(code, s1) == M.Next(s2);
    var s3 := s2.(tape := s2.tape[0 := 66], buffer := [10], pc := 3);
    assert M.Step(code, s2) == M.Next(s3);
    var s4 := s3.(output := [65, 66], pc := 4);
    assert M.Step(code, s3) == M.Next(s4);
    assert M.Run(code, s4, 0) == M.Halted(s4);
    assert M.Run(code, s0, 4) == M.Run(code, s1, 3) == M.Run(code, s2, 2) == M.Run(code, s3, 1) == M.Run(code, s4, 0);
  }
}
