/**
 * The lowering pass: parse tree to bytecode (src/main.rs, `tree_walker` and
 * `walk_subtree`).
 *
 * `walk_subtree` appends a block's body, then a `NegativeJump`, and then
 * inserts a `PositiveJump` at the block's start. Every enclosing block still
 * has its own `PositiveJump` to insert, at or before this block's start, so
 * each address computed here moves up by one per enclosing block before the
 * pass ends; the `+ depth` term adds those moves in advance. The model keeps
 * that arithmetic and proves it equal to `CompileElement`, which places each
 * instruction at its final address directly.
 */
module Lowering {
  import Lexer
  import P = Parser
  import opened Bytecode

  // ---------------------------------------------------------------------------
  // Reference: the code of a tree placed at a known absolute address
  // ---------------------------------------------------------------------------

  /** The code of `tree` when its first instruction sits at address `base`. */
  function CompileSeq(tree: seq<P.ParseElement>, base: nat): seq<BytecodeElement> {
    if tree == [] then []
    else
      var first := CompileElement(tree[0], base);
      first + CompileSeq(tree[1..], base + |first|)
  }

  /** A simple statement is its one instruction; a loop is its guard, its body one
      address further on, and its back jump. */
  function CompileElement(e: P.ParseElement, base: nat): seq<BytecodeElement> {
    if e.Block? then
      var code := CompileSeq(e.body, base + 1);
      [PositiveJump(base + 1 + |code|)] + code + [NegativeJump(base)]
    else
      [Simple(e)]
  }

  lemma {:induction false} CompileSeqSnoc(tree: seq<P.ParseElement>, e: P.ParseElement, base: nat)
    ensures CompileSeq(tree + [e], base) == CompileSeq(tree, base) + CompileElement(e, base + |CompileSeq(tree, base)|)
  {
    if tree == [] {
      assert tree + [e] == [e];
      assert [e][1..] == [];
    } else {
      assert (tree + [e])[0] == tree[0];
      assert (tree + [e])[1..] == tree[1..] + [e];
      CompileSeqSnoc(tree[1..], e, base + |CompileElement(tree[0], base)|);
    }
  }

  /** The single instruction of a statement that is not a block: never a jump,
      and a value or pointer change of exactly one step. */
  function Simple(e: P.ParseElement): (b: BytecodeElement)
    requires !e.Block?
    ensures !IsJump(b)
    ensures b.ChangeValue? || b.MovePointer? ==> b.delta == 1 || b.delta == -1
    ensures b.Print? <==> e.Print?
    ensures b.Read? <==> e.Read?
  {
    match e
    case Increment => ChangeValue(1)
    case Decrement => ChangeValue(-1)
    case MoveUp => MovePointer(1)
    case MoveDown => MovePointer(-1)
    case Print => Print
    case Read => Read
  }

  // ---------------------------------------------------------------------------
  // The pass as the source writes it
  // ---------------------------------------------------------------------------

  /**
   * `walk_subtree(block, bytecode, depth)`: `depth` blocks enclose this one.
   * The result is `bytecode` followed by the block's code as it will stand
   * once those enclosing blocks have made their inserts, `depth` addresses on.
   */
  method WalkSubtree(block: seq<P.ParseElement>, bytecode: seq<BytecodeElement>, depth: nat)
    returns (r: seq<BytecodeElement>)
    ensures r == bytecode + CompileElement(P.Block(block), |bytecode| + depth)
    decreases block
  {
    var code := bytecode;
    var blockStart := |code|;
    for i := 0 to |block|
      invariant code == bytecode + CompileSeq(block[..i], blockStart + depth + 1)
    {
      CompileSeqSnoc(block[..i], block[i], blockStart + depth + 1);
      assert block[..i + 1] == block[..i] + [block[i]];
      if block[i].Block? {
        code := WalkSubtree(block[i].body, code, depth + 1);
      } else {
        code := code + [Simple(block[i])];
      }
    }
    assert block[..|block|] == block;
    code := code + [NegativeJump(blockStart + depth)];
    InsertGuard(bytecode, block, depth, code);
    code := code[..blockStart] + [PositiveJump(|code| + depth)] + code[blockStart..];
    r := code;
  }

  /** Once the back jump is pushed, inserting the guard at the block's start
      with target `len + depth` gives the loop's code at its final address. */
  lemma InsertGuard(bytecode: seq<BytecodeElement>, block: seq<P.ParseElement>, depth: nat, code: seq<BytecodeElement>)
    requires code == bytecode + CompileSeq(block, |bytecode| + depth + 1) + [NegativeJump(|bytecode| + depth)]
    ensures code[..|bytecode|] + [PositiveJump(|code| + depth)] + code[|bytecode|..]
         == bytecode + CompileElement(P.Block(block), |bytecode| + depth)
  {
    var body := CompileSeq(block, |bytecode| + depth + 1);
    assert code[..|bytecode|] == bytecode;
    assert code[|bytecode|..] == body + [NegativeJump(|bytecode| + depth)];
  }

  /** `tree_walker`: the top-level statements, with no block around them. */
  method TreeWalker(tree: seq<P.ParseElement>) returns (bytecode: seq<BytecodeElement>)
    ensures bytecode == CompileSeq(tree, 0)
  {
    bytecode := [];
    for i := 0 to |tree|
      invariant bytecode == CompileSeq(tree[..i], 0)
    {
      CompileSeqSnoc(tree[..i], tree[i], 0);
      assert tree[..i + 1] == tree[..i] + [tree[i]];
      if tree[i].Block? {
        bytecode := WalkSubtree(tree[i].body, bytecode, 0);
      } else {
        bytecode := bytecode + [Simple(tree[i])];
      }
    }
    assert tree[..|tree|] == tree;
  }

  // ---------------------------------------------------------------------------
  // Instruction i is the lowering of token i
  // ---------------------------------------------------------------------------

  /** The instruction a token becomes: `[` and `]` the two jumps, any other token
      the instruction of the statement it parses to. */
  predicate Translates(t: Lexer.Token, b: BytecodeElement) {
    if t == Lexer.LoopOpen then b.PositiveJump?
    else if t == Lexer.LoopClose then b.NegativeJump?
    else b == Simple(P.SimpleElement(t))
  }

  ghost predicate Pointwise(ts: seq<Lexer.Token>, code: seq<BytecodeElement>) {
    |ts| == |code| && forall i :: 0 <= i < |ts| ==> Translates(ts[i], code[i])
  }

  lemma PointwiseAppend(ts: seq<Lexer.Token>, code: seq<BytecodeElement>, us: seq<Lexer.Token>, more: seq<BytecodeElement>)
    requires Pointwise(ts, code) && Pointwise(us, more)
    ensures Pointwise(ts + us, code + more)
  {
    forall i | 0 <= i < |ts + us|
      ensures Translates((ts + us)[i], (code + more)[i])
    {
      if i >= |ts| {
        assert (ts + us)[i] == us[i - |ts|];
        assert (code + more)[i] == more[i - |ts|];
      }
    }
  }

  /** Lowering emits one instruction per token of the tree, position for position:
      one per simple statement, and a block's body plus two jumps per block. */
  lemma {:induction false} CompileSeqPointwise(tree: seq<P.ParseElement>, base: nat)
    ensures Pointwise(P.Unparse(tree), CompileSeq(tree, base))
    ensures |CompileSeq(tree, base)| == |P.Unparse(tree)|
  {
    if tree != [] {
      var first := CompileElement(tree[0], base);
      CompileElementPointwise(tree[0], base);
      CompileSeqPointwise(tree[1..], base + |first|);
      PointwiseAppend(P.UnparseElement(tree[0]), first, P.Unparse(tree[1..]), CompileSeq(tree[1..], base + |first|));
    }
  }

  lemma {:induction false} CompileElementPointwise(e: P.ParseElement, base: nat)
    ensures Pointwise(P.UnparseElement(e), CompileElement(e, base))
  {
    if !e.Block? {
      var t := P.UnparseElement(e)[0];
      assert P.UnparseElement(e) == [t] && t != Lexer.LoopOpen && t != Lexer.LoopClose;
      P.UnparseElementInjective(e, P.SimpleElement(t));
    } else {
      var code := CompileSeq(e.body, base + 1);
      CompileSeqPointwise(e.body, base + 1);
      PointwiseAppend([Lexer.LoopOpen], [PositiveJump(base + 1 + |code|)], P.Unparse(e.body), code);
      PointwiseAppend([Lexer.LoopOpen] + P.Unparse(e.body), [PositiveJump(base + 1 + |code|)] + code,
                      [Lexer.LoopClose], [NegativeJump(base)]);
    }
  }

  /** Lowering only ever emits `ChangeValue(±1)` and `MovePointer(±1)`. */
  lemma LoweringUnitSteps(tree: seq<P.ParseElement>, base: nat)
    ensures UnitSteps(CompileSeq(tree, base))
  {
    CompileSeqPointwise(tree, base);
  }

  // ---------------------------------------------------------------------------
  // Jump pairing
  // ---------------------------------------------------------------------------

  lemma MatchedSingle(b: BytecodeElement, base: nat)
    requires !IsJump(b)
    ensures JumpsMatched([b], base)
  {
  }

  /** Code that is well formed at its own address stays so when followed by code
      that is well formed right after it. */
  lemma MatchedAppend(c: seq<BytecodeElement>, d: seq<BytecodeElement>, base: nat)
    requires JumpsMatched(c, base) && JumpsMatched(d, base + |c|)
    ensures JumpsMatched(c + d, base)
  {
    ForwardAppend(c, d, base);
    BackwardAppend(c, d, base);
    NestedAppend(c, d, base);
  }

  lemma ForwardAppend(c: seq<BytecodeElement>, d: seq<BytecodeElement>, base: nat)
    requires ForwardJumpsMatched(c, base) && ForwardJumpsMatched(d, base + |c|)
    ensures ForwardJumpsMatched(c + d, base)
  {
    var cd := c + d;
    forall i | 0 <= i < |cd| && cd[i].PositiveJump?
      ensures base + i < cd[i].dest < base + |cd| && cd[cd[i].dest - base] == NegativeJump(base + i)
    {
      if i < |c| {
        assert cd[i] == c[i] && cd[c[i].dest - base] == c[c[i].dest - base];
      } else {
        var j := i - |c|;
        assert cd[i] == d[j] && cd[d[j].dest - base] == d[d[j].dest - base - |c|];
      }
    }
  }

  lemma BackwardAppend(c: seq<BytecodeElement>, d: seq<BytecodeElement>, base: nat)
    requires BackwardJumpsMatched(c, base) && BackwardJumpsMatched(d, base + |c|)
    ensures BackwardJumpsMatched(c + d, base)
  {
    var cd := c + d;
    forall i | 0 <= i < |cd| && cd[i].NegativeJump?
      ensures base <= cd[i].dest < base + i && cd[cd[i].dest - base] == PositiveJump(base + i)
    {
      if i < |c| {
        assert cd[i] == c[i] && cd[c[i].dest - base] == c[c[i].dest - base];
      } else {
        var j := i - |c|;
        assert cd[i] == d[j] && cd[d[j].dest - base] == d[d[j].dest - base - |c|];
      }
    }
  }

  lemma NestedAppend(c: seq<BytecodeElement>, d: seq<BytecodeElement>, base: nat)
    requires ForwardJumpsMatched(c, base) && JumpsNested(c, base) && JumpsNested(d, base + |c|)
    ensures JumpsNested(c + d, base)
  {
    var cd := c + d;
    forall i, k | 0 <= i < k < |cd| && cd[i].PositiveJump? && base + k < cd[i].dest && IsJump(cd[k])
      ensures base + i < cd[k].dest < cd[i].dest
    {
      if i < |c| {
        // The loop at i ends inside c, so k lies inside c as well.
        assert cd[i] == c[i] && k < |c| && cd[k] == c[k];
      } else {
        assert cd[i] == d[i - |c|] && cd[k] == d[k - |c|];
      }
    }
  }

  /** Wrapping well-formed code in a guard and a back jump gives a well-formed loop. */
  lemma MatchedWrap(body: seq<BytecodeElement>, base: nat)
    requires JumpsMatched(body, base + 1)
    ensures JumpsMatched([PositiveJump(base + 1 + |body|)] + body + [NegativeJump(base)], base)
  {
    var w := [PositiveJump(base + 1 + |body|)] + body + [NegativeJump(base)];
    forall k | 1 <= k <= |body|
      ensures w[k] == body[k - 1]
    {
    }
    ForwardWrap(body, base, w);
    BackwardWrap(body, base, w);
    NestedWrap(body, base, w);
  }

  lemma ForwardWrap(body: seq<BytecodeElement>, base: nat, w: seq<BytecodeElement>)
    requires ForwardJumpsMatched(body, base + 1)
    requires w == [PositiveJump(base + 1 + |body|)] + body + [NegativeJump(base)]
    requires forall k :: 1 <= k <= |body| ==> w[k] == body[k - 1]
    ensures ForwardJumpsMatched(w, base)
  {
    forall i | 0 <= i < |w| && w[i].PositiveJump?
      ensures base + i < w[i].dest < base + |w| && w[w[i].dest - base] == NegativeJump(base + i)
    {
      if 0 < i {
        assert w[i] == body[i - 1];
        assert w[body[i - 1].dest - base] == body[body[i - 1].dest - base - 1];
      }
    }
  }

  lemma BackwardWrap(body: seq<BytecodeElement>, base: nat, w: seq<BytecodeElement>)
    requires BackwardJumpsMatched(body, base + 1)
    requires w == [PositiveJump(base + 1 + |body|)] + body + [NegativeJump(base)]
    requires forall k :: 1 <= k <= |body| ==> w[k] == body[k - 1]
    ensures BackwardJumpsMatched(w, base)
  {
    forall i | 0 <= i < |w| && w[i].NegativeJump?
      ensures base <= w[i].dest < base + i && w[w[i].dest - base] == PositiveJump(base + i)
    {
      if 0 < i < |w| - 1 {
        assert w[i] == body[i - 1];
        assert w[body[i - 1].dest - base] == body[body[i - 1].dest - base - 1];
      }
    }
  }

  lemma NestedWrap(body: seq<BytecodeElement>, base: nat, w: seq<BytecodeElement>)
    requires ForwardJumpsMatched(body, base + 1) && BackwardJumpsMatched(body, base + 1)
    requires JumpsNested(body, base + 1)
    requires w == [PositiveJump(base + 1 + |body|)] + body + [NegativeJump(base)]
    requires forall k :: 1 <= k <= |body| ==> w[k] == body[k - 1]
    ensures JumpsNested(w, base)
  {
    forall i, k | 0 <= i < k < |w| && w[i].PositiveJump? && base + k < w[i].dest && IsJump(w[k])
      ensures base + i < w[k].dest < w[i].dest
    {
      // A jump inside the body stays inside the body.
      assert w[k] == body[k - 1];
      if 0 < i {
        assert w[i] == body[i - 1];
      }
    }
  }

  /**
   * Every jump pair of lowered code is matched, for any nesting and sibling
   * shape: a `PositiveJump` at `i` targets a `NegativeJump` at `j > i` that
   * targets `i`, and the loops nest.
   */
  lemma {:induction false} CompileSeqMatched(tree: seq<P.ParseElement>, base: nat)
    ensures JumpsMatched(CompileSeq(tree, base), base)
  {
    if tree != [] {
      var first := CompileElement(tree[0], base);
      CompileElementMatched(tree[0], base);
      CompileSeqMatched(tree[1..], base + |first|);
      MatchedAppend(first, CompileSeq(tree[1..], base + |first|), base);
    }
  }

  lemma {:induction false} CompileElementMatched(e: P.ParseElement, base: nat)
    ensures JumpsMatched(CompileElement(e, base), base)
  {
    if e.Block? {
      var code := CompileSeq(e.body, base + 1);
      CompileSeqMatched(e.body, base + 1);
      MatchedWrap(code, base);
      assert CompileElement(e, base) == [PositiveJump(base + 1 + |code|)] + code + [NegativeJump(base)];
    } else {
      MatchedSingle(Simple(e), base);
    }
  }
}
