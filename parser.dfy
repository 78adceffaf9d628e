/**
 * The recursive-descent parser (src/main.rs, `parse_root` and `parse_block`).
 *
 * The Rust parser threads one mutable token iterator through its recursive
 * calls; here the iterator is its position in the token sequence, passed in
 * and handed back. A `panic!` becomes an `Err` that the callers pass upwards
 * unchanged, since the Rust program stops at the first one.
 */
module Parser {
  import Lexer

  type Token = Lexer.Token

  /** A statement of the parse tree; a loop is a `Block` owning its body. */
  datatype ParseElement = Increment | Decrement | MoveUp | MoveDown | Print | Read | Block(body: seq<ParseElement>)

  /** The two panics of the parser: "unexpected ]" and "missing ]". */
  datatype ParseError = UnexpectedClose | MissingClose

  datatype Result<T> = Ok(value: T) | Err(error: ParseError)

  // ---------------------------------------------------------------------------
  // Bracket balance of a token sequence: the reference the parser is proved against
  // ---------------------------------------------------------------------------

  function Weight(t: Token): int {
    match t
    case LoopOpen => 1
    case LoopClose => -1
    case _ => 0
  }

  /** Opening brackets minus closing brackets. */
  function Net(ts: seq<Token>): int {
    if ts == [] then 0 else Net(ts[..|ts| - 1]) + Weight(ts[|ts| - 1])
  }

  /** No prefix closes more blocks than it opens: no `]` is unmatched. */
  ghost predicate NeverBelow(ts: seq<Token>) {
    forall k :: 0 <= k <= |ts| ==> Net(ts[..k]) >= 0
  }

  /** Every `[` has its `]` and every `]` its `[`. */
  ghost predicate Balanced(ts: seq<Token>) {
    NeverBelow(ts) && Net(ts) == 0
  }

  lemma {:induction false} NetAppend(a: seq<Token>, b: seq<Token>)
    ensures Net(a + b) == Net(a) + Net(b)
    decreases |b|
  {
    if b == [] {
      assert a + b == a;
    } else {
      var b' := b[..|b| - 1];
      assert (a + b)[..|a + b| - 1] == a + b';
      NetAppend(a, b');
    }
  }

  /** Two sequences without an unmatched `]` glue into one without. */
  lemma NeverBelowAppend(a: seq<Token>, b: seq<Token>)
    requires NeverBelow(a) && NeverBelow(b)
    ensures NeverBelow(a + b)
  {
    forall k | 0 <= k <= |a + b|
      ensures Net((a + b)[..k]) >= 0
    {
      if k <= |a| {
        assert (a + b)[..k] == a[..k];
      } else {
        assert (a + b)[..k] == a + b[..k - |a|];
        assert a[..|a|] == a;
        NetAppend(a, b[..k - |a|]);
      }
    }
  }

  // ---------------------------------------------------------------------------
  // Writing a tree back as tokens: the inverse of parsing
  // ---------------------------------------------------------------------------

  /** The tokens a tree is parsed from: each `Block` wrapped in `[` and `]`. */
  function Unparse(tree: seq<ParseElement>): seq<Token> {
    if tree == [] then [] else UnparseElement(tree[0]) + Unparse(tree[1..])
  }

  function UnparseElement(e: ParseElement): seq<Token> {
    match e
    case Increment => [Lexer.Increment]
    case Decrement => [Lexer.Decrement]
    case MoveUp => [Lexer.MoveUp]
    case MoveDown => [Lexer.MoveDown]
    case Print => [Lexer.Print]
    case Read => [Lexer.Read]
    case Block(body) => [Lexer.LoopOpen] + Unparse(body) + [Lexer.LoopClose]
  }

  lemma {:induction false} UnparseAppend(x: seq<ParseElement>, y: seq<ParseElement>)
    ensures Unparse(x + y) == Unparse(x) + Unparse(y)
  {
    if x == [] {
      assert x + y == y;
    } else {
      assert (x + y)[0] == x[0];
      assert (x + y)[1..] == x[1..] + y;
      UnparseAppend(x[1..], y);
    }
  }

  lemma UnparseSnoc(x: seq<ParseElement>, e: ParseElement)
    ensures Unparse(x + [e]) == Unparse(x) + UnparseElement(e)
  {
    UnparseAppend(x, [e]);
    assert [e][1..] == [];
  }

  /** Every tree is written as a balanced token sequence. */
  lemma {:induction false} UnparseBalanced(tree: seq<ParseElement>)
    ensures Balanced(Unparse(tree))
  {
    if tree != [] {
      UnparseElementBalanced(tree[0]);
      UnparseBalanced(tree[1..]);
      NeverBelowAppend(UnparseElement(tree[0]), Unparse(tree[1..]));
      NetAppend(UnparseElement(tree[0]), Unparse(tree[1..]));
    }
  }

  lemma {:induction false} UnparseElementBalanced(e: ParseElement)
    ensures Balanced(UnparseElement(e))
  {
    if e.Block? {
      UnparseBalanced(e.body);
      WrapBalanced(Unparse(e.body));
    } else {
      SingleBalanced(UnparseElement(e));
    }
  }

  lemma SingleBalanced(s: seq<Token>)
    requires |s| == 1 && s[0] != Lexer.LoopOpen && s[0] != Lexer.LoopClose
    ensures Balanced(s)
  {
    assert s[..0] == [] && s[..1] == s;
    assert s[..|s| - 1] == [];
  }

  /** Brackets around a balanced sequence give a balanced sequence. */
  lemma WrapBalanced(inner: seq<Token>)
    requires Balanced(inner)
    ensures Balanced([Lexer.LoopOpen] + inner + [Lexer.LoopClose])
  {
    OpenThenBalanced(inner);
    var s := [Lexer.LoopOpen] + inner + [Lexer.LoopClose];
    assert s == ([Lexer.LoopOpen] + inner) + [Lexer.LoopClose];
    NetAppend([Lexer.LoopOpen] + inner, [Lexer.LoopClose]);
    assert Net([Lexer.LoopClose]) == -1 by { assert [Lexer.LoopClose][..0] == []; }
    // Up to the closing bracket every prefix is inside the block, at depth one or more.
    forall k | 0 <= k <= |s|
      ensures Net(s[..k]) >= 0
    {
      if k == 0 {
        assert s[..k] == [];
      } else if k <= |inner| + 1 {
        assert s[..k] == ([Lexer.LoopOpen] + inner)[..k];
      } else {
        assert s[..k] == s;
      }
    }
  }

  /** After an opening bracket, a balanced sequence never returns to depth zero;
      it ends at depth one. */
  lemma OpenThenBalanced(inner: seq<Token>)
    requires Balanced(inner)
    ensures NeverBelow([Lexer.LoopOpen] + inner)
    ensures Net([Lexer.LoopOpen] + inner) == 1
    ensures forall k :: 1 <= k <= |inner| + 1 ==> Net(([Lexer.LoopOpen] + inner)[..k]) >= 1
  {
    var s := [Lexer.LoopOpen] + inner;
    forall k | 1 <= k <= |inner| + 1
      ensures Net(s[..k]) >= 1
    {
      assert s[..k] == [Lexer.LoopOpen] + inner[..k - 1];
      NetAppend([Lexer.LoopOpen], inner[..k - 1]);
      assert Net([Lexer.LoopOpen]) == 1 by { assert [Lexer.LoopOpen][..0] == []; }
    }
    assert Net([Lexer.LoopOpen]) == 1 by { assert [Lexer.LoopOpen][..0] == []; }
    NetAppend([Lexer.LoopOpen], inner);
    forall k | 0 <= k <= |s|
      ensures Net(s[..k]) >= 0
    {
      if k == 0 {
        assert s[..k] == [];
      }
    }
  }

  // ---------------------------------------------------------------------------
  // The parser
  // ---------------------------------------------------------------------------

  /**
   * `parse_block`: called just after a `[` was taken from the iterator at
   * position `start`. Takes statements until the matching `]`; running out of
   * tokens first is the "missing ]" panic. The second result is where the
   * iterator stands afterwards.
   */
  method ParseBlock(tokens: seq<Token>, start: nat) returns (r: Result<ParseElement>, next: nat)
    requires start <= |tokens|
    ensures start <= next <= |tokens|
    ensures r.Ok? ==> r.value.Block? && tokens[start..next] == Unparse(r.value.body) + [Lexer.LoopClose]
    ensures r.Err? ==> r.error == MissingClose && next == |tokens| && NeverBelow(tokens[start..])
    decreases |tokens| - start
  {
    var blockElements: seq<ParseElement> := [];
    var i := start;
    while i < |tokens|
      invariant start <= i <= |tokens|
      invariant tokens[start..i] == Unparse(blockElements)
      decreases |tokens| - i
    {
      var token := tokens[i];
      TakeToken(tokens, start, i, blockElements);
      i := i + 1;
      if token == Lexer.LoopClose {
        return Ok(Block(blockElements)), i;
      } else if token == Lexer.LoopOpen {
        var inner, after := ParseBlock(tokens, i);
        if inner.Err? {
          InnerMissingClose(tokens, start, i, blockElements);
          return inner, after;
        }
        TakeBlock(tokens, start, i, after, blockElements, inner.value);
        blockElements := blockElements + [inner.value];
        i := after;
      } else {
        UnparseSnoc(blockElements, SimpleElement(token));
        blockElements := blockElements + [SimpleElement(token)];
      }
    }
    EndOfTokens(tokens, start, blockElements);
    return Err(MissingClose), i;
  }

  lemma TakeToken(tokens: seq<Token>, start: nat, i: nat, elements: seq<ParseElement>)
    requires start <= i < |tokens| && tokens[start..i] == Unparse(elements)
    ensures tokens[start..i + 1] == Unparse(elements) + [tokens[i]]
  {
    assert tokens[start..i + 1] == tokens[start..i] + [tokens[i]];
  }

  lemma TakeBlock(tokens: seq<Token>, start: nat, i: nat, after: nat, elements: seq<ParseElement>, b: ParseElement)
    requires start <= i <= after <= |tokens| && b.Block?
    requires tokens[start..i] == Unparse(elements) + [Lexer.LoopOpen]
    requires tokens[i..after] == Unparse(b.body) + [Lexer.LoopClose]
    ensures tokens[start..after] == Unparse(elements + [b])
  {
    assert tokens[start..after] == tokens[start..i] + tokens[i..after];
    UnparseSnoc(elements, b);
  }

  lemma EndOfTokens(tokens: seq<Token>, start: nat, elements: seq<ParseElement>)
    requires start <= |tokens| && tokens[start..|tokens|] == Unparse(elements)
    ensures NeverBelow(tokens[start..])
  {
    assert tokens[start..] == tokens[start..|tokens|];
    UnparseBalanced(elements);
  }

  /** The statement a non-bracket token parses to: the one it is written as. */
  function SimpleElement(t: Token): (e: ParseElement)
    requires t != Lexer.LoopOpen && t != Lexer.LoopClose
    ensures !e.Block? && UnparseElement(e) == [t]
  {
    match t
    case Increment => Increment
    case Decrement => Decrement
    case MoveUp => MoveUp
    case MoveDown => MoveDown
    case Print => Print
    case Read => Read
  }

  /** A nested block that runs out of tokens leaves the enclosing block without unmatched `]`. */
  lemma InnerMissingClose(tokens: seq<Token>, start: nat, i: nat, elements: seq<ParseElement>)
    requires start < i <= |tokens|
    requires tokens[start..i] == Unparse(elements) + [Lexer.LoopOpen]
    requires NeverBelow(tokens[i..])
    ensures NeverBelow(tokens[start..])
  {
    var before := Unparse(elements) + [Lexer.LoopOpen];
    UnparseBalanced(elements);
    forall k | 0 <= k <= |before|
      ensures Net(before[..k]) >= 0
    {
      if k == |before| {
        assert before[..k] == before;
        NetAppend(Unparse(elements), [Lexer.LoopOpen]);
        assert Net([Lexer.LoopOpen]) == 1 by { assert [Lexer.LoopOpen][..0] == []; }
        assert Unparse(elements)[..|Unparse(elements)|] == Unparse(elements);
      } else {
        assert before[..k] == Unparse(elements)[..k];
      }
    }
    NeverBelowAppend(before, tokens[i..]);
    assert tokens[start..] == before + tokens[i..];
  }

  /**
   * `parse_root`: the top-level statements. Parsing succeeds exactly on
   * balanced tokens and then gives back the tree the tokens write; an unmatched
   * `]` is "unexpected ]", and otherwise an unclosed `[` is "missing ]".
   */
  method ParseRoot(tokens: seq<Token>) returns (r: Result<seq<ParseElement>>)
    ensures r.Ok? <==> Balanced(tokens)
    ensures r.Ok? ==> Unparse(r.value) == tokens
    ensures r == Err(UnexpectedClose) <==> !NeverBelow(tokens)
    ensures r == Err(MissingClose) <==> NeverBelow(tokens) && Net(tokens) > 0
  {
    var parseElements: seq<ParseElement> := [];
    var i := 0;
    while i < |tokens|
      invariant 0 <= i <= |tokens|
      invariant tokens[0..i] == Unparse(parseElements)
      decreases |tokens| - i
    {
      var token := tokens[i];
      TakeToken(tokens, 0, i, parseElements);
      i := i + 1;
      if token == Lexer.LoopClose {
        UnmatchedClose(tokens, i, parseElements);
        return Err(UnexpectedClose);
      } else if token == Lexer.LoopOpen {
        var inner, after := ParseBlock(tokens, i);
        if inner.Err? {
          RootMissingClose(tokens, i, parseElements);
          return Err(MissingClose);
        }
        TakeBlock(tokens, 0, i, after, parseElements, inner.value);
        parseElements := parseElements + [inner.value];
        i := after;
      } else {
        UnparseSnoc(parseElements, SimpleElement(token));
        parseElements := parseElements + [SimpleElement(token)];
      }
    }
    assert tokens[0..i] == tokens;
    UnparseBalanced(parseElements);
    return Ok(parseElements);
  }

  /** A `]` right after a complete tree closes a block that was never opened. */
  lemma UnmatchedClose(tokens: seq<Token>, i: nat, elements: seq<ParseElement>)
    requires 0 < i <= |tokens|
    requires tokens[0..i] == Unparse(elements) + [Lexer.LoopClose]
    ensures !NeverBelow(tokens)
  {
    assert tokens[..i] == tokens[0..i];
    UnparseBalanced(elements);
    NetAppend(Unparse(elements), [Lexer.LoopClose]);
    assert Net([Lexer.LoopClose]) == -1 by { assert [Lexer.LoopClose][..0] == []; }
    assert Net(tokens[..i]) < 0;
  }

  /** When the last open block runs out of tokens, more blocks were opened than closed. */
  lemma RootMissingClose(tokens: seq<Token>, i: nat, elements: seq<ParseElement>)
    requires 0 < i <= |tokens|
    requires tokens[0..i] == Unparse(elements) + [Lexer.LoopOpen]
    requires NeverBelow(tokens[i..])
    ensures NeverBelow(tokens) && Net(tokens) > 0
  {
    InnerMissingClose(tokens, 0, i, elements);
    assert tokens[0..] == tokens;
    assert tokens[..i] == tokens[0..i];
    UnparseBalanced(elements);
    NetAppend(Unparse(elements), [Lexer.LoopOpen]);
    assert Net([Lexer.LoopOpen]) == 1 by { assert [Lexer.LoopOpen][..0] == []; }
    assert tokens == tokens[..i] + tokens[i..];
    NetAppend(tokens[..i], tokens[i..]);
    assert tokens[i..][..|tokens[i..]|] == tokens[i..];
  }

  // ---------------------------------------------------------------------------
  // A token sequence writes at most one tree, so the tree ParseRoot returns is
  // the only one it could return.
  // ---------------------------------------------------------------------------

  /** Inside a written-out block the depth stays positive until its own `]`. */
  lemma BlockDepth(body: seq<ParseElement>)
    ensures Net(UnparseElement(Block(body))) == 0
    ensures forall k :: 0 < k < |UnparseElement(Block(body))| ==> Net(UnparseElement(Block(body))[..k]) >= 1
  {
    var inner := Unparse(body);
    var s := UnparseElement(Block(body));
    UnparseBalanced(body);
    UnparseElementBalanced(Block(body));
    OpenThenBalanced(inner);
    forall k | 0 < k < |s|
      ensures Net(s[..k]) >= 1
    {
      assert s[..k] == ([Lexer.LoopOpen] + inner)[..k];
    }
  }

  lemma PrefixOfAppend<T>(a: seq<T>, b: seq<T>)
    ensures (a + b)[..|a|] == a
    ensures forall k :: 0 <= k <= |a| ==> (a + b)[..k] == a[..k]
  {
  }

  /** Two written-out blocks at the start of the same tokens end at the same place:
      where the depth first returns to zero. */
  lemma SameBlockLength(b: seq<ParseElement>, c: seq<ParseElement>, rb: seq<Token>, rc: seq<Token>)
    requires UnparseElement(Block(b)) + rb == UnparseElement(Block(c)) + rc
    ensures |UnparseElement(Block(b))| == |UnparseElement(Block(c))|
  {
    var eb, ec := UnparseElement(Block(b)), UnparseElement(Block(c));
    var s := eb + rb;
    BlockDepth(b);
    BlockDepth(c);
    PrefixOfAppend(eb, rb);
    PrefixOfAppend(ec, rc);
    if |eb| < |ec| {
      assert false;
    } else if |ec| < |eb| {
      assert false;
    }
  }

  lemma {:induction false} UnparseInjective(x: seq<ParseElement>, y: seq<ParseElement>)
    requires Unparse(x) == Unparse(y)
    ensures x == y
    decreases x
  {
    if x == [] || y == [] {
    } else {
      var s := Unparse(x);
      var ex, ey := UnparseElement(x[0]), UnparseElement(y[0]);
      assert s == ex + Unparse(x[1..]) == ey + Unparse(y[1..]);
      if x[0].Block? || y[0].Block? {
        assert s[0] == Lexer.LoopOpen;
        assert x[0].Block? && y[0].Block?;
        SameBlockLength(x[0].body, y[0].body, Unparse(x[1..]), Unparse(y[1..]));
      }
      assert ex == s[..|ex|] == ey;
      UnparseElementInjective(x[0], y[0]);
      assert Unparse(x[1..]) == s[|ex|..] == Unparse(y[1..]);
      UnparseInjective(x[1..], y[1..]);
      assert x == [x[0]] + x[1..];
      assert y == [y[0]] + y[1..];
    }
  }

  lemma {:induction false} UnparseElementInjective(e: ParseElement, f: ParseElement)
    requires UnparseElement(e) == UnparseElement(f)
    ensures e == f
    decreases e
  {
    if e.Block? {
      var s := UnparseElement(e);
      assert s[1..|s| - 1] == Unparse(e.body) == Unparse(f.body);
      UnparseInjective(e.body, f.body);
    }
  }
}
