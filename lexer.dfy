/** The lexer: program text to tokens (src/main.rs, `tokenize` and `map_token`). */
module Lexer {
  import opened Wrappers

  /** One token per recognised operator character. */
  datatype Token = Increment | Decrement | MoveUp | MoveDown | Print | Read | LoopOpen | LoopClose

  /** The eight characters the language gives a meaning to. */
  predicate IsOperator(c: char) {
    c == '+' || c == '-' || c == '>' || c == '<' || c == '.' || c == ',' || c == '[' || c == ']'
  }

  /** The character a token stands for (the inverse of `MapToken`). */
  function TokenChar(t: Token): (c: char)
    ensures IsOperator(c)
  {
    match t
    case Increment => '+'
    case Decrement => '-'
    case MoveUp => '>'
    case MoveDown => '<'
    case Print => '.'
    case Read => ','
    case LoopOpen => '['
    case LoopClose => ']'
  }

  /** Classifies one character: a token for an operator, nothing for anything else. */
  function MapToken(c: char): (r: Option<Token>)
    ensures r.Some? <==> IsOperator(c)
    ensures r.Some? ==> TokenChar(r.value) == c
  {
    match c
    case '+' => Some(Increment)
    case '-' => Some(Decrement)
    case '>' => Some(MoveUp)
    case '<' => Some(MoveDown)
    case '.' => Some(Print)
    case ',' => Some(Read)
    case '[' => Some(LoopOpen)
    case ']' => Some(LoopClose)
    case _ => None
  }

  lemma MapTokenChar(t: Token)
    ensures MapToken(TokenChar(t)) == Some(t)
  {
  }

  /** Maps every character and keeps the tokens, in order; it cannot fail. */
  function Tokenize(s: string): (ts: seq<Token>)
    ensures |ts| <= |s|
  {
    if s == [] then []
    else
      match MapToken(s[0])
      case Some(t) => [t] + Tokenize(s[1..])
      case None => Tokenize(s[1..])
  }

  /** The operator characters of `s`, in order: the reference for what the lexer keeps. */
  function Operators(s: string): (ops: string)
    ensures forall i :: 0 <= i < |ops| ==> IsOperator(ops[i])
  {
    if s == [] then []
    else if IsOperator(s[0]) then [s[0]] + Operators(s[1..])
    else Operators(s[1..])
  }

  /** The text a token sequence is written as. */
  function Untokenize(ts: seq<Token>): (s: string)
    ensures |s| == |ts|
    ensures forall i :: 0 <= i < |ts| ==> s[i] == TokenChar(ts[i])
  {
    if ts == [] then [] else [TokenChar(ts[0])] + Untokenize(ts[1..])
  }

  /** The lexer keeps exactly the operator characters, one token each, in source order. */
  lemma {:induction false} TokenizeKeepsOperators(s: string)
    ensures Untokenize(Tokenize(s)) == Operators(s)
    ensures |Tokenize(s)| == |Operators(s)|
  {
    if s != [] {
      TokenizeKeepsOperators(s[1..]);
      match MapToken(s[0])
      case Some(t) =>
        calc {
          Untokenize(Tokenize(s));
          Untokenize([t] + Tokenize(s[1..]));
          { assert ([t] + Tokenize(s[1..]))[1..] == Tokenize(s[1..]); }
          [TokenChar(t)] + Untokenize(Tokenize(s[1..]));
          [s[0]] + Operators(s[1..]);
        }
      case None =>
    }
  }

  /** Lexing the text of a token sequence gives that token sequence back. */
  lemma {:induction false} TokenizeUntokenize(ts: seq<Token>)
    ensures Tokenize(Untokenize(ts)) == ts
  {
    if ts != [] {
      var s := Untokenize(ts);
      assert s[1..] == Untokenize(ts[1..]);
      MapTokenChar(ts[0]);
      TokenizeUntokenize(ts[1..]);
    }
  }

  /** Lexing distributes over concatenation: tokens depend on each character alone. */
  lemma {:induction false} TokenizeAppend(a: string, b: string)
    ensures Tokenize(a + b) == Tokenize(a) + Tokenize(b)
  {
    if a != [] {
      assert (a + b)[0] == a[0];
      assert (a + b)[1..] == a[1..] + b;
      TokenizeAppend(a[1..], b);
    } else {
      assert a + b == b;
    }
  }

  /** Text without operator characters lexes to no tokens at all. */
  lemma {:induction false} TokenizeNoOperators(s: string)
    requires forall i :: 0 <= i < |s| ==> !IsOperator(s[i])
    ensures Tokenize(s) == []
  {
    if s != [] {
      TokenizeNoOperators(s[1..]);
    }
  }
}
