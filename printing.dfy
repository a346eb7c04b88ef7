// A printer for expressions, the inverse of the parser: every binary node
// is written inside parentheses, so the tokens say the grouping outright and
// reading them back must give the same tree whatever the precedence table.

module Printing {
  import opened Lexical
  import opened Ast
  import opened Grammar

  /** The table leaves ')' and ',' out of the binary operators, so they end
      an expression as main.cpp:102 and main.cpp:136-141 expect. */
  predicate Punctuation(table: map<char, int>)
  {
    Precedence(table, TokenChar(')')) < 0 && Precedence(table, TokenChar(',')) < 0
  }

  /** Every operator of e is a binary operator of the table and is not '(',
      which would turn an identifier before it into a callee. */
  predicate Printable(table: map<char, int>, e: Expr)
    decreases e
  {
    match e
    case Number(_) => true
    case Variable(_) => true
    case Binary(op, lhs, rhs) =>
      Precedence(table, TokenChar(op)) >= 1 && op != '(' && Printable(table, lhs) && Printable(table, rhs)
    case Call(_, args) => PrintableArgs(table, args)
  }

  predicate PrintableArgs(table: map<char, int>, args: seq<Expr>)
    decreases args
  {
    args != [] ==> Printable(table, args[0]) && PrintableArgs(table, args[1..])
  }

  /** The tokens of e, every binary node in parentheses. */
  function Render(e: Expr): seq<Token>
    decreases e
  {
    match e
    case Number(value) => [TokenNumber(Numeral(value))]
    case Variable(name) => [TokenIdentifier(name)]
    case Binary(op, lhs, rhs) =>
      [TokenChar('(')] + (Render(lhs) + ([TokenChar(op)] + (Render(rhs) + [TokenChar(')')])))
    case Call(callee, args) => [TokenIdentifier(callee), TokenChar('(')] + (RenderArgs(args) + [TokenChar(')')])
  }

  /** A call's arguments, separated by ','. */
  function RenderArgs(args: seq<Expr>): seq<Token>
    decreases args
  {
    if args == [] then []
    else if |args| == 1 then Render(args[0])
    else Render(args[0]) + ([TokenChar(',')] + RenderArgs(args[1..]))
  }

  lemma AppendAssociative4<T>(a: seq<T>, b: seq<T>, c: seq<T>, d: seq<T>)
    ensures (a + (b + c)) + d == a + (b + (c + d))
  {
  }

  /** ParsePrimary reads a printed expression back. */
  lemma {:induction false} PrimaryRoundTrip(table: map<char, int>, e: Expr, end: seq<Token>)
    requires Punctuation(table) && Printable(table, e)
    requires Peek(end) != TokenChar('(')
    ensures Primary(Render(e) + end, table) == Parsed(Ok(e), end)
    decreases e, 1
  {
    match e
    case Number(value) =>
      ValueOfNumeral(value);
      assert (Render(e) + end)[1..] == end;
    case Variable(name) =>
      IdentifierIsVariable(table, name, end);
    case Binary(op, lhs, rhs) =>
      BinaryRoundTrip(table, op, lhs, rhs, end);
    case Call(callee, args) =>
      CallRoundTrip(table, callee, args, end);
  }

  /** A binary node: its parentheses, its left operand, its operator, and
      its right operand, which stops at the closing parenthesis. */
  lemma {:induction false} BinaryRoundTrip(table: map<char, int>, op: char, lhs: Expr, rhs: Expr, end: seq<Token>)
    requires Punctuation(table) && Printable(table, Binary(op, lhs, rhs))
    ensures Primary(Render(Binary(op, lhs, rhs)) + end, table) == Parsed(Ok(Binary(op, lhs, rhs)), end)
    decreases Binary(op, lhs, rhs), 0
  {
    var close := [TokenChar(')')] + end;
    var afterOp := Render(rhs) + close;
    var afterLhs := [TokenChar(op)] + afterOp;
    var inner := Render(lhs) + afterLhs;
    var ts := [TokenChar('(')] + inner;
    AppendAssociative4([TokenChar(op)], Render(rhs), [TokenChar(')')], end);
    AppendAssociative4(Render(lhs), [TokenChar(op)], Render(rhs) + [TokenChar(')')], end);
    AppendAssociative4([TokenChar('(')], Render(lhs), [TokenChar(op)] + (Render(rhs) + [TokenChar(')')]), end);
    assert Render(Binary(op, lhs, rhs)) + end == ts;
    assert ts[1..] == inner && afterLhs[1..] == afterOp;
    PrimaryRoundTrip(table, lhs, afterLhs);
    PrimaryRoundTrip(table, rhs, close);
    var prec := Precedence(table, TokenChar(op));
    RightOperandAfter(afterOp, table, prec, rhs, close);
    BinOpRhsRound(afterLhs, table, 0, lhs, rhs, close);
    BinOpRhsStops(close, table, 0, Binary(op, lhs, rhs));
    ExpressionAfter(inner, table, lhs, afterLhs);
    ParenAround(inner, table, Binary(op, lhs, rhs), end);
  }

  /** A call node: its callee, then its arguments in order. */
  lemma {:induction false} CallRoundTrip(table: map<char, int>, callee: string, args: seq<Expr>, end: seq<Token>)
    requires Punctuation(table) && Printable(table, Call(callee, args))
    ensures Primary(Render(Call(callee, args)) + end, table) == Parsed(Ok(Call(callee, args)), end)
    decreases Call(callee, args), 0
  {
    var close := [TokenChar(')')] + end;
    var afterOpen := RenderArgs(args) + close;
    AppendAssociative([TokenIdentifier(callee), TokenChar('(')], RenderArgs(args) + [TokenChar(')')], end);
    AppendAssociative(RenderArgs(args), [TokenChar(')')], end);
    if args != [] {
      ArgumentsRoundTrip(table, args, [], end);
      assert [] + args == args;
      ArgumentsStart(args, close);
    }
    CallAfter(table, callee, afterOpen, args, end);
  }

  /** Printed arguments start with the first argument's first token, never ')'. */
  lemma ArgumentsStart(args: seq<Expr>, rest: seq<Token>)
    requires args != []
    ensures Peek(RenderArgs(args) + rest) != TokenChar(')')
  {
    var first := Render(args[0]);
    assert RenderArgs(args) == first || RenderArgs(args) == first + ([TokenChar(',')] + RenderArgs(args[1..]));
    assert first != [] && first[0] != TokenChar(')');
  }

  /** The argument loop reads printed arguments back, in order, and stops
      at the closing parenthesis. */
  lemma {:induction false} ArgumentsRoundTrip(table: map<char, int>, args: seq<Expr>, before: seq<Expr>, end: seq<Token>)
    requires Punctuation(table) && PrintableArgs(table, args) && args != []
    ensures Arguments(RenderArgs(args) + ([TokenChar(')')] + end), table, before)
            == Parsed(Ok(before + args), [TokenChar(')')] + end)
    decreases args, 1
  {
    if |args| == 1 {
      LastArgumentRoundTrip(table, args, before, end);
    } else {
      MoreArgumentsRoundTrip(table, args, before, end);
    }
  }

  /** The last argument is followed by ')', which ends the loop. */
  lemma {:induction false} LastArgumentRoundTrip(table: map<char, int>, args: seq<Expr>, before: seq<Expr>, end: seq<Token>)
    requires Punctuation(table) && PrintableArgs(table, args) && |args| == 1
    ensures Arguments(RenderArgs(args) + ([TokenChar(')')] + end), table, before)
            == Parsed(Ok(before + args), [TokenChar(')')] + end)
    decreases args, 0
  {
    var close := [TokenChar(')')] + end;
    ExpressionRoundTrip(table, args[0], close);
    ArgumentsAfter(Render(args[0]) + close, table, before, args[0], close);
    assert args == [args[0]];
  }

  /** An argument followed by ',': the loop goes on with the others. */
  lemma {:induction false} MoreArgumentsRoundTrip(table: map<char, int>, args: seq<Expr>, before: seq<Expr>, end: seq<Token>)
    requires Punctuation(table) && PrintableArgs(table, args) && |args| > 1
    ensures Arguments(RenderArgs(args) + ([TokenChar(')')] + end), table, before)
            == Parsed(Ok(before + args), [TokenChar(')')] + end)
    decreases args, 0
  {
    var close := [TokenChar(')')] + end;
    var more := RenderArgs(args[1..]) + close;
    AppendAssociative4(Render(args[0]), [TokenChar(',')], RenderArgs(args[1..]), close);
    ArgumentThenComma(table, args[0], before, more);
    ArgumentsRoundTrip(table, args[1..], before + [args[0]], end);
    AppendAssociative(before, [args[0]], args[1..]);
    assert [args[0]] + args[1..] == args;
  }

  /** One argument and the ',' after it. */
  lemma {:induction false} ArgumentThenComma(table: map<char, int>, e: Expr, before: seq<Expr>, more: seq<Token>)
    requires Punctuation(table) && Printable(table, e)
    ensures Arguments(Render(e) + ([TokenChar(',')] + more), table, before) == Arguments(more, table, before + [e])
    decreases e, 3
  {
    var comma := [TokenChar(',')] + more;
    ExpressionRoundTrip(table, e, comma);
    ArgumentsAfter(Render(e) + comma, table, before, e, comma);
    assert Advance(comma) == more;
  }

  /** ParseExpression reads a printed expression back when what follows it
      is not a binary operator and not '('. */
  lemma {:induction false} ExpressionRoundTrip(table: map<char, int>, e: Expr, end: seq<Token>)
    requires Punctuation(table) && Printable(table, e)
    requires Precedence(table, Peek(end)) < 0 && Peek(end) != TokenChar('(')
    ensures Expression(Render(e) + end, table) == Parsed(Ok(e), end)
    decreases e, 2
  {
    PrimaryRoundTrip(table, e, end);
  }

  /** Every name of e is an identifier other than `def`, and every operator
      is a character the lexer returns on its own. */
  predicate Spellable(e: Expr)
    decreases e
  {
    match e
    case Number(_) => true
    case Variable(name) => WellFormed(TokenIdentifier(name))
    case Binary(op, lhs, rhs) => WellFormed(TokenChar(op)) && Spellable(lhs) && Spellable(rhs)
    case Call(callee, args) => WellFormed(TokenIdentifier(callee)) && SpellableArgs(args)
  }

  predicate SpellableArgs(args: seq<Expr>)
    decreases args
  {
    args != [] ==> Spellable(args[0]) && SpellableArgs(args[1..])
  }

  lemma ProperAppend(a: seq<Token>, b: seq<Token>)
    requires Proper(a) && Proper(b)
    ensures Proper(a + b)
  {
    assert forall i :: |a| <= i < |a + b| ==> (a + b)[i] == b[i - |a|];
  }

  lemma {:induction false} RenderProper(e: Expr)
    requires Spellable(e)
    ensures Proper(Render(e))
    decreases e
  {
    match e
    case Number(value) =>
    case Variable(name) =>
    case Binary(op, lhs, rhs) =>
      RenderProper(lhs);
      RenderProper(rhs);
      ProperAppend(Render(rhs), [TokenChar(')')]);
      ProperAppend([TokenChar(op)], Render(rhs) + [TokenChar(')')]);
      ProperAppend(Render(lhs), [TokenChar(op)] + (Render(rhs) + [TokenChar(')')]));
      ProperAppend([TokenChar('(')], Render(lhs) + ([TokenChar(op)] + (Render(rhs) + [TokenChar(')')])));
    case Call(callee, args) =>
      RenderArgsProper(args);
      ProperAppend(RenderArgs(args), [TokenChar(')')]);
      ProperAppend([TokenIdentifier(callee), TokenChar('(')], RenderArgs(args) + [TokenChar(')')]);
  }

  lemma {:induction false} RenderArgsProper(args: seq<Expr>)
    requires SpellableArgs(args)
    ensures Proper(RenderArgs(args))
    decreases args
  {
    if args != [] {
      RenderProper(args[0]);
      if |args| > 1 {
        RenderArgsProper(args[1..]);
        ProperAppend([TokenChar(',')], RenderArgs(args[1..]));
        ProperAppend(Render(args[0]), [TokenChar(',')] + RenderArgs(args[1..]));
      }
    }
  }

  /** Printing an expression as text, blanks between the tokens, and then
      lexing and parsing that text gives the expression back. */
  lemma TextRoundTrip(table: map<char, int>, e: Expr)
    requires Punctuation(table) && Printable(table, e) && Spellable(e)
    ensures Expression(Tokens(Text(Render(e))), table) == Parsed(Ok(e), [])
  {
    TokensOfRender(e);
    ExpressionRoundTrip(table, e, []);
    assert Render(e) + [] == Render(e);
  }

  /** The lexer gives back the tokens of a printed expression. */
  lemma TokensOfRender(e: Expr)
    requires Spellable(e)
    ensures Tokens(Text(Render(e))) == Render(e)
  {
    RenderProper(e);
    TokensOfText(Render(e));
  }
}
