// Worked instances of the general results.  Each holds for every precedence
// table that ranks the operators it uses as stated; UsualTable shows that the
// customary table, '<' loosest, then '+' and '-', then '*', is one of them.

module Examples {
  import opened Lexical
  import opened Ast
  import opened Grammar
  import opened Climbing
  import opened Printing
  import opened Prototypes

  const Table: map<char, int> := map['<' := 10, '+' := 20, '-' := 20, '*' := 40]

  lemma UsualTable()
    ensures 1 <= Prec(Table, '<') < Prec(Table, '+') < Prec(Table, '*')
    ensures Prec(Table, '-') == Prec(Table, '+')
    ensures Punctuation(Table)
  {
  }

  function Id(name: string): Token
  {
    TokenIdentifier(name)
  }

  /** `a+b*c` reads as `a+(b*c)`: the tighter '*' is absorbed into the
      right operand of '+'. */
  lemma SumOfProduct(table: map<char, int>)
    requires 1 <= Prec(table, '+') < Prec(table, '*')
    ensures Expression([Id("a"), TokenChar('+'), Id("b"), TokenChar('*'), Id("c")], table)
            == Parsed(Ok(Binary('+', Variable("a"), Binary('*', Variable("b"), Variable("c")))), [])
  {
    var links := [Link('+', Variable("b")), Link('*', Variable("c"))];
    VariableChain("a", '+', "b", '*', "c");
    ExpressionOnChain(table, Variable("a"), links, []);
    TwoOperators(table, Variable("a"), '+', Variable("b"), '*', Variable("c"));
  }

  /** `a*b+c` reads as `(a*b)+c`. */
  lemma ProductThenSum(table: map<char, int>)
    requires 1 <= Prec(table, '+') < Prec(table, '*')
    ensures Expression([Id("a"), TokenChar('*'), Id("b"), TokenChar('+'), Id("c")], table)
            == Parsed(Ok(Binary('+', Binary('*', Variable("a"), Variable("b")), Variable("c"))), [])
  {
    var links := [Link('*', Variable("b")), Link('+', Variable("c"))];
    VariableChain("a", '*', "b", '+', "c");
    ExpressionOnChain(table, Variable("a"), links, []);
    TwoOperators(table, Variable("a"), '*', Variable("b"), '+', Variable("c"));
  }

  /** `a-b-c` reads as `(a-b)-c`: operators of one precedence fold left. */
  lemma Subtractions(table: map<char, int>)
    requires Prec(table, '-') >= 1
    ensures Expression([Id("a"), TokenChar('-'), Id("b"), TokenChar('-'), Id("c")], table)
            == Parsed(Ok(Binary('-', Binary('-', Variable("a"), Variable("b")), Variable("c"))), [])
  {
    var links := [Link('-', Variable("b")), Link('-', Variable("c"))];
    VariableChain("a", '-', "b", '-', "c");
    ExpressionOnChain(table, Variable("a"), links, []);
    TwoOperators(table, Variable("a"), '-', Variable("b"), '-', Variable("c"));
  }

  /** The tokens of two links. */
  lemma ChainOfTwo(op1: char, b: Expr, op2: char, c: Expr)
    ensures Chain([Link(op1, b), Link(op2, c)]) == [TokenChar(op1)] + (Render(b) + ([TokenChar(op2)] + (Render(c) + [])))
  {
    var links := [Link(op1, b), Link(op2, c)];
    assert links[1..] == [Link(op2, c)] && links[1..][1..] == [];
    assert Chain(links[1..]) == [TokenChar(op2)] + (Render(c) + []);
  }

  /** The tokens of a chain of three variables. */
  lemma VariableChain(a: string, op1: char, b: string, op2: char, c: string)
    ensures [Id(a), TokenChar(op1), Id(b), TokenChar(op2), Id(c)]
            == Render(Variable(a)) + (Chain([Link(op1, Variable(b)), Link(op2, Variable(c))]) + [])
  {
    ChainOfTwo(op1, Variable(b), op2, Variable(c));
  }

  /** `1+2*3`: numbers are operands like variables. */
  lemma NumbersSumOfProduct(table: map<char, int>)
    requires 1 <= Prec(table, '+') < Prec(table, '*')
    ensures Expression([TokenNumber("1"), TokenChar('+'), TokenNumber("2"), TokenChar('*'), TokenNumber("3")], table)
            == Parsed(Ok(Binary('+', Number(1), Binary('*', Number(2), Number(3)))), [])
  {
    var links := [Link('+', Number(2)), Link('*', Number(3))];
    assert Numeral(1) == "1" && Numeral(2) == "2" && Numeral(3) == "3";
    ChainOfTwo('+', Number(2), '*', Number(3));
    assert [TokenNumber("1"), TokenChar('+'), TokenNumber("2"), TokenChar('*'), TokenNumber("3")]
           == Render(Number(1)) + (Chain(links) + []);
    ExpressionOnChain(table, Number(1), links, []);
    TwoOperators(table, Number(1), '+', Number(2), '*', Number(3));
  }

  /** `f(x)*y+z` reads as `(f(x)*y)+z`: a call is an operand like a variable. */
  lemma CallTimesThenSum(table: map<char, int>, f: string, x: string, y: string, z: string)
    requires Punctuation(table) && 1 <= Prec(table, '+') < Prec(table, '*')
    ensures Expression([Id(f), TokenChar('('), Id(x), TokenChar(')'), TokenChar('*'), Id(y), TokenChar('+'), Id(z)], table)
            == Parsed(Ok(Binary('+', Binary('*', Call(f, [Variable(x)]), Variable(y)), Variable(z))), [])
  {
    var call := Call(f, [Variable(x)]);
    var links := [Link('*', Variable(y)), Link('+', Variable(z))];
    assert RenderArgs([Variable(x)]) == [Id(x)];
    assert Render(call) == [Id(f), TokenChar('('), Id(x), TokenChar(')')];
    assert [Variable(x)][1..] == [] && PrintableArgs(table, [Variable(x)][1..]);
    assert PrintableArgs(table, [Variable(x)]);
    ChainOfTwo('*', Variable(y), '+', Variable(z));
    assert [Id(f), TokenChar('('), Id(x), TokenChar(')'), TokenChar('*'), Id(y), TokenChar('+'), Id(z)]
           == Render(call) + (Chain(links) + []);
    ExpressionOnChain(table, call, links, []);
    TwoOperators(table, call, '*', Variable(y), '+', Variable(z));
  }

  /** `(a+b)*c`: the parentheses win over precedence. */
  lemma ParenthesesFirst(table: map<char, int>, a: string, b: string, c: string)
    requires Prec(table, '+') >= 1 && Prec(table, '*') >= 1 && Punctuation(table)
    ensures Expression([TokenChar('('), Id(a), TokenChar('+'), Id(b), TokenChar(')'), TokenChar('*'), Id(c)], table)
            == Parsed(Ok(Binary('*', Binary('+', Variable(a), Variable(b)), Variable(c))), [])
  {
    var sum := Binary('+', Variable(a), Variable(b));
    var after := [TokenChar('*'), Id(c)];
    var ts := [TokenChar('('), Id(a), TokenChar('+'), Id(b), TokenChar(')'), TokenChar('*'), Id(c)];
    ParenthesizedSum(table, a, b, after);
    assert ts == [TokenChar('('), Id(a), TokenChar('+'), Id(b), TokenChar(')')] + after;
    ExpressionAfter(ts, table, sum, after);
    TimesVariable(table, sum, c);
  }

  /** `(a+b)` as a primary expression. */
  lemma ParenthesizedSum(table: map<char, int>, a: string, b: string, rest: seq<Token>)
    requires Prec(table, '+') >= 1 && Punctuation(table) && Peek(rest) != TokenChar('(')
    ensures Primary([TokenChar('('), Id(a), TokenChar('+'), Id(b), TokenChar(')')] + rest, table)
            == Parsed(Ok(Binary('+', Variable(a), Variable(b))), rest)
  {
    var sum := Binary('+', Variable(a), Variable(b));
    assert Render(sum) == [TokenChar('('), Id(a), TokenChar('+'), Id(b), TokenChar(')')];
    PrimaryRoundTrip(table, sum, rest);
  }

  /** `* c` after any left operand. */
  lemma TimesVariable(table: map<char, int>, lhs: Expr, c: string)
    requires Prec(table, '*') >= 1
    ensures BinOpRhs([TokenChar('*'), Id(c)], table, 0, lhs) == Parsed(Ok(Binary('*', lhs, Variable(c))), [])
  {
    var links := [Link('*', Variable(c))];
    assert [TokenChar('*'), Id(c)] == Chain(links) + [];
    WholeChain(table, links, [], lhs);
    SingleLink(table, lhs, '*', Variable(c));
  }

  /** One operator and its operand make one binary node. */
  lemma SingleLink(table: map<char, int>, lhs: Expr, op: char, c: Expr)
    ensures Tree(table, lhs, [Link(op, c)]) == Binary(op, lhs, c)
  {
    var links := [Link(op, c)];
    TreeRoot(table, lhs, links, 0);
    assert links[..0] == [] && links[1..] == [];
  }

  /** `foo(1, 2)`: a call keeps its arguments in order. */
  lemma CallWithArguments(table: map<char, int>)
    requires Punctuation(table)
    ensures Expression([Id("foo"), TokenChar('('), TokenNumber("1"), TokenChar(','), TokenNumber("2"), TokenChar(')')], table)
            == Parsed(Ok(Call("foo", [Number(1), Number(2)])), [])
  {
    var call := Call("foo", [Number(1), Number(2)]);
    assert Numeral(1) == "1" && Numeral(2) == "2";
    assert RenderArgs([Number(2)]) == [TokenNumber("2")];
    assert [Number(1), Number(2)][1..] == [Number(2)];
    assert Render(call) + [] == [Id("foo"), TokenChar('('), TokenNumber("1"), TokenChar(','), TokenNumber("2"), TokenChar(')')];
    ExpressionRoundTrip(table, call, []);
  }

  /** `f(a b)`: an argument followed by neither ',' nor ')'. */
  lemma MissingSeparator(table: map<char, int>, f: string, a: string, b: string)
    ensures Expression([Id(f), TokenChar('('), Id(a), Id(b), TokenChar(')')], table)
            == Parsed(Err(ExpectedArgSeparator), [Id(b), TokenChar(')')])
  {
    var afterOpen := [Id(a), Id(b), TokenChar(')')];
    assert [Id(f), TokenChar('('), Id(a), Id(b), TokenChar(')')] == [Id(f), TokenChar('(')] + afterOpen;
    assert afterOpen == [Id(a)] + [Id(b), TokenChar(')')];
    VariableThenVariable(table, a, [Id(b), TokenChar(')')]);
    CallFails(table, f, afterOpen, ExpectedArgSeparator, [Id(b), TokenChar(')')]);
  }

  /** An argument `a` followed by a token that neither continues it nor
      separates or closes the list. */
  lemma VariableThenVariable(table: map<char, int>, a: string, rest: seq<Token>)
    requires Precedence(table, Peek(rest)) < 0
    requires Peek(rest) != TokenChar('(') && Peek(rest) != TokenChar(')') && Peek(rest) != TokenChar(',')
    ensures Arguments([Id(a)] + rest, table, []) == Parsed(Err(ExpectedArgSeparator), rest)
  {
    IdentifierIsVariable(table, a, rest);
    ExpressionAfter([Id(a)] + rest, table, Variable(a), rest);
    BinOpRhsStops(rest, table, 0, Variable(a));
    ArgumentsAfter([Id(a)] + rest, table, [], Variable(a), rest);
  }

  /** `)` cannot start an expression, and nothing is read, whatever the table. */
  lemma UnknownStart(table: map<char, int>)
    ensures Expression([TokenChar(')')], table) == Parsed(Err(UnknownToken), [TokenChar(')')])
  {
    ExpressionRefuses([TokenChar(')')], table);
  }

  /** `def foo(`: the prototype is not closed. */
  lemma UnclosedPrototype(table: map<char, int>)
    ensures Definition([TokenDef, Id("foo"), TokenChar('(')], table) == Parsed(Err(ExpectedProtoClose), [])
  {
    var ts := [TokenDef, Id("foo"), TokenChar('(')];
    assert ts[1..][1..][1..] == [];
  }

  /** `def f(a b) a+b`. */
  lemma TwoParameterDefinition(table: map<char, int>, f: string, a: string, b: string)
    requires Prec(table, '+') >= 1
    ensures Definition([TokenDef, Id(f), TokenChar('('), Id(a), Id(b), TokenChar(')'),
                        Id(a), TokenChar('+'), Id(b)], table)
            == Parsed(Ok(FunctionDef(Prototype(f, [a, b]), Binary('+', Variable(a), Variable(b)))), [])
  {
    var body := [Id(a), TokenChar('+'), Id(b)];
    var ts := [TokenDef, Id(f), TokenChar('('), Id(a), Id(b), TokenChar(')'), Id(a), TokenChar('+'), Id(b)];
    TwoParameters(f, a, b, body);
    assert ts[1..] == [Id(f), TokenChar('('), Id(a), Id(b), TokenChar(')')] + body;
    SumOfVariables(table, a, b);
    DefinitionAfter(ts, table, Prototype(f, [a, b]), body, Binary('+', Variable(a), Variable(b)), []);
  }

  /** `a+b` as a whole expression. */
  lemma SumOfVariables(table: map<char, int>, a: string, b: string)
    requires Prec(table, '+') >= 1
    ensures Expression([Id(a), TokenChar('+'), Id(b)], table) == Parsed(Ok(Binary('+', Variable(a), Variable(b))), [])
  {
    var links := [Link('+', Variable(b))];
    assert [Id(a), TokenChar('+'), Id(b)] == Render(Variable(a)) + (Chain(links) + []);
    ExpressionOnChain(table, Variable(a), links, []);
    SingleLink(table, Variable(a), '+', Variable(b));
  }

  /** `f(a b)`, whatever follows it. */
  lemma TwoParameters(f: string, a: string, b: string, rest: seq<Token>)
    ensures ProtoDecl([Id(f), TokenChar('('), Id(a), Id(b), TokenChar(')')] + rest) == Parsed(Ok(Prototype(f, [a, b])), rest)
  {
    assert Names([b]) == [Id(b)];
    assert Names([a, b]) == [Id(a), Id(b)];
    assert ProtoTokens(Prototype(f, [a, b])) == [Id(f), TokenChar('('), Id(a), Id(b), TokenChar(')')];
    ProtoDeclRoundTrip(Prototype(f, [a, b]), rest);
  }

  /** The read loop: an error skips one more token, top-level ';' is ignored,
      and an expression is wrapped in the anonymous prototype. */
  lemma SessionWithRecovery(table: map<char, int>, x: string)
    ensures Session([TokenChar(')'), TokenChar(';'), Id(x)], table)
            == [SkippedAfterError(UnknownToken), ParsedTopLevelExpr(FunctionDef(Prototype("", []), Variable(x)))]
  {
    var ts := [TokenChar(')'), TokenChar(';'), Id(x)];
    ExpressionRefuses(ts, table);
    SessionStep(ts, table, SkippedAfterError(UnknownToken), ts[1..]);
    SemicolonThenVariable(table, x);
  }

  /** `; x`: the ';' is skipped and `x` is a top-level expression. */
  lemma SemicolonThenVariable(table: map<char, int>, x: string)
    ensures Session([TokenChar(';'), Id(x)], table) == [ParsedTopLevelExpr(FunctionDef(Prototype("", []), Variable(x)))]
  {
    assert [TokenChar(';'), Id(x)][1..] == [Id(x)];
    SessionOfVariable(table, x);
  }

  /** `x` alone: one anonymous function returning x. */
  lemma SessionOfVariable(table: map<char, int>, x: string)
    ensures Session([Id(x)], table) == [ParsedTopLevelExpr(FunctionDef(Prototype("", []), Variable(x)))]
  {
    var last := [Id(x)];
    IdentifierIsVariable(table, x, []);
    assert last == [Id(x)] + [];
    ExpressionAfter(last, table, Variable(x), []);
    BinOpRhsStops([], table, 0, Variable(x));
    SessionStep(last, table, ParsedTopLevelExpr(FunctionDef(Prototype("", []), Variable(x))), []);
    assert Session([], table) == [];
  }
}
