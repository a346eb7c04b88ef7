// The parser of main.cpp:56-236 as functions on the tokens still to be read.
//
// `ts` is the remaining token stream: its first element is CurrentToken, and
// past its end the stream reads as TokenEof forever, as GetToken does once
// the input is exhausted.  Every rule returns its result (a node, or the
// diagnostic that LogError would print) together with the tokens left
// after it, on failure as well as on success.

module Grammar {
  import opened Lexical
  import opened Ast

  /** A node, or the diagnostic string of a syntax error (the nullptr returns). */
  datatype Result<T> = Ok(value: T) | Err(message: string)

  datatype Parsed<T> = Parsed(result: Result<T>, rest: seq<Token>)

  const UnknownToken := "unknown token when expecting an expression"
  const ExpectedClose := "expected ')'"
  const ExpectedArgSeparator := "Expected ')' or ',' in argument list"
  const ExpectedFunctionName := "Expected function name in prototype"
  const ExpectedProtoOpen := "Expected '(' in prototype"
  const ExpectedProtoClose := "Expected ')' in prototype"

  /** CurrentToken. */
  function Peek(ts: seq<Token>): Token
  {
    if ts == [] then TokenEof else ts[0]
  }

  /** The stream after GetNextToken. */
  function Advance(ts: seq<Token>): seq<Token>
  {
    if ts == [] then [] else ts[1..]
  }

  /** `rest` is what remains of `ts` after some tokens were read. */
  predicate IsSuffix(rest: seq<Token>, ts: seq<Token>)
  {
    |rest| <= |ts| && rest == ts[|ts| - |rest|..]
  }

  lemma SuffixTransitive(a: seq<Token>, b: seq<Token>, c: seq<Token>)
    requires IsSuffix(a, b) && IsSuffix(b, c)
    ensures IsSuffix(a, c)
  {
    assert c[|c| - |b|..][|b| - |a|..] == c[|c| - |a|..];
  }

  lemma SuffixOfTail(a: seq<Token>, ts: seq<Token>)
    requires ts != [] && IsSuffix(a, ts[1..])
    ensures IsSuffix(a, ts) && |a| < |ts|
  {
    SuffixTransitive(a, ts[1..], ts);
  }

  /** GetNextToken on a stream that is not empty reads one token. */
  lemma AdvanceSuffix(a: seq<Token>, ts: seq<Token>)
    requires a != [] && IsSuffix(a, ts)
    ensures IsSuffix(Advance(a), ts) && |Advance(a)| < |a|
  {
    SuffixOfTail(a[1..], a);
    SuffixTransitive(a[1..], a, ts);
  }

  /** BinopPrecedence[c]: operator[] inserts 0 for a missing key. */
  function Lookup(table: map<char, int>, c: char): (p: int)
    // std::map's operator[] yields a default-constructed 0 for a missing key
    ensures c in table ==> p == table[c]
    ensures c !in table ==> p == 0
  {
    if c in table then table[c] else 0
  }

  /** GetTokenPrecedence (main.cpp:65-72). */
  function Precedence(table: map<char, int>, t: Token): (p: int)
    ensures p == -1 || p >= 1
    ensures p >= 1 <==> t.TokenChar? && IsAscii(t.c) && Lookup(table, t.c) > 0
    ensures p >= 1 ==> p == table[t.c]
  {
    if !t.TokenChar? || !IsAscii(t.c) then -1
    else
      var tokenPrecedence := Lookup(table, t.c);
      if tokenPrecedence <= 0 then -1 else tokenPrecedence
  }

  /** The tokens ParsePrimary accepts. */
  predicate StartsPrimary(t: Token)
  {
    t.TokenIdentifier? || t.TokenNumber? || t == TokenChar('(')
  }

  /** ParseBinOpRHS (main.cpp:74-105): fold operators of precedence at least
      minPrec and their right operands onto lhs, from left to right. */
  function BinOpRhs(ts: seq<Token>, table: map<char, int>, minPrec: int, lhs: Expr): (r: Parsed<Expr>)
    requires minPrec >= 0
    ensures IsSuffix(r.rest, ts)
    // on return, the lookahead does not bind as tightly as minPrec
    ensures r.result.Ok? ==> Precedence(table, Peek(r.rest)) < minPrec
    decreases |ts|, 0
  {
    var tokenPrecedence := Precedence(table, Peek(ts));
    if tokenPrecedence < minPrec then Parsed(Ok(lhs), ts)
    else
      var binaryOperator := ts[0].c;
      var rhs := RightOperand(ts[1..], table, tokenPrecedence);
      SuffixOfTail(rhs.rest, ts);
      match rhs.result
      case Err(m) => Parsed(Err(m), rhs.rest)
      case Ok(operand) =>
        var r := BinOpRhs(rhs.rest, table, minPrec, Binary(binaryOperator, lhs, operand));
        SuffixTransitive(r.rest, rhs.rest, ts);
        r
  }

  /** The right operand of an operator of precedence prec (main.cpp:88-99):
      a primary, which first takes as its own left operand every operator
      after it that binds tighter than prec. */
  function RightOperand(ts: seq<Token>, table: map<char, int>, prec: int): (r: Parsed<Expr>)
    requires prec >= 0
    ensures IsSuffix(r.rest, ts)
    ensures r.result.Ok? ==> |r.rest| < |ts|
    // the operator after the operand does not bind tighter than prec
    ensures r.result.Ok? ==> Precedence(table, Peek(r.rest)) <= prec
    decreases |ts|, 2
  {
    var primary := Primary(ts, table);
    match primary.result
    case Err(m) => Parsed(Err(m), primary.rest)
    case Ok(rhs) =>
      var nextPrecedence := Precedence(table, Peek(primary.rest));
      if prec < nextPrecedence then
        var r := BinOpRhs(primary.rest, table, prec + 1, rhs);
        SuffixTransitive(r.rest, primary.rest, ts);
        r
      else primary
  }

  /** A primary that fails is the failure of the right operand, with the
      primary's diagnostic and the tokens it left (main.cpp:90-91). */
  lemma RightOperandPrimaryFails(ts: seq<Token>, table: map<char, int>, prec: int)
    requires prec >= 0 && Primary(ts, table).result.Err?
    ensures RightOperand(ts, table, prec) == Primary(ts, table)
  {
  }

  /** One round of BinOpRhs once the right operand is read. */
  lemma BinOpRhsRound(ts: seq<Token>, table: map<char, int>, minPrec: int, lhs: Expr, operand: Expr, rest: seq<Token>)
    requires minPrec >= 0 && Precedence(table, Peek(ts)) >= minPrec && ts != []
    requires RightOperand(ts[1..], table, Precedence(table, Peek(ts))) == Parsed(Ok(operand), rest)
    ensures BinOpRhs(ts, table, minPrec, lhs) == BinOpRhs(rest, table, minPrec, Binary(ts[0].c, lhs, operand))
  {
  }

  /** RightOperand once its primary is read. */
  lemma RightOperandAfter(ts: seq<Token>, table: map<char, int>, prec: int, e: Expr, rest: seq<Token>)
    requires prec >= 0 && Primary(ts, table) == Parsed(Ok(e), rest)
    ensures Precedence(table, Peek(rest)) <= prec ==> RightOperand(ts, table, prec) == Parsed(Ok(e), rest)
    ensures Precedence(table, Peek(rest)) > prec ==> RightOperand(ts, table, prec) == BinOpRhs(rest, table, prec + 1, e)
  {
  }

  /** ParseExpression (main.cpp:107-112). */
  function Expression(ts: seq<Token>, table: map<char, int>): (r: Parsed<Expr>)
    ensures IsSuffix(r.rest, ts)
    ensures r.result.Ok? ==> |r.rest| < |ts| && Precedence(table, Peek(r.rest)) < 0
    decreases |ts|, 2
  {
    var primary := Primary(ts, table);
    match primary.result
    case Err(m) => Parsed(Err(m), primary.rest)
    case Ok(lhs) => BinOpRhs(primary.rest, table, 0, lhs)
  }

  /** ParseExpression once its primary is read. */
  lemma ExpressionAfter(ts: seq<Token>, table: map<char, int>, e: Expr, rest: seq<Token>)
    requires Primary(ts, table) == Parsed(Ok(e), rest)
    ensures Expression(ts, table) == BinOpRhs(rest, table, 0, e)
  {
  }

  /** A failing primary is the failure of the whole expression. */
  lemma ExpressionFails(ts: seq<Token>, table: map<char, int>)
    requires Primary(ts, table).result.Err?
    ensures Expression(ts, table) == Primary(ts, table)
  {
  }

  /** A token that cannot start a primary is refused unread, and so is the
      whole expression. */
  lemma ExpressionRefuses(ts: seq<Token>, table: map<char, int>)
    requires !StartsPrimary(Peek(ts))
    ensures Expression(ts, table) == Parsed(Err(UnknownToken), ts)
  {
    ExpressionFails(ts, table);
  }

  /** When the lookahead does not bind as tightly as minPrec, ParseBinOpRHS
      returns lhs unchanged and reads nothing. */
  lemma BinOpRhsStops(ts: seq<Token>, table: map<char, int>, minPrec: int, lhs: Expr)
    requires minPrec >= 0 && Precedence(table, Peek(ts)) < minPrec
    ensures BinOpRhs(ts, table, minPrec, lhs) == Parsed(Ok(lhs), ts)
  {
  }

  /** A failing right operand is the failure of the whole loop. */
  lemma BinOpRhsOperandFails(ts: seq<Token>, table: map<char, int>, minPrec: int, lhs: Expr)
    requires minPrec >= 0 && Precedence(table, Peek(ts)) >= minPrec
    requires RightOperand(ts[1..], table, Precedence(table, Peek(ts))).result.Err?
    ensures BinOpRhs(ts, table, minPrec, lhs) == RightOperand(ts[1..], table, Precedence(table, Peek(ts)))
  {
  }

  /** ParseParenthesesExpression once the inner expression is read and a
      ')' follows it. */
  lemma ParenAround(ts: seq<Token>, table: map<char, int>, e: Expr, end: seq<Token>)
    requires Expression(ts, table) == Parsed(Ok(e), [TokenChar(')')] + end)
    ensures Primary([TokenChar('(')] + ts, table) == Parsed(Ok(e), end)
  {
    assert ([TokenChar('(')] + ts)[1..] == ts;
  }

  /** ParseParenthesesExpression when no ')' follows the inner expression:
      "expected ')'", and the token that is not ')' is left unread. */
  lemma ParenUnclosed(ts: seq<Token>, table: map<char, int>, e: Expr, rest: seq<Token>)
    requires Expression(ts, table) == Parsed(Ok(e), rest) && Peek(rest) != TokenChar(')')
    ensures Primary([TokenChar('(')] + ts, table) == Parsed(Err(ExpectedClose), rest)
  {
    assert ([TokenChar('(')] + ts)[1..] == ts;
  }

  /** ParseParenthesesExpression when the inner expression fails: the same
      diagnostic, and the tokens it left (main.cpp:159-160). */
  lemma ParenInnerFails(ts: seq<Token>, table: map<char, int>)
    requires Expression(ts, table).result.Err?
    ensures Primary([TokenChar('(')] + ts, table) == Expression(ts, table)
  {
    assert ([TokenChar('(')] + ts)[1..] == ts;
  }

  /** ParseNumberExpr (main.cpp:114-118): the literal's value, then the token after it. */
  function NumberExpr(ts: seq<Token>): (r: Parsed<Expr>)
    requires Peek(ts).TokenNumber?
    ensures r.result.Ok? && r.result.value.Number? && r.rest == Advance(ts)
    // the node holds the number the literal spells
    ensures forall n: nat :: ts[0].digits == Numeral(n) ==> r.result.value.value == n
  {
    NumeralValues();
    Parsed(Ok(Number(Value(ts[0].digits))), ts[1..])
  }

  lemma NumeralValues()
    ensures forall n: nat :: Value(Numeral(n)) == n
  {
    forall n: nat
      ensures Value(Numeral(n)) == n
    {
      ValueOfNumeral(n);
    }
  }

  /** ParseIdentifierExpression (main.cpp:120-148): a variable, or a call
      with its parenthesised argument list. */
  function IdentifierExpr(ts: seq<Token>, table: map<char, int>): (r: Parsed<Expr>)
    requires Peek(ts).TokenIdentifier?
    ensures IsSuffix(r.rest, ts) && |r.rest| < |ts|
    decreases |ts|, 0
  {
    var idName := ts[0].text;
    var afterName := ts[1..];
    if Peek(afterName) != TokenChar('(') then Parsed(Ok(Variable(idName)), afterName)
    else
      var afterOpen := afterName[1..];
      if Peek(afterOpen) == TokenChar(')') then Parsed(Ok(Call(idName, [])), Advance(afterOpen))
      else
        var args := Arguments(afterOpen, table, []);
        match args.result
        case Err(m) => Parsed(Err(m), args.rest)
        case Ok(a) => Parsed(Ok(Call(idName, a)), Advance(args.rest))
  }

  /** An identifier that is not followed by '(' is read as a variable node
      that keeps the identifier's text. */
  lemma IdentifierIsVariable(table: map<char, int>, name: string, rest: seq<Token>)
    requires Peek(rest) != TokenChar('(')
    ensures Primary([TokenIdentifier(name)] + rest, table) == Parsed(Ok(Variable(name)), rest)
  {
    assert ([TokenIdentifier(name)] + rest)[1..] == rest;
  }

  /** ParseIdentifierExpression on `callee(`: an empty argument list, or
      the argument loop up to the closing ')'. */
  lemma CallAfter(table: map<char, int>, callee: string, afterOpen: seq<Token>, args: seq<Expr>, end: seq<Token>)
    requires || (args == [] && afterOpen == [TokenChar(')')] + end)
             || (Peek(afterOpen) != TokenChar(')')
                 && Arguments(afterOpen, table, []) == Parsed(Ok(args), [TokenChar(')')] + end))
    ensures Primary([TokenIdentifier(callee), TokenChar('(')] + afterOpen, table) == Parsed(Ok(Call(callee, args)), end)
  {
    var ts := [TokenIdentifier(callee), TokenChar('(')] + afterOpen;
    assert ts[1..][1..] == afterOpen;
  }

  lemma PrefixOfPrefix(r: Result<seq<Expr>>, args: seq<Expr>, args': seq<Expr>)
    requires |args'| > |args| && args'[..|args|] == args
    requires r.Ok? ==> |r.value| > |args'| && r.value[..|args'|] == args'
    ensures r.Ok? ==> |r.value| > |args| && r.value[..|args|] == args
  {
    if r.Ok? {
      assert r.value[..|args|] == r.value[..|args'|][..|args|];
    }
  }

  /** The argument loop of ParseIdentifierExpression (main.cpp:131-141):
      append one argument to `args`, then stop at ')', go on after ',', or fail. */
  function Arguments(ts: seq<Token>, table: map<char, int>, args: seq<Expr>): (r: Parsed<seq<Expr>>)
    ensures IsSuffix(r.rest, ts)
    ensures r.result.Ok? ==> Peek(r.rest) == TokenChar(')') && |r.rest| < |ts|
    // the arguments parsed so far stay in front, in their order
    ensures r.result.Ok? ==> |r.result.value| > |args| && r.result.value[..|args|] == args
    decreases |ts|, 3
  {
    var arg := Expression(ts, table);
    match arg.result
    case Err(m) => Parsed(Err(m), arg.rest)
    case Ok(e) =>
      var args' := args + [e];
      if Peek(arg.rest) == TokenChar(')') then Parsed(Ok(args'), arg.rest)
      else if Peek(arg.rest) != TokenChar(',') then Parsed(Err(ExpectedArgSeparator), arg.rest)
      else
        AdvanceSuffix(arg.rest, ts);
        var r := Arguments(Advance(arg.rest), table, args');
        SuffixTransitive(r.rest, Advance(arg.rest), ts);
        PrefixOfPrefix(r.result, args, args');
        r
  }

  /** An argument expression that fails is the failure of the argument
      loop, with its diagnostic and the tokens it left (main.cpp:134-135). */
  lemma ArgumentFails(ts: seq<Token>, table: map<char, int>, args: seq<Expr>)
    requires Expression(ts, table).result.Err?
    ensures Arguments(ts, table, args)
            == Parsed(Err(Expression(ts, table).result.message), Expression(ts, table).rest)
  {
  }

  /** One round of the argument loop once the argument is read: ')' ends
      the list and ',' goes on to the next argument. */
  lemma ArgumentsAfter(ts: seq<Token>, table: map<char, int>, args: seq<Expr>, e: Expr, rest: seq<Token>)
    requires Expression(ts, table) == Parsed(Ok(e), rest)
    ensures Peek(rest) == TokenChar(')') ==> Arguments(ts, table, args) == Parsed(Ok(args + [e]), rest)
    ensures Peek(rest) == TokenChar(',') ==> Arguments(ts, table, args) == Arguments(Advance(rest), table, args + [e])
    ensures Peek(rest) != TokenChar(')') && Peek(rest) != TokenChar(',') ==>
              Arguments(ts, table, args) == Parsed(Err(ExpectedArgSeparator), rest)
  {
  }

  /** A call whose argument list fails fails with it, and so does the
      whole expression. */
  lemma CallFails(table: map<char, int>, callee: string, afterOpen: seq<Token>, m: string, rest: seq<Token>)
    requires Peek(afterOpen) != TokenChar(')')
    requires Arguments(afterOpen, table, []) == Parsed(Err(m), rest)
    ensures Expression([TokenIdentifier(callee), TokenChar('(')] + afterOpen, table) == Parsed(Err(m), rest)
  {
    var ts := [TokenIdentifier(callee), TokenChar('(')] + afterOpen;
    assert ts[1..][1..] == afterOpen;
    assert Primary(ts, table) == Parsed(Err(m), rest);
    ExpressionFails(ts, table);
  }

  /** ParseParenthesesExpression (main.cpp:156-165). */
  function ParenExpr(ts: seq<Token>, table: map<char, int>): (r: Parsed<Expr>)
    requires Peek(ts) == TokenChar('(')
    ensures IsSuffix(r.rest, ts) && |r.rest| < |ts|
    decreases |ts|, 0
  {
    var inner := Expression(ts[1..], table);
    SuffixOfTail(inner.rest, ts);
    match inner.result
    case Err(m) => Parsed(Err(m), inner.rest)
    case Ok(e) =>
      if Peek(inner.rest) != TokenChar(')') then Parsed(Err(ExpectedClose), inner.rest)
      else
        AdvanceSuffix(inner.rest, ts);
        Parsed(Ok(e), Advance(inner.rest))
  }

  /** ParsePrimary (main.cpp:167-178). */
  function Primary(ts: seq<Token>, table: map<char, int>): (r: Parsed<Expr>)
    ensures IsSuffix(r.rest, ts)
    // a primary always reads its first token; any other token is refused unread
    ensures StartsPrimary(Peek(ts)) ==> |r.rest| < |ts|
    ensures !StartsPrimary(Peek(ts)) ==> r == Parsed(Err(UnknownToken), ts)
    decreases |ts|, 1
  {
    match Peek(ts)
    case TokenIdentifier(_) => IdentifierExpr(ts, table)
    case TokenNumber(_) => NumberExpr(ts)
    case TokenChar(c) =>
      if c == '(' then ParenExpr(ts, table) else Parsed(Err(UnknownToken), ts)
    case _ => Parsed(Err(UnknownToken), ts)
  }

  /** ParseTopLevelExpr (main.cpp:180-187): an expression wrapped in a
      function with the empty name and no parameters. */
  function TopLevelExpr(ts: seq<Token>, table: map<char, int>): (r: Parsed<FunctionDef>)
    ensures IsSuffix(r.rest, ts)
    ensures r.result.Ok? <==> Expression(ts, table).result.Ok?
    ensures r.result.Ok? ==>
              r.result.value.proto == Prototype("", []) &&
              Parsed(Ok(r.result.value.body), r.rest) == Expression(ts, table)
  {
    var e := Expression(ts, table);
    match e.result
    case Err(m) => Parsed(Err(m), e.rest)
    case Ok(body) => Parsed(Ok(FunctionDef(Prototype("", []), body)), e.rest)
  }

  /** The parameter loop of ParsePrototype (main.cpp:208-209): the names of
      the longest run of identifier tokens at the front of ts. */
  function Parameters(ts: seq<Token>): (names: seq<string>)
    ensures |names| <= |ts|
    ensures forall i :: 0 <= i < |names| ==> ts[i] == TokenIdentifier(names[i])
    ensures !Peek(ts[|names|..]).TokenIdentifier?
  {
    if Peek(ts).TokenIdentifier? then [ts[0].text] + Parameters(ts[1..]) else []
  }

  /** One more round of the parameter loop: the next identifier joins the names. */
  lemma ParametersStep(ts: seq<Token>, names: seq<string>)
    requires |names| < |ts| && ts[|names|].TokenIdentifier?
    requires Parameters(ts) == names + Parameters(ts[|names|..])
    ensures Parameters(ts) == (names + [ts[|names|].text]) + Parameters(ts[|names| + 1..])
  {
    var here := ts[|names|..];
    assert here[1..] == ts[|names| + 1..];
    ParametersCons(here);
    AppendAssociative(names, [ts[|names|].text], Parameters(ts[|names| + 1..]));
  }

  /** One unfolding of Parameters on an identifier. */
  lemma ParametersCons(ts: seq<Token>)
    requires ts != [] && ts[0].TokenIdentifier?
    ensures Parameters(ts) == [ts[0].text] + Parameters(ts[1..])
  {
  }

  /** ParsePrototype (main.cpp:199-217). */
  function ProtoDecl(ts: seq<Token>): (r: Parsed<Prototype>)
    ensures IsSuffix(r.rest, ts)
    ensures r.result.Ok? ==> |r.rest| < |ts|
  {
    if !Peek(ts).TokenIdentifier? then Parsed(Err(ExpectedFunctionName), ts)
    else
      var functionName := ts[0].text;
      var afterName := ts[1..];
      if Peek(afterName) != TokenChar('(') then Parsed(Err(ExpectedProtoOpen), afterName)
      else
        var afterOpen := afterName[1..];
        var argNames := Parameters(afterOpen);
        var afterParams := afterOpen[|argNames|..];
        if Peek(afterParams) != TokenChar(')') then Parsed(Err(ExpectedProtoClose), afterParams)
        else Parsed(Ok(Prototype(functionName, argNames)), afterParams[1..])
  }

  /** ParseDefinition (main.cpp:219-227), entered on the `def` keyword. */
  function Definition(ts: seq<Token>, table: map<char, int>): (r: Parsed<FunctionDef>)
    requires Peek(ts) == TokenDef
    ensures IsSuffix(r.rest, ts) && |r.rest| < |ts|
  {
    var proto := ProtoDecl(ts[1..]);
    SuffixOfTail(proto.rest, ts);
    match proto.result
    case Err(m) => Parsed(Err(m), proto.rest)
    case Ok(p) =>
      var body := Expression(proto.rest, table);
      SuffixTransitive(body.rest, proto.rest, ts);
      match body.result
      case Err(m) => Parsed(Err(m), body.rest)
      case Ok(e) => Parsed(Ok(FunctionDef(p, e)), body.rest)
  }

  /** ParseDefinition succeeds once its prototype and its body do. */
  lemma DefinitionAfter(ts: seq<Token>, table: map<char, int>, p: Prototype, rest: seq<Token>, e: Expr, end: seq<Token>)
    requires Peek(ts) == TokenDef
    requires ProtoDecl(ts[1..]) == Parsed(Ok(p), rest)
    requires Expression(rest, table) == Parsed(Ok(e), end)
    ensures Definition(ts, table) == Parsed(Ok(FunctionDef(p, e)), end)
  {
  }

  /** ParseDefinition fails exactly when its prototype or its body does,
      with that diagnostic and the tokens left after it (main.cpp:222-226). */
  lemma DefinitionFails(ts: seq<Token>, table: map<char, int>)
    requires Peek(ts) == TokenDef
    ensures ProtoDecl(ts[1..]).result.Err? ==>
              Definition(ts, table) == Parsed(Err(ProtoDecl(ts[1..]).result.message), ProtoDecl(ts[1..]).rest)
    ensures ProtoDecl(ts[1..]).result.Ok? && Expression(ProtoDecl(ts[1..]).rest, table).result.Err? ==>
              Definition(ts, table)
              == Parsed(Err(Expression(ProtoDecl(ts[1..]).rest, table).result.message),
                        Expression(ProtoDecl(ts[1..]).rest, table).rest)
    ensures Definition(ts, table).result.Ok? ==>
              ProtoDecl(ts[1..]).result.Ok? && Expression(ProtoDecl(ts[1..]).rest, table).result.Ok?
  {
  }

  /** What the read loop does with one top-level construct; the source
      prints a line for it, the model records it. */
  datatype Handled =
    | ParsedDefinition(def: FunctionDef)
    | ParsedTopLevelExpr(def: FunctionDef)
    | SkippedAfterError(message: string)

  /** HandleDefinition and HandleTopLevelExpression (main.cpp:189-197,
      229-236): after a failure, one more token is skipped. */
  function Recover(r: Parsed<FunctionDef>, definition: bool): (h: (Handled, seq<Token>))
    ensures r.result.Ok? ==> h.1 == r.rest
    ensures r.result.Err? ==> h == (SkippedAfterError(r.result.message), Advance(r.rest))
    ensures r.result.Ok? ==> h.0 == (if definition then ParsedDefinition(r.result.value) else ParsedTopLevelExpr(r.result.value))
  {
    match r.result
    case Ok(f) => (if definition then ParsedDefinition(f) else ParsedTopLevelExpr(f), r.rest)
    case Err(m) => (SkippedAfterError(m), Advance(r.rest))
  }

  /** Every top-level construct, failed or not, reads at least one token. */
  lemma RecoverProgresses(r: Parsed<FunctionDef>, definition: bool, ts: seq<Token>)
    requires ts != [] && IsSuffix(r.rest, ts)
    requires r.result.Ok? ==> |r.rest| < |ts|
    ensures |Recover(r, definition).1| < |ts|
  {
    if |r.rest| == |ts| {
      assert r.rest == ts;
    }
  }

  /** MainLoop (main.cpp:238-255): what is handled, in order, until TokenEof;
      top-level ';' tokens are skipped. */
  function Session(ts: seq<Token>, table: map<char, int>): (hs: seq<Handled>)
    // every construct handled reads at least one token
    ensures |hs| <= |ts|
    decreases |ts|
  {
    match Peek(ts)
    case TokenEof => []
    case TokenChar(';') => Session(ts[1..], table)
    case TokenDef =>
      var (h, rest) := Recover(Definition(ts, table), true);
      [h] + Session(rest, table)
    case _ =>
      var top := TopLevelExpr(ts, table);
      RecoverProgresses(top, false, ts);
      var (h, rest) := Recover(top, false);
      [h] + Session(rest, table)
  }

  /** MainLoop returns at TokenEof with nothing more recorded (main.cpp:242-243). */
  lemma SessionEnds(ts: seq<Token>, table: map<char, int>)
    requires Peek(ts) == TokenEof
    ensures Session(ts, table) == []
  {
  }

  /** MainLoop ignores a top-level ';' (main.cpp:244-246). */
  lemma SessionSemicolon(ts: seq<Token>, table: map<char, int>)
    requires Peek(ts) == TokenChar(';')
    ensures Session(ts, table) == Session(ts[1..], table)
  {
  }

  /** One round of MainLoop: a construct handled, then the rest of the session. */
  lemma SessionStep(ts: seq<Token>, table: map<char, int>, h: Handled, rest: seq<Token>)
    requires Peek(ts) != TokenEof && Peek(ts) != TokenChar(';')
    requires Peek(ts) == TokenDef ==> (h, rest) == Recover(Definition(ts, table), true)
    requires Peek(ts) != TokenDef ==> (h, rest) == Recover(TopLevelExpr(ts, table), false)
    ensures |rest| < |ts|
    ensures Session(ts, table) == [h] + Session(rest, table)
  {
    if Peek(ts) != TokenDef {
      RecoverProgresses(TopLevelExpr(ts, table), false, ts);
    }
  }
}
