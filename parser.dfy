// The parser of main.cpp:56-255 as an object: CurrentToken and
// BinopPrecedence become fields, and GetNextToken pulls the next token from
// the lexer.  Every method is proved to do what the matching function of
// module Grammar says, on the tokens the lexer still has to deliver.

module Parsing {
  import opened Lexical
  import opened Ast
  import opened Grammar
  import opened Lexing

  class Parser {
    /** Where GetNextToken takes its tokens from. */
    const lexer: Lexer
    /** BinopPrecedence: operator character to precedence. */
    const binopPrecedence: map<char, int>
    /** CurrentToken: the one token of lookahead. */
    var currentToken: Token

    ghost predicate Valid()
      reads this, lexer
    {
      lexer.Valid() && (currentToken == TokenEof ==> Tokens(lexer.Pending()) == [])
    }

    /** The token stream from CurrentToken on, up to the end of the input. */
    ghost function Remaining(): (ts: seq<Token>)
      reads this, lexer
      requires Valid()
      ensures Peek(ts) == currentToken
    {
      if currentToken == TokenEof then [] else [currentToken] + Tokens(lexer.Pending())
    }

    /** A parser over the given characters.  CurrentToken is a global int,
        so it starts out as 0, the character '\0', until the first
        GetNextToken call replaces it with the first token of the input. */
    constructor (input: string, binopPrecedence: map<char, int>)
      ensures Valid() && fresh(lexer)
      ensures this.binopPrecedence == binopPrecedence
      ensures Remaining() == [TokenChar('\0')] + Tokens(input)
    {
      lexer := new Lexer(input);
      this.binopPrecedence := binopPrecedence;
      currentToken := TokenChar('\0');
      new;
      assert Remaining() == [currentToken] + Tokens([' '] + input);
      TokensAfterBlank(input);
    }

    /** GetNextToken (main.cpp:58-61). */
    method GetNextToken() returns (t: Token)
      requires Valid()
      modifies this, lexer
      ensures Valid() && t == currentToken
      ensures Remaining() == Advance(old(Remaining()))
    {
      TokensStep(lexer.Pending());
      currentToken := lexer.GetToken();
      t := currentToken;
    }

    /** GetTokenPrecedence (main.cpp:65-72). */
    method GetTokenPrecedence() returns (p: int)
      requires Valid()
      ensures p == Precedence(binopPrecedence, Peek(Remaining()))
    {
      if !currentToken.TokenChar? || !IsAscii(currentToken.c) {
        return -1;
      }
      var tokenPrecedence := if currentToken.c in binopPrecedence then binopPrecedence[currentToken.c] else 0;
      if tokenPrecedence <= 0 {
        return -1;
      }
      return tokenPrecedence;
    }

    /** ParseBinOpRHS (main.cpp:74-105). */
    method ParseBinOpRHS(expressionPrecedence: int, lhs: Expr) returns (r: Result<Expr>)
      requires Valid() && expressionPrecedence >= 0
      modifies this, lexer
      ensures Valid()
      ensures Parsed(r, Remaining()) == BinOpRhs(old(Remaining()), binopPrecedence, expressionPrecedence, lhs)
      decreases |Remaining()|, 0
    {
      var left := lhs;
      while true
        invariant Valid()
        invariant |Remaining()| <= |old(Remaining())|
        invariant BinOpRhs(Remaining(), binopPrecedence, expressionPrecedence, left)
               == BinOpRhs(old(Remaining()), binopPrecedence, expressionPrecedence, lhs)
        decreases |Remaining()|
      {
        var tokenPrecedence := GetTokenPrecedence();
        if tokenPrecedence < expressionPrecedence {
          return Ok(left);
        }
        var binaryOperator := currentToken.c;
        var _ := GetNextToken();
        var rhs := ParseRightOperand(tokenPrecedence);
        if rhs.Err? {
          return rhs;
        }
        left := Binary(binaryOperator, left, rhs.value);
      }
    }

    /** The right operand in ParseBinOpRHS's loop (main.cpp:88-99): ParsePrimary,
        then a recursive ParseBinOpRHS when the next operator binds tighter. */
    method ParseRightOperand(tokenPrecedence: int) returns (rhs: Result<Expr>)
      requires Valid() && tokenPrecedence >= 0
      modifies this, lexer
      ensures Valid()
      ensures Parsed(rhs, Remaining()) == RightOperand(old(Remaining()), binopPrecedence, tokenPrecedence)
      decreases |Remaining()|, 2
    {
      ghost var start := Remaining();
      rhs := ParsePrimary();
      if rhs.Err? {
        return;
      }
      ghost var afterPrimary := Remaining();
      ghost var operand := rhs.value;
      var nextPrecedence := GetTokenPrecedence();
      if tokenPrecedence < nextPrecedence {
        rhs := ParseBinOpRHS(tokenPrecedence + 1, rhs.value);
        assert RightOperand(start, binopPrecedence, tokenPrecedence)
            == BinOpRhs(afterPrimary, binopPrecedence, tokenPrecedence + 1, operand);
      }
    }

    /** ParseExpression (main.cpp:107-112). */
    method ParseExpression() returns (r: Result<Expr>)
      requires Valid()
      modifies this, lexer
      ensures Valid()
      ensures Parsed(r, Remaining()) == Expression(old(Remaining()), binopPrecedence)
      decreases |Remaining()|, 2
    {
      var lhs := ParsePrimary();
      if lhs.Err? {
        return lhs;
      }
      r := ParseBinOpRHS(0, lhs.value);
    }

    /** ParseNumberExpr (main.cpp:114-118; ParseNumberExpression, 150-154, is the same). */
    method ParseNumberExpr() returns (r: Result<Expr>)
      requires Valid() && currentToken.TokenNumber?
      modifies this, lexer
      ensures Valid()
      ensures Parsed(r, Remaining()) == NumberExpr(old(Remaining()))
    {
      r := Ok(Number(Value(currentToken.digits)));
      var _ := GetNextToken();
    }

    /** ParseIdentifierExpression (main.cpp:120-148). */
    method ParseIdentifierExpression() returns (r: Result<Expr>)
      requires Valid() && currentToken.TokenIdentifier?
      modifies this, lexer
      ensures Valid()
      ensures Parsed(r, Remaining()) == IdentifierExpr(old(Remaining()), binopPrecedence)
      decreases |Remaining()|, 0
    {
      var idName := currentToken.text;
      var _ := GetNextToken();
      if currentToken != TokenChar('(') {
        return Ok(Variable(idName));
      }
      var _ := GetNextToken();
      var args: seq<Expr> := [];
      if currentToken != TokenChar(')') {
        ghost var afterOpen := Remaining();
        while true
          invariant Valid()
          invariant |Remaining()| < |old(Remaining())|
          invariant Arguments(Remaining(), binopPrecedence, args) == Arguments(afterOpen, binopPrecedence, [])
          decreases |Remaining()|
        {
          var arg := ParseExpression();
          if arg.Err? {
            return Err(arg.message);
          }
          args := args + [arg.value];
          if currentToken == TokenChar(')') {
            break;
          }
          if currentToken != TokenChar(',') {
            return Err(ExpectedArgSeparator);
          }
          var _ := GetNextToken();
        }
      }
      var _ := GetNextToken();
      return Ok(Call(idName, args));
    }

    /** ParseParenthesesExpression (main.cpp:156-165). */
    method ParseParenthesesExpression() returns (r: Result<Expr>)
      requires Valid() && currentToken == TokenChar('(')
      modifies this, lexer
      ensures Valid()
      ensures Parsed(r, Remaining()) == ParenExpr(old(Remaining()), binopPrecedence)
      decreases |Remaining()|, 0
    {
      var _ := GetNextToken();
      var value := ParseExpression();
      if value.Err? {
        return value;
      }
      if currentToken != TokenChar(')') {
        return Err(ExpectedClose);
      }
      var _ := GetNextToken();
      return value;
    }

    /** ParsePrimary (main.cpp:167-178). */
    method ParsePrimary() returns (r: Result<Expr>)
      requires Valid()
      modifies this, lexer
      ensures Valid()
      ensures Parsed(r, Remaining()) == Primary(old(Remaining()), binopPrecedence)
      decreases |Remaining()|, 1
    {
      match currentToken
      case TokenIdentifier(_) =>
        r := ParseIdentifierExpression();
      case TokenNumber(_) =>
        r := ParseNumberExpr();
      case TokenChar(c) =>
        if c == '(' {
          r := ParseParenthesesExpression();
        } else {
          r := Err(UnknownToken);
        }
      case _ =>
        r := Err(UnknownToken);
    }

    /** ParseTopLevelExpr (main.cpp:180-187). */
    method ParseTopLevelExpr() returns (r: Result<FunctionDef>)
      requires Valid()
      modifies this, lexer
      ensures Valid()
      ensures Parsed(r, Remaining()) == TopLevelExpr(old(Remaining()), binopPrecedence)
    {
      var e := ParseExpression();
      if e.Err? {
        return Err(e.message);
      }
      var proto := Prototype("", []);
      return Ok(FunctionDef(proto, e.value));
    }

    /** ParsePrototype (main.cpp:199-217). */
    method ParsePrototype() returns (r: Result<Prototype>)
      requires Valid()
      modifies this, lexer
      ensures Valid()
      ensures Parsed(r, Remaining()) == ProtoDecl(old(Remaining()))
    {
      ghost var start := Remaining();
      if !currentToken.TokenIdentifier? {
        return Err(ExpectedFunctionName);
      }
      var functionName := currentToken.text;
      var _ := GetNextToken();
      if currentToken != TokenChar('(') {
        return Err(ExpectedProtoOpen);
      }
      var _ := GetNextToken();
      ghost var afterOpen := Remaining();
      assert afterOpen == start[1..][1..];
      var argNames := ParseParameters();
      if currentToken != TokenChar(')') {
        return Err(ExpectedProtoClose);
      }
      var _ := GetNextToken();
      return Ok(Prototype(functionName, argNames));
    }

    /** The parameter loop of ParsePrototype (main.cpp:208-209): the
        identifiers up to the first other token. */
    method ParseParameters() returns (argNames: seq<string>)
      requires Valid()
      modifies this, lexer
      ensures Valid()
      ensures argNames == Parameters(old(Remaining()))
      ensures Remaining() == old(Remaining())[|argNames|..]
    {
      ghost var start := Remaining();
      argNames := [];
      while currentToken.TokenIdentifier?
        invariant Valid()
        invariant |argNames| <= |start| && Remaining() == start[|argNames|..]
        invariant Parameters(start) == argNames + Parameters(Remaining())
        decreases |Remaining()|
      {
        ParametersStep(start, argNames);
        argNames := argNames + [currentToken.text];
        var _ := GetNextToken();
      }
      assert Parameters(start) == argNames + [];
    }

    /** ParseDefinition (main.cpp:219-227). */
    method ParseDefinition() returns (r: Result<FunctionDef>)
      requires Valid() && currentToken == TokenDef
      modifies this, lexer
      ensures Valid()
      ensures Parsed(r, Remaining()) == Definition(old(Remaining()), binopPrecedence)
    {
      var _ := GetNextToken();
      var proto := ParsePrototype();
      if proto.Err? {
        return Err(proto.message);
      }
      var e := ParseExpression();
      if e.Err? {
        return Err(e.message);
      }
      return Ok(FunctionDef(proto.value, e.value));
    }

    /** HandleDefinition (main.cpp:229-236). */
    method HandleDefinition() returns (h: Handled)
      requires Valid() && currentToken == TokenDef
      modifies this, lexer
      ensures Valid()
      ensures (h, Remaining()) == Recover(Definition(old(Remaining()), binopPrecedence), true)
    {
      var f := ParseDefinition();
      if f.Ok? {
        h := ParsedDefinition(f.value);
      } else {
        var _ := GetNextToken();
        h := SkippedAfterError(f.message);
      }
    }

    /** HandleTopLevelExpression (main.cpp:189-197). */
    method HandleTopLevelExpression() returns (h: Handled)
      requires Valid()
      modifies this, lexer
      ensures Valid()
      ensures (h, Remaining()) == Recover(TopLevelExpr(old(Remaining()), binopPrecedence), false)
    {
      var f := ParseTopLevelExpr();
      if f.Ok? {
        h := ParsedTopLevelExpr(f.value);
      } else {
        var _ := GetNextToken();
        h := SkippedAfterError(f.message);
      }
    }

    /** MainLoop (main.cpp:238-255), returning what it handled instead of
        printing it. */
    method MainLoop() returns (handled: seq<Handled>)
      requires Valid()
      modifies this, lexer
      ensures Valid() && Remaining() == []
      ensures handled == Session(old(Remaining()), binopPrecedence)
    {
      handled := [];
      ghost var session := Session(Remaining(), binopPrecedence);
      while currentToken != TokenEof
        invariant Valid()
        invariant handled + Session(Remaining(), binopPrecedence) == session
        decreases |Remaining()|
      {
        var round := HandleNext();
        AppendAssociative(handled, round, Session(Remaining(), binopPrecedence));
        handled := handled + round;
      }
      assert handled + [] == handled;
    }

    /** One pass through MainLoop's switch (main.cpp:240-253) on a token
        other than EOF: ';' is skipped, `def` starts a definition, anything
        else a top-level expression. */
    method HandleNext() returns (round: seq<Handled>)
      requires Valid() && currentToken != TokenEof
      modifies this, lexer
      ensures Valid() && |Remaining()| < |old(Remaining())|
      ensures Session(old(Remaining()), binopPrecedence) == round + Session(Remaining(), binopPrecedence)
    {
      ghost var before := Remaining();
      if currentToken == TokenChar(';') {
        var _ := GetNextToken();
        return [];
      }
      var h;
      if currentToken == TokenDef {
        h := HandleDefinition();
      } else {
        h := HandleTopLevelExpression();
      }
      SessionStep(before, binopPrecedence, h, Remaining());
      return [h];
    }
  }
}
