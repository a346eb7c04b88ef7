// Prototypes and definitions (ParsePrototype and ParseDefinition,
// main.cpp:199-227): where each of the three prototype diagnostics arises,
// and the tokens of a prototype or a definition read back.

module Prototypes {
  import opened Lexical
  import opened Ast
  import opened Grammar
  import opened Printing

  /** ParsePrototype's three diagnostics, each exactly at its missing token,
      and success exactly when the name, '(' and ')' are all in place. */
  lemma ProtoDeclErrors(ts: seq<Token>)
    ensures ProtoDecl(ts).result == Err(ExpectedFunctionName) <==> !Peek(ts).TokenIdentifier?
    ensures ProtoDecl(ts).result == Err(ExpectedProtoOpen)
            <==> Peek(ts).TokenIdentifier? && Peek(ts[1..]) != TokenChar('(')
    ensures ProtoDecl(ts).result == Err(ExpectedProtoClose)
            <==> Peek(ts).TokenIdentifier? && Peek(ts[1..]) == TokenChar('(')
                 && Peek(ts[2..][|Parameters(ts[2..])|..]) != TokenChar(')')
    ensures ProtoDecl(ts).result.Ok?
            <==> Peek(ts).TokenIdentifier? && Peek(ts[1..]) == TokenChar('(')
                 && Peek(ts[2..][|Parameters(ts[2..])|..]) == TokenChar(')')
    ensures ProtoDecl(ts).result.Ok? ==>
              ProtoDecl(ts).result.value == Prototype(ts[0].text, Parameters(ts[2..]))
    // the tokens left after each diagnostic start at the missing token
    ensures !Peek(ts).TokenIdentifier? ==> ProtoDecl(ts).rest == ts
    ensures Peek(ts).TokenIdentifier? && Peek(ts[1..]) != TokenChar('(') ==> ProtoDecl(ts).rest == ts[1..]
    ensures Peek(ts).TokenIdentifier? && Peek(ts[1..]) == TokenChar('(')
            && Peek(ts[2..][|Parameters(ts[2..])|..]) != TokenChar(')') ==>
              ProtoDecl(ts).rest == ts[2..][|Parameters(ts[2..])|..]
  {
    if Peek(ts).TokenIdentifier? && Peek(ts[1..]) == TokenChar('(') {
      assert ts[1..][1..] == ts[2..];
    }
  }

  /** The tokens of a parameter list: the names, nothing between them. */
  function Names(params: seq<string>): (ts: seq<Token>)
    ensures |ts| == |params|
    decreases |params|
  {
    if params == [] then [] else [TokenIdentifier(params[0])] + Names(params[1..])
  }

  /** The parameter loop reads the names back and stops at the first token
      that is not an identifier. */
  lemma {:induction false} ParametersOfNames(params: seq<string>, rest: seq<Token>)
    requires !Peek(rest).TokenIdentifier?
    ensures Parameters(Names(params) + rest) == params
    decreases |params|
  {
    if params == [] {
      assert Names(params) + rest == rest;
    } else {
      var ts := Names(params) + rest;
      AppendAssociative([TokenIdentifier(params[0])], Names(params[1..]), rest);
      assert ts[1..] == Names(params[1..]) + rest;
      ParametersCons(ts);
      ParametersOfNames(params[1..], rest);
      assert [params[0]] + params[1..] == params;
    }
  }

  /** The tokens of a prototype: name, '(', parameter names, ')'. */
  function ProtoTokens(p: Prototype): (ts: seq<Token>)
    ensures |ts| == |p.params| + 3
  {
    [TokenIdentifier(p.name), TokenChar('(')] + (Names(p.params) + [TokenChar(')')])
  }

  /** ParsePrototype reads the tokens of any prototype back, whatever
      follows them, and stops right after the ')'. */
  lemma ProtoDeclRoundTrip(p: Prototype, rest: seq<Token>)
    ensures ProtoDecl(ProtoTokens(p) + rest) == Parsed(Ok(p), rest)
  {
    var close := [TokenChar(')')] + rest;
    var ts := ProtoTokens(p) + rest;
    AppendAssociative([TokenIdentifier(p.name), TokenChar('(')], Names(p.params) + [TokenChar(')')], rest);
    AppendAssociative(Names(p.params), [TokenChar(')')], rest);
    assert ts == [TokenIdentifier(p.name), TokenChar('(')] + (Names(p.params) + close);
    assert ts[1..][1..] == Names(p.params) + close;
    ParametersOfNames(p.params, close);
    assert (Names(p.params) + close)[|p.params|..] == close;
  }

  /** ParseDefinition on `def`, a prototype and a printed body. */
  lemma DefinitionRoundTrip(table: map<char, int>, p: Prototype, body: Expr, end: seq<Token>)
    requires Punctuation(table) && Printable(table, body)
    requires Precedence(table, Peek(end)) < 0 && Peek(end) != TokenChar('(')
    ensures Definition([TokenDef] + (ProtoTokens(p) + (Render(body) + end)), table)
            == Parsed(Ok(FunctionDef(p, body)), end)
  {
    var ts := [TokenDef] + (ProtoTokens(p) + (Render(body) + end));
    assert ts[1..] == ProtoTokens(p) + (Render(body) + end);
    ProtoDeclRoundTrip(p, Render(body) + end);
    ExpressionRoundTrip(table, body, end);
  }
}
