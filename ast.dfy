// The abstract syntax tree built by the parser (AST.h).
//
// The C++ classes are plain aggregates initialised once by their constructors
// and owned through unique_ptr, so every tree is finite and unshared.  Here
// they become one closed datatype per kind of node.

module Ast {

  /** An expression node: ExprAST and its four subclasses.
      NumberExprAST holds a double; this model keeps the integer value of the
      literal's digits (see Lexical.Value). */
  datatype Expr =
    | Number(value: nat)
    | Variable(name: string)
    | Binary(op: char, lhs: Expr, rhs: Expr)
    | Call(callee: string, args: seq<Expr>)

  /** PrototypeAST: a function's name and its parameter names in source order.
      Duplicate parameter names are kept as they are. */
  datatype Prototype = Prototype(name: string, params: seq<string>)
  {
    /** PrototypeAST::getName. */
    function GetName(): (r: string)
      ensures Prototype(r, params) == this
    {
      name
    }
  }

  /** FunctionAST: exactly one prototype and one body. */
  datatype FunctionDef = FunctionDef(proto: Prototype, body: Expr)

  /** Each node keeps exactly the parts it is built from: a call its
      arguments in order and number (none allowed), a prototype its
      parameters in order, duplicates included. */
  lemma NodesKeepTheirParts(v: nat, op: char, lhs: Expr, rhs: Expr, callee: string, args: seq<Expr>,
                            name: string, params: seq<string>, body: Expr)
    ensures Number(v).value == v
    ensures Binary(op, lhs, rhs).op == op && Binary(op, lhs, rhs).lhs == lhs && Binary(op, lhs, rhs).rhs == rhs
    ensures Call(callee, args).callee == callee && Call(callee, args).args == args
    ensures Prototype(name, params).GetName() == name && Prototype(name, params).params == params
    ensures FunctionDef(Prototype(name, params), body).proto == Prototype(name, params)
    ensures FunctionDef(Prototype(name, params), body).body == body
  {
  }

  /** The node that VariableExprAST's constructor builds as written: its body
      is empty, so the name member keeps its default value, the empty string,
      whatever name is passed in. */
  function VariableNodeAsWritten(name: string): Expr
  {
    Variable("")
  }

  /** As written, two different identifiers give indistinguishable nodes. */
  lemma VariableNodeAsWrittenLosesName()
    ensures VariableNodeAsWritten("a") == VariableNodeAsWritten("b")
    ensures VariableNodeAsWritten("a").name != "a"
  {
  }

  /** The corrected node keeps its name, so different identifiers stay apart. */
  lemma VariableNodeKeepsName(a: string, b: string)
    ensures Variable(a).name == a
    ensures Variable(a) == Variable(b) <==> a == b
  {
  }
}
