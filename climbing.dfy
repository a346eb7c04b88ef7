// Operator-precedence climbing (ParseBinOpRHS, main.cpp:74-105) against an
// independent reading of an operator chain.
//
// A chain is an operand followed by links `op operand`, where an operand is
// any primary expression in its printed form: a number, a variable, a call or
// a parenthesised expression.  The reference
// reading, Tree, puts at the root the last of the operators that bind
// least tightly, and reads the two sides the same way: every operator is
// left-associative and a higher precedence binds tighter.  ClimbChain shows
// that BinOpRhs builds exactly that tree, for any precedence table.

module Climbing {
  import opened Lexical
  import opened Ast
  import opened Grammar
  import opened Printing

  /** An operator and the primary expression after it. */
  datatype Link = Link(op: char, operand: Expr)

  /** The tokens of a sequence of links. */
  function Chain(links: seq<Link>): (ts: seq<Token>)
    ensures |ts| >= 2 * |links|
    ensures links != [] ==> ts[0] == TokenChar(links[0].op)
  {
    if links == [] then []
    else [TokenChar(links[0].op)] + (Render(links[0].operand) + Chain(links[1..]))
  }

  /** The first token after a chain's links. */
  lemma ChainFront(links: seq<Link>, end: seq<Token>)
    ensures links != [] ==> Peek(Chain(links) + end) == TokenChar(links[0].op)
    ensures links == [] ==> Chain(links) + end == end
  {
  }

  /** The first link's two tokens, then the others. */
  lemma ChainSplit(links: seq<Link>, end: seq<Token>)
    requires links != []
    ensures Chain(links) + end != [] && Peek(Chain(links) + end) == TokenChar(links[0].op)
    ensures (Chain(links) + end)[0] == TokenChar(links[0].op)
    ensures (Chain(links) + end)[1..] == Render(links[0].operand) + (Chain(links[1..]) + end)
  {
    var after := Chain(links[1..]) + end;
    AppendAssociative4([TokenChar(links[0].op)], Render(links[0].operand), Chain(links[1..]), end);
    assert ([TokenChar(links[0].op)] + (Render(links[0].operand) + after))[1..]
        == Render(links[0].operand) + after;
  }

  /** GetTokenPrecedence of an operator character. */
  function Prec(table: map<char, int>, op: char): int
  {
    Precedence(table, TokenChar(op))
  }

  /** An operand that ParsePrimary reads back from its printed form: a
      number or a variable in any table; a call or a parenthesised expression
      when ')' and ',' are not binary operators of the table. */
  predicate Operand(table: map<char, int>, e: Expr)
  {
    Printable(table, e) && ((e.Binary? || e.Call?) ==> Punctuation(table))
  }

  /** Every operator of the links is a binary operator of the table and is
      not '(', which would turn the operand before it into a callee, and
      every operand is read back by ParsePrimary. */
  predicate Operators(table: map<char, int>, links: seq<Link>)
  {
    forall i :: 0 <= i < |links| ==>
      Prec(table, links[i].op) >= 1 && links[i].op != '(' && Operand(table, links[i].operand)
  }

  /** ParsePrimary on a printed operand. */
  lemma OperandPrimary(table: map<char, int>, e: Expr, rest: seq<Token>)
    requires Operand(table, e) && Peek(rest) != TokenChar('(')
    ensures Primary(Render(e) + rest, table) == Parsed(Ok(e), rest)
  {
    match e
    case Number(value) =>
      ValueOfNumeral(value);
      assert (Render(e) + rest)[1..] == rest;
    case Variable(name) =>
      IdentifierIsVariable(table, name, rest);
    case Binary(_, _, _) =>
      PrimaryRoundTrip(table, e, rest);
    case Call(_, _) =>
      PrimaryRoundTrip(table, e, rest);
  }

  /** What may follow a chain: no binary operator and no '('. */
  predicate Closes(table: map<char, int>, end: seq<Token>)
  {
    Precedence(table, Peek(end)) < 0 && Peek(end) != TokenChar('(')
  }

  /** The position of the last of the least tightly binding operators. */
  function LoosestLast(table: map<char, int>, links: seq<Link>): (k: nat)
    requires links != []
    ensures k < |links|
  {
    if |links| == 1 then 0
    else
      var k := LoosestLast(table, links[..|links| - 1]);
      if Prec(table, links[|links| - 1].op) <= Prec(table, links[k].op) then |links| - 1 else k
  }

  /** k binds no tighter than any operator, and more loosely than all after it. */
  predicate IsLoosestLast(table: map<char, int>, links: seq<Link>, k: nat)
  {
    && k < |links|
    && (forall i :: 0 <= i < |links| ==> Prec(table, links[k].op) <= Prec(table, links[i].op))
    && (forall i :: k < i < |links| ==> Prec(table, links[k].op) < Prec(table, links[i].op))
  }

  lemma {:induction false} LoosestLastIsLoosest(table: map<char, int>, links: seq<Link>)
    requires links != []
    ensures IsLoosestLast(table, links, LoosestLast(table, links))
    decreases |links|
  {
    if |links| > 1 {
      var init := links[..|links| - 1];
      LoosestLastIsLoosest(table, init);
      var k := LoosestLast(table, init);
      assert forall i :: 0 <= i < |init| ==> init[i] == links[i];
    }
  }

  /** The reference reading of `first links`. */
  function Tree(table: map<char, int>, first: Expr, links: seq<Link>): Expr
    decreases |links|
  {
    if links == [] then first
    else
      var k := LoosestLast(table, links);
      Binary(links[k].op, Tree(table, first, links[..k]), Tree(table, links[k].operand, links[k + 1..]))
  }

  /** Cutting a concatenation inside its second part. */
  lemma CutSecond<T>(a: seq<T>, b: seq<T>, k: nat)
    requires k < |b|
    ensures (a + b)[|a| + k] == b[k]
    ensures (a + b)[..|a| + k] == a + b[..k]
    ensures (a + b)[|a| + k + 1..] == b[k + 1..]
  {
  }

  /** One level of Tree. */
  lemma TreeRoot(table: map<char, int>, first: Expr, links: seq<Link>, k: nat)
    requires links != [] && k == LoosestLast(table, links)
    ensures Tree(table, first, links)
         == Binary(links[k].op, Tree(table, first, links[..k]), Tree(table, links[k].operand, links[k + 1..]))
  {
  }

  /** The position of the first operator that binds less tightly than m. */
  function FirstBelow(table: map<char, int>, links: seq<Link>, m: int): (j: nat)
    ensures j <= |links|
    ensures forall i :: 0 <= i < j ==> Prec(table, links[i].op) >= m
    ensures j < |links| ==> Prec(table, links[j].op) < m
  {
    if links == [] || Prec(table, links[0].op) < m then 0
    else 1 + FirstBelow(table, links[1..], m)
  }

  /** LoosestLast is the only position with its two properties. */
  lemma LoosestLastIs(table: map<char, int>, links: seq<Link>, k: nat)
    requires IsLoosestLast(table, links, k)
    ensures LoosestLast(table, links) == k
  {
    LoosestLastIsLoosest(table, links);
  }

  lemma FirstBelowIs(table: map<char, int>, links: seq<Link>, m: int, j: nat)
    requires j <= |links|
    requires forall i :: 0 <= i < j ==> Prec(table, links[i].op) >= m
    requires j < |links| ==> Prec(table, links[j].op) < m
    ensures FirstBelow(table, links, m) == j
  {
  }

  /** A first operator that binds less tightly than all after it is the root. */
  lemma Absorb(table: map<char, int>, first: Expr, links: seq<Link>)
    requires links != []
    requires forall i :: 0 < i < |links| ==> Prec(table, links[0].op) < Prec(table, links[i].op)
    ensures Tree(table, first, links) == Binary(links[0].op, first, Tree(table, links[0].operand, links[1..]))
  {
    LoosestLastIs(table, links, 0);
    RootAtFront(table, first, links);
  }

  lemma RootAtFront(table: map<char, int>, first: Expr, links: seq<Link>)
    requires links != [] && LoosestLast(table, links) == 0
    ensures Tree(table, first, links) == Binary(links[0].op, first, Tree(table, links[0].operand, links[1..]))
  {
    assert links[..0] == [];
  }

  /** The links after the first are operators too. */
  lemma OperatorsTail(table: map<char, int>, links: seq<Link>)
    requires links != [] && Operators(table, links)
    ensures Operators(table, links[1..])
  {
    assert forall i :: 0 <= i < |links[1..]| ==> links[1..][i] == links[i + 1];
  }

  /** When the first operator of ps2 binds no tighter than any of ps1, the
      root of ps1 + ps2 lies in ps2. */
  lemma LoosestLastInSuffix(table: map<char, int>, ps1: seq<Link>, ps2: seq<Link>)
    requires ps2 != []
    requires forall i :: 0 <= i < |ps1| ==> Prec(table, ps2[0].op) <= Prec(table, ps1[i].op)
    ensures LoosestLast(table, ps1 + ps2) == |ps1| + LoosestLast(table, ps2)
  {
    var all := ps1 + ps2;
    var k2 := LoosestLast(table, ps2);
    LoosestLastIsLoosest(table, ps2);
    var k := |ps1| + k2;
    assert all[k] == ps2[k2];
    forall i | 0 <= i < |all|
      ensures Prec(table, all[k].op) <= Prec(table, all[i].op)
    {
      if i >= |ps1| {
        assert all[i] == ps2[i - |ps1|];
      }
    }
    forall i | k < i < |all|
      ensures Prec(table, all[k].op) < Prec(table, all[i].op)
    {
      assert all[i] == ps2[i - |ps1|];
    }
    LoosestLastIs(table, all, k);
  }

  /** A prefix whose operators all bind at least as tightly as the operator
      after it can be read on its own first. */
  lemma {:induction false} Collapse(table: map<char, int>, first: Expr, ps1: seq<Link>, ps2: seq<Link>)
    requires ps2 != [] ==> forall i :: 0 <= i < |ps1| ==> Prec(table, ps2[0].op) <= Prec(table, ps1[i].op)
    ensures Tree(table, first, ps1 + ps2) == Tree(table, Tree(table, first, ps1), ps2)
    decreases |ps2|
  {
    if ps2 == [] {
      assert ps1 + ps2 == ps1;
    } else {
      LoosestLastInSuffix(table, ps1, ps2);
      var k2 := LoosestLast(table, ps2);
      var left := Tree(table, first, ps1);
      var right := Tree(table, ps2[k2].operand, ps2[k2 + 1..]);
      TreeRootInSuffix(table, first, ps1, ps2, k2);
      assert Tree(table, left, ps2) == Binary(ps2[k2].op, Tree(table, left, ps2[..k2]), right) by {
        TreeRoot(table, left, ps2, k2);
      }
      Collapse(table, first, ps1, ps2[..k2]);
    }
  }

  /** One level of Tree, when the root lies in the second part. */
  lemma TreeRootInSuffix(table: map<char, int>, first: Expr, ps1: seq<Link>, ps2: seq<Link>, k2: nat)
    requires k2 < |ps2| && LoosestLast(table, ps1 + ps2) == |ps1| + k2
    ensures Tree(table, first, ps1 + ps2)
         == Binary(ps2[k2].op, Tree(table, first, ps1 + ps2[..k2]), Tree(table, ps2[k2].operand, ps2[k2 + 1..]))
  {
    CutSecond(ps1, ps2, k2);
  }

  /** The tree of one round of ParseBinOpRHS's loop: the first operator with
      the run of tighter operators it absorbs, then the operators after it. */
  lemma RoundTree(table: map<char, int>, lhs: Expr, links: seq<Link>, j1: nat, j2: nat, j: nat)
    requires j == 1 + j1 + j2 && j <= |links|
    requires forall i :: 1 <= i <= j1 ==> Prec(table, links[0].op) < Prec(table, links[i].op)
    requires j2 > 0 ==> Prec(table, links[1 + j1].op) <= Prec(table, links[0].op)
    ensures Tree(table, lhs, links[..j])
         == Tree(table, Binary(links[0].op, lhs, Tree(table, links[0].operand, links[1..][..j1])),
                 links[1..][j1..][..j2])
  {
    RoundSlices(links, j1, j2, j);
    var ps1 := links[..1 + j1];
    var ps2 := links[1 + j1..j];
    assert links[..j] == ps1 + ps2;
    assert ps1[1..] == links[1..1 + j1];
    Absorb(table, lhs, ps1);
    Collapse(table, lhs, ps1, ps2);
  }

  /** The slices of one round of the loop, which ends at j. */
  lemma RoundSlices<T>(s: seq<T>, j1: nat, j2: nat, j: nat)
    requires j == 1 + j1 + j2 && j <= |s|
    ensures s[1..][..j1] == s[1..1 + j1]
    ensures s[1..][j1..][..j2] == s[1 + j1..j]
    ensures s[1..][j1..][j2..] == s[j..]
  {
  }

  /** Where one round of the loop stops reading links. */
  lemma FirstBelowRound(table: map<char, int>, links: seq<Link>, minPrec: int, j1: nat, j2: nat)
    requires links != [] && Prec(table, links[0].op) >= minPrec
    requires j1 == FirstBelow(table, links[1..], Prec(table, links[0].op) + 1)
    requires j2 == FirstBelow(table, links[1..][j1..], minPrec)
    ensures 1 + j1 + j2 <= |links|
    ensures FirstBelow(table, links, minPrec) == 1 + j1 + j2
    ensures forall i :: 1 <= i <= j1 ==> Prec(table, links[0].op) < Prec(table, links[i].op)
    ensures j2 > 0 ==> Prec(table, links[1 + j1].op) <= Prec(table, links[0].op)
  {
    var tail := links[1..];
    var rest := tail[j1..];
    var j := 1 + j1 + j2;
    forall i | 0 <= i < j
      ensures Prec(table, links[i].op) >= minPrec
    {
      if 1 <= i <= j1 {
        assert links[i] == tail[i - 1];
      } else if i > j1 {
        assert links[i] == rest[i - 1 - j1];
      }
    }
    if j < |links| {
      assert links[j] == rest[j2];
    }
    FirstBelowIs(table, links, minPrec, j);
    forall i | 1 <= i <= j1
      ensures Prec(table, links[0].op) < Prec(table, links[i].op)
    {
      assert links[i] == tail[i - 1];
    }
    if j2 > 0 {
      assert links[1 + j1] == tail[j1];
    }
  }

  /** ParseBinOpRHS on a chain: it folds the links up to the first operator
      that binds less tightly than minPrec into the reference tree, and
      leaves that operator as the lookahead. */
  lemma {:induction false} ClimbChain(table: map<char, int>, links: seq<Link>, end: seq<Token>, minPrec: int, lhs: Expr)
    requires minPrec >= 0 && Operators(table, links) && Closes(table, end)
    ensures var j := FirstBelow(table, links, minPrec);
            BinOpRhs(Chain(links) + end, table, minPrec, lhs)
            == Parsed(Ok(Tree(table, lhs, links[..j])), Chain(links[j..]) + end)
    decreases |links|, 2
  {
    if links == [] || Prec(table, links[0].op) < minPrec {
      ChainFront(links, end);
      assert links[..0] == [] && links[0..] == links;
    } else {
      ClimbRound(table, links, end, minPrec, lhs);
    }
  }

  /** One round of the loop on a chain, then the rest by induction. */
  lemma {:induction false} ClimbRound(table: map<char, int>, links: seq<Link>, end: seq<Token>, minPrec: int, lhs: Expr)
    requires minPrec >= 0 && Operators(table, links) && Closes(table, end)
    requires links != [] && Prec(table, links[0].op) >= minPrec
    ensures BinOpRhs(Chain(links) + end, table, minPrec, lhs)
            == Parsed(Ok(Tree(table, lhs, links[..FirstBelow(table, links, minPrec)])),
                      Chain(links[FirstBelow(table, links, minPrec)..]) + end)
    decreases |links|, 1
  {
    var j1 := FirstBelow(table, links[1..], Prec(table, links[0].op) + 1);
    RoundTokens(table, links, end, minPrec, lhs, j1);
    ClimbChain(table, links[1..][j1..], end, minPrec,
               Binary(links[0].op, lhs, Tree(table, links[0].operand, links[1..][..j1])));
    var j2 := FirstBelow(table, links[1..][j1..], minPrec);
    FirstBelowRound(table, links, minPrec, j1, j2);
    RoundTree(table, lhs, links, j1, j2, FirstBelow(table, links, minPrec));
    RoundSlices(links, j1, j2, FirstBelow(table, links, minPrec));
  }

  /** The tokens of one round: the first operator takes as its right operand
      the operand after it with the j1 links that bind tighter, and the
      loop goes on after them. */
  lemma {:induction false} RoundTokens(table: map<char, int>, links: seq<Link>, end: seq<Token>, minPrec: int, lhs: Expr, j1: nat)
    requires minPrec >= 0 && Operators(table, links) && Closes(table, end)
    requires links != [] && Prec(table, links[0].op) >= minPrec
    requires j1 == FirstBelow(table, links[1..], Prec(table, links[0].op) + 1)
    ensures j1 <= |links[1..]|
    ensures BinOpRhs(Chain(links) + end, table, minPrec, lhs)
            == BinOpRhs(Chain(links[1..][j1..]) + end, table, minPrec,
                        Binary(links[0].op, lhs, Tree(table, links[0].operand, links[1..][..j1])))
    decreases |links|, 0
  {
    ChainSplit(links, end);
    OperatorsTail(table, links);
    OperandOnChain(table, links[0].operand, links[1..], end, Prec(table, links[0].op));
    BinOpRhsRound(Chain(links) + end, table, minPrec, lhs,
                  Tree(table, links[0].operand, links[1..][..j1]), Chain(links[1..][j1..]) + end);
  }

  /** The right operand of an operator of precedence prec on a chain: the
      operand, with the links after it that bind tighter than prec. */
  lemma {:induction false} OperandOnChain(table: map<char, int>, x: Expr, tail: seq<Link>, end: seq<Token>, prec: int)
    requires prec >= 0 && Operand(table, x) && Operators(table, tail) && Closes(table, end)
    ensures var j := FirstBelow(table, tail, prec + 1);
            RightOperand(Render(x) + (Chain(tail) + end), table, prec)
            == Parsed(Ok(Tree(table, x, tail[..j])), Chain(tail[j..]) + end)
    decreases |tail|, 4
  {
    if tail != [] && prec < Prec(table, tail[0].op) {
      TighterOperand(table, x, tail, end, prec);
    } else {
      LooserOperand(table, x, tail, end, prec);
    }
  }

  /** The next operator binds tighter: it and its own operands join the operand. */
  lemma {:induction false} TighterOperand(table: map<char, int>, x: Expr, tail: seq<Link>, end: seq<Token>, prec: int)
    requires prec >= 0 && Operand(table, x) && Operators(table, tail) && Closes(table, end)
    requires tail != [] && prec < Prec(table, tail[0].op)
    ensures var j := FirstBelow(table, tail, prec + 1);
            RightOperand(Render(x) + (Chain(tail) + end), table, prec)
            == Parsed(Ok(Tree(table, x, tail[..j])), Chain(tail[j..]) + end)
    decreases |tail|, 3
  {
    var after := Chain(tail) + end;
    ChainFront(tail, end);
    OperandPrimary(table, x, after);
    RightOperandAfter(Render(x) + after, table, prec, x, after);
    ClimbChain(table, tail, end, prec + 1, x);
  }

  /** The next operator does not bind tighter: the operand stands alone. */
  lemma LooserOperand(table: map<char, int>, x: Expr, tail: seq<Link>, end: seq<Token>, prec: int)
    requires prec >= 0 && Operand(table, x) && Operators(table, tail) && Closes(table, end)
    requires tail == [] || Prec(table, tail[0].op) <= prec
    ensures FirstBelow(table, tail, prec + 1) == 0
    ensures RightOperand(Render(x) + (Chain(tail) + end), table, prec)
            == Parsed(Ok(x), Chain(tail) + end)
  {
    var after := Chain(tail) + end;
    ChainFront(tail, end);
    OperandPrimary(table, x, after);
    RightOperandAfter(Render(x) + after, table, prec, x, after);
  }

  /** ParseExpression on an operand and a chain: the whole chain is read,
      and the result is the reference tree. */
  lemma ExpressionOnChain(table: map<char, int>, x: Expr, links: seq<Link>, end: seq<Token>)
    requires Operand(table, x) && Operators(table, links) && Closes(table, end)
    ensures Expression(Render(x) + (Chain(links) + end), table)
            == Parsed(Ok(Tree(table, x, links)), end)
  {
    var after := Chain(links) + end;
    ChainFront(links, end);
    OperandPrimary(table, x, after);
    ExpressionAfter(Render(x) + after, table, x, after);
    WholeChain(table, links, end, x);
  }

  /** ParseBinOpRHS with precedence 0 reads a whole chain of operators. */
  lemma WholeChain(table: map<char, int>, links: seq<Link>, end: seq<Token>, lhs: Expr)
    requires Operators(table, links) && Closes(table, end)
    ensures BinOpRhs(Chain(links) + end, table, 0, lhs) == Parsed(Ok(Tree(table, lhs, links)), end)
  {
    ClimbChain(table, links, end, 0, lhs);
    FirstBelowIs(table, links, 0, |links|);
    WholeSlices(links);
  }

  lemma WholeSlices<T>(s: seq<T>)
    ensures s[..|s|] == s && s[|s|..] == []
  {
  }

  /** The tokens of an expression with the grouping of its binary nodes
      dropped; the other nodes keep their printed tokens. */
  function Flat(e: Expr): seq<Token>
  {
    match e
    case Binary(op, lhs, rhs) => Flat(lhs) + [TokenChar(op)] + Flat(rhs)
    case _ => Render(e)
  }

  /** The links with the grouping of their operands dropped. */
  function FlatChain(links: seq<Link>): seq<Token>
  {
    if links == [] then [] else [TokenChar(links[0].op)] + (Flat(links[0].operand) + FlatChain(links[1..]))
  }

  /** FlatChain distributes over concatenation. */
  lemma {:induction false} FlatChainAppend(a: seq<Link>, b: seq<Link>)
    ensures FlatChain(a + b) == FlatChain(a) + FlatChain(b)
    decreases |a|
  {
    if a != [] {
      assert (a + b)[1..] == a[1..] + b;
      FlatChainAppend(a[1..], b);
      AppendAssociative4([TokenChar(a[0].op)], Flat(a[0].operand), FlatChain(a[1..]), FlatChain(b));
    } else {
      assert a + b == b;
    }
  }

  /** The flat tokens of a chain around its k-th link. */
  lemma FlatChainAt(links: seq<Link>, k: nat)
    requires k < |links|
    ensures FlatChain(links)
         == FlatChain(links[..k]) + ([TokenChar(links[k].op)] + (Flat(links[k].operand) + FlatChain(links[k + 1..])))
  {
    var post := links[k + 1..];
    SplitAt(links, k);
    FlatChainAppend(links[..k], [links[k]] + post);
    assert ([links[k]] + post)[1..] == post;
  }

  lemma SplitAt<T>(s: seq<T>, k: nat)
    requires k < |s|
    ensures s == s[..k] + ([s[k]] + s[k + 1..])
  {
  }

  /** The reference tree keeps every operand and operator in its place: only
      the grouping is chosen. */
  lemma {:induction false} TreeKeepsOrder(table: map<char, int>, first: Expr, links: seq<Link>)
    ensures Flat(Tree(table, first, links)) == Flat(first) + FlatChain(links)
    decreases |links|
  {
    if links == [] {
      assert Flat(first) + [] == Flat(first);
    } else {
      var k := LoosestLast(table, links);
      TreeRoot(table, first, links, k);
      TreeKeepsOrder(table, first, links[..k]);
      TreeKeepsOrder(table, links[k].operand, links[k + 1..]);
      FlatChainAt(links, k);
      Regroup(Flat(first), FlatChain(links[..k]), TokenChar(links[k].op), Flat(links[k].operand), FlatChain(links[k + 1..]));
    }
  }

  lemma Regroup<T>(f: seq<T>, p: seq<T>, x: T, y: seq<T>, q: seq<T>)
    ensures ((f + p) + [x]) + (y + q) == f + (p + ([x] + (y + q)))
  {
  }

  /** The tokens of an operand and a chain parse to an expression whose
      grouping-free reading is those tokens with their grouping dropped. */
  lemma ExpressionKeepsOrder(table: map<char, int>, x: Expr, links: seq<Link>, end: seq<Token>)
    requires Operand(table, x) && Operators(table, links) && Closes(table, end)
    ensures Expression(Render(x) + (Chain(links) + end), table).result.Ok?
    ensures Flat(Expression(Render(x) + (Chain(links) + end), table).result.value)
            == Flat(x) + FlatChain(links)
  {
    ExpressionOnChain(table, x, links, end);
    TreeKeepsOrder(table, x, links);
  }

  /** Left-to-right folding, the reading of a chain whose operators all
      bind equally. */
  function FoldLeft(first: Expr, links: seq<Link>): Expr
    decreases |links|
  {
    if links == [] then first
    else FoldLeft(Binary(links[0].op, first, links[0].operand), links[1..])
  }

  lemma {:induction false} FoldLeftLast(first: Expr, links: seq<Link>)
    requires links != []
    ensures FoldLeft(first, links)
         == Binary(links[|links| - 1].op, FoldLeft(first, links[..|links| - 1]), links[|links| - 1].operand)
    decreases |links|
  {
    if |links| > 1 {
      var next := Binary(links[0].op, first, links[0].operand);
      FoldLeftLast(next, links[1..]);
      assert links[1..][..|links| - 2] == links[..|links| - 1][1..];
    }
  }

  /** Operators of one precedence associate to the left. */
  lemma {:induction false} EqualPrecedenceFoldsLeft(table: map<char, int>, first: Expr, links: seq<Link>)
    requires forall i :: 0 <= i < |links| ==> Prec(table, links[i].op) == Prec(table, links[0].op)
    ensures Tree(table, first, links) == FoldLeft(first, links)
    decreases |links|
  {
    if links != [] {
      var last := |links| - 1;
      LoosestLastIs(table, links, last);
      TreeRoot(table, first, links, last);
      assert links[last + 1..] == [];
      var init := links[..last];
      assert forall i :: 0 <= i < |init| ==> init[i] == links[i];
      EqualPrecedenceFoldsLeft(table, first, init);
      FoldLeftLast(first, links);
    }
  }

  /** Two operators: the right one is taken first exactly when it binds
      tighter, so `a+b*c` reads as `a+(b*c)`, `a*b+c` as `(a*b)+c` and
      `a-b-c` as `(a-b)-c`. */
  lemma TwoOperators(table: map<char, int>, a: Expr, op1: char, b: Expr, op2: char, c: Expr)
    ensures Prec(table, op1) < Prec(table, op2) ==>
              Tree(table, a, [Link(op1, b), Link(op2, c)]) == Binary(op1, a, Binary(op2, b, c))
    ensures Prec(table, op1) >= Prec(table, op2) ==>
              Tree(table, a, [Link(op1, b), Link(op2, c)]) == Binary(op2, Binary(op1, a, b), c)
  {
    var links := [Link(op1, b), Link(op2, c)];
    var k := LoosestLast(table, links);
    assert links[..1] == [Link(op1, b)];
    TreeRoot(table, a, links, k);
    assert links[..0] == [] && links[2..] == [] && links[1..] == [Link(op2, c)];
    TreeRoot(table, a, [Link(op1, b)], 0);
    TreeRoot(table, b, [Link(op2, c)], 0);
    assert [Link(op1, b)][..0] == [] && [Link(op1, b)][1..] == [];
    assert [Link(op2, c)][..0] == [] && [Link(op2, c)][1..] == [];
  }
}
