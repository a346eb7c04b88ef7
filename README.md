# Kaleidoscope front end in Dafny

This project models the front end of a small Kaleidoscope-style language (main.cpp and AST.h): the lexer, the recursive-descent parser with operator-precedence climbing, and the abstract syntax tree. It then proves that these three parts do what the code promises.

The model has these modules:

- `Ast` (ast.dfy): the AST node classes become one closed datatype per kind of node (`Expr`, `Prototype`, `FunctionDef`).
- `Lexical` (tokens.dfy): the token datatype and the character classes of `<cctype>`. `Lex` is the specification of one `GetToken` call. It maps the characters still pending to a token and the characters left over. `Tokens` is the whole token stream.
- `Lexing` (lexer.dfy): the lexer as a class. The static `lastChar` is a field, and the undefined `GetChar` reads a fixed input string. `GetToken` is a method with the source's loops. It is proved to return what `Lex` says and to leave exactly `Lex`'s leftover pending.
- `Grammar` (grammar.dfy): each parse function is a function on the token stream still to be read. It returns a node or the diagnostic string that `LogError` prints, together with the tokens left after it. `Session` is the whole read loop.
- `Parsing` (parser.dfy): the parser as a class. `CurrentToken` and `BinopPrecedence` are fields, and `GetNextToken` pulls tokens from the lexer object. Each method is proved equal to its `Grammar` function on the tokens the lexer still has to deliver (`Remaining()`). This covers `ParseBinOpRHS`'s `while (true)` loop, the argument and parameter `push_back` loops, and `MainLoop`.
- `Climbing` (climbing.dfy): an independent reference reading of an operator chain, `Tree`. An operand of the chain is any primary expression in its printed form: a number, a variable, a call or a parenthesised expression. The root is the last of the least tightly binding operators, and each side is read the same way. The module proves that `ParseBinOpRHS` builds exactly that tree for every precedence table that ranks the chain's operators as binary operators other than '('. When an operand is a call or a parenthesised expression, the table must also leave ')' and ',' unranked: with ')' ranked, the argument `x` of `f(x)*y` would go on past the ')'. It also proves left-associativity, absorption of tighter operators, and that the operands and operators stay in source order.
- `Printing` and `Prototypes` (printing.dfy, prototypes.dfy): printers for expressions, prototypes and definitions, and proofs that the parser reads printed output back. `TextRoundTrip` covers the full path: printed text is lexed and then parsed back to the same expression.
- `Examples` (examples.dfy): worked instances such as `a+b*c`, `a*b+c`, `a-b-c`, `1+2*3`, `f(x)*y+z`, `(a+b)*c`, calls, the error diagnostics, and a read loop with error recovery.

Where the comments in the source and its code disagree, the model follows the code. The number rule is commented `[0-9.]+`, but the loop at main.cpp:40-43 takes digits only, so a '.' ends a number and becomes a token of its own.

## Model

| member | source | states |
|---|---|---|
| Ast.Prototype.GetName | AST.h:50 | the name returned, with the parameters, rebuilds the prototype: it is the name given at construction |
| Ast.NodesKeepTheirParts | AST.h:6-61 | every node keeps exactly the value, operator, children, callee, arguments (order and count), name and parameters it was built with |
| Ast.VariableNodeAsWrittenLosesName | AST.h:13-18 | as written, the variable node for "a" equals the one for "b" and does not hold "a" |
| Ast.VariableNodeKeepsName | AST.h:13-18 | the corrected node holds its name, and two variable nodes are equal exactly when their names are |
| Lexical.Run | main.cpp:27-31 | the length of the longest prefix in a character class: every character before it is in the class, the one at it is not |
| Lexical.LexWord | main.cpp:29-36 | a letter starts the longest letter/digit run; it is TokenDef exactly for "def" and an identifier holding the run otherwise; the next character ends the run |
| Lexical.LexNumber | main.cpp:38-47 | a digit starts the longest run of digits (no '.'), returned as a number token; the next character is not a digit |
| Lexical.LexToken | main.cpp:29-53 | after whitespace: the token's spelling followed by the leftover is exactly the text, EOF exactly on empty text, any other character is a one-character token |
| Lexical.Lex | main.cpp:25-54 | one GetToken: leading whitespace is skipped, the token's spelling plus the leftover is the rest of the text (nothing lost or read twice), EOF exactly on all-blank text, a non-EOF token consumes at least one character, runs are maximal |
| Lexical.LexEof | main.cpp:49 | the end token comes exactly when only whitespace is left |
| Lexical.SpellingNonEmpty | main.cpp:25-54 | every token other than EOF has at least one character |
| Lexical.LexSkipsSpace | main.cpp:27 | a leading whitespace character does not change the next token |
| Lexical.LexAfterSpace | main.cpp:29-53 | once whitespace is skipped, the first character alone picks the identifier, number, EOF or one-character rule |
| Lexical.LexRunOfSpelling | main.cpp:29-46 | the identifier and number rules read a well-formed spelling back when the next character ends its run |
| Lexical.LexOfSpelling | main.cpp:25-54 | inverse of Lex: blanks, a well-formed token's spelling and a character that ends it lex back to that token and that leftover |
| Lexical.Tokens | main.cpp:25-54 | successive GetToken calls up to EOF: each token reads at least one character, and the stream is empty exactly when the input is blank |
| Lexical.Value | main.cpp:45 | the numeric value of the digit run; its last digit is the units digit |
| Lexical.LeadingZero | main.cpp:45 | a leading zero does not change the value of the digits, as with strtod |
| Lexical.TokensProper | main.cpp:25-54 | the token stream never holds EOF and holds only tokens GetToken can produce |
| Lexical.TokensStep | main.cpp:25-54 | one GetToken call adds its token to the front of the stream, or ends it |
| Lexical.TokensSkipSpace | main.cpp:27 | a leading whitespace character does not change the token stream |
| Lexical.TokensAfterBlank | main.cpp:26 | the initial blank in lastChar adds no token |
| Lexical.TokensOfText | main.cpp:25-54 | lexing the blank-separated spellings of well-formed tokens gives those tokens back |
| Lexical.Numeral | main.cpp:38-43 | the decimal numeral of a value is a run of digits |
| Lexical.ValueOfNumeral | main.cpp:45 | the value of the numeral of n is n (the integer part of what strtod computes) |
| Lexing.Lexer.constructor | main.cpp:26 | lastChar starts as a blank before the whole input |
| Lexing.Lexer.GetChar | main.cpp:42 | delivers the next input character, or EOF again and again once the input is used up; the pending text loses exactly its first character |
| Lexing.Lexer.ScanIdentifier | main.cpp:29-31 | reads the longest letter/digit run starting at lastChar; the run plus what is still pending is what was pending; the character after it stays in lastChar |
| Lexing.Lexer.ScanNumber | main.cpp:38-43 | reads the longest digit run starting at lastChar; the run plus what is still pending is what was pending; the character after it stays in lastChar |
| Lexing.Lexer.GetToken | main.cpp:25-54 | returns exactly Lex of the pending characters and leaves exactly Lex's leftover pending |
| Grammar.Lookup | main.cpp:69 | `BinopPrecedence[CurrentToken]`: the table's entry, and 0 for a character missing from the table |
| Grammar.Precedence | main.cpp:65-72 | -1 for non-character tokens, non-ASCII characters and entries missing or not positive; otherwise the table value, which is at least 1 |
| Grammar.BinOpRhs | main.cpp:74-105 | reads a suffix of its input; on success the lookahead's precedence is below minPrec |
| Grammar.RightOperand | main.cpp:88-99 | on success at least one token is read and the next operator does not bind tighter than the current one |
| Grammar.BinOpRhsRound | main.cpp:84-103 | one loop round: the operator is consumed and lhs becomes Binary(op, lhs, operand) |
| Grammar.BinOpRhsStops | main.cpp:78-82 | when the lookahead binds less tightly than minPrec, lhs is returned unchanged and nothing is read |
| Grammar.BinOpRhsOperandFails | main.cpp:88-97 | a failing right operand is the failure of the whole loop |
| Grammar.RightOperandPrimaryFails | main.cpp:90-91 | a failing primary fails the right operand with its diagnostic and the tokens it left |
| Grammar.RightOperandAfter | main.cpp:94-98 | the primary is the operand unless the next operator binds tighter, in which case the recursive call at prec+1 takes it as its left side |
| Grammar.Expression | main.cpp:107-112 | on success at least one token is read and the lookahead is not a binary operator |
| Grammar.ExpressionAfter | main.cpp:107-112 | after its primary, ParseExpression is ParseBinOpRHS at precedence 0 |
| Grammar.ExpressionFails | main.cpp:108-109 | a failing primary is the failure of the expression |
| Grammar.ExpressionRefuses | main.cpp:175-176 | a token that cannot start a primary fails with "unknown token when expecting an expression" and is not consumed |
| Grammar.ParenAround | main.cpp:156-165 | '(' expression ')' gives the inner expression and consumes the ')' |
| Grammar.ParenInnerFails | main.cpp:159-160 | a failing inner expression fails the parenthesised expression with its diagnostic and the tokens it left |
| Grammar.ParenUnclosed | main.cpp:161-162 | '(' expression followed by anything but ')' fails with "expected ')'" and leaves that token unread |
| Grammar.IdentifierExpr | main.cpp:120-148 | reads at least the identifier, and only tokens of its input |
| Grammar.IdentifierIsVariable | main.cpp:120-125 | an identifier not followed by '(' is a variable node holding the identifier's text |
| Grammar.CallAfter | main.cpp:127-147 | `f(` followed by ')' or by arguments closed by ')' is a call with those arguments, and the ')' is consumed |
| Grammar.Arguments | main.cpp:129-141 | on success it stops at ')', and the arguments read earlier stay in front in their order |
| Grammar.ArgumentFails | main.cpp:134-135 | a failing argument expression fails the argument loop with its diagnostic and the tokens it left |
| Grammar.ArgumentsAfter | main.cpp:132-141 | after an argument: ')' ends the list, ',' goes on, anything else fails with "Expected ')' or ',' in argument list" |
| Grammar.CallFails | main.cpp:132-139 | a failing argument list is the failure of the call and of the whole expression |
| Grammar.ParenExpr | main.cpp:156-165 | reads at least the '(' and only tokens of its input |
| Grammar.NumberExpr | main.cpp:114-118 | exactly one token is consumed and the number node holds the number the literal spells |
| Grammar.Primary | main.cpp:167-178 | an identifier, number or '(' is consumed; every other token gives "unknown token when expecting an expression" with nothing read |
| Grammar.TopLevelExpr | main.cpp:180-187 | succeeds exactly when the expression does, wrapping it in the prototype with name "" and no parameters |
| Grammar.Parameters | main.cpp:207-209 | the names of the maximal run of identifier tokens, in order; the token after them is not an identifier |
| Grammar.ParametersStep | main.cpp:208-209 | one round of the parameter loop appends the next identifier |
| Grammar.ParametersCons | main.cpp:208-209 | an identifier at the front is the first parameter |
| Grammar.ProtoDecl | main.cpp:199-217 | reads only tokens of its input, and at least one on success |
| Grammar.Definition | main.cpp:219-227 | always reads at least the `def`, and only tokens of its input |
| Grammar.DefinitionFails | main.cpp:222-226 | a failing prototype or body fails the definition with its diagnostic and the tokens it left, and a definition succeeds only when both do |
| Grammar.DefinitionAfter | main.cpp:219-227 | `def`, a parsed prototype and a parsed body give the function definition |
| Grammar.Recover | main.cpp:189-236 | a success records the definition (HandleDefinition) or the anonymous function (HandleTopLevelExpression) and keeps the tokens after it; a failure records its diagnostic and skips one more token |
| Grammar.RecoverProgresses | main.cpp:194-195 | each top-level construct, failed or not, reads at least one token |
| Grammar.Session | main.cpp:238-255 | MainLoop until EOF: every construct it records reads at least one token, so there are at most as many as tokens |
| Grammar.SessionEnds | main.cpp:242-243 | at TokenEof the read loop records nothing more |
| Grammar.SessionSemicolon | main.cpp:244-246 | a top-level ';' is skipped and records nothing |
| Grammar.SessionStep | main.cpp:238-255 | one round of the read loop records the construct, then the rest of the session follows from where it stopped |
| Parsing.Parser.constructor | main.cpp:56 | CurrentToken starts as 0 (the character '\0'), ahead of the whole token stream of the input |
| Parsing.Parser.GetNextToken | main.cpp:58-61 | the stream from CurrentToken on loses exactly its first token; the new CurrentToken is returned |
| Parsing.Parser.GetTokenPrecedence | main.cpp:65-72 | returns Precedence of CurrentToken |
| Parsing.Parser.ParseBinOpRHS | main.cpp:74-105 | the loop's result and the tokens it leaves are exactly BinOpRhs |
| Parsing.Parser.ParseRightOperand | main.cpp:88-99 | the operand and the tokens left are exactly RightOperand |
| Parsing.Parser.ParseExpression | main.cpp:107-112 | result and tokens left are exactly Expression |
| Parsing.Parser.ParseNumberExpr | main.cpp:114-118 | the number node holds the literal's value, and exactly one token is consumed |
| Parsing.Parser.ParseIdentifierExpression | main.cpp:120-148 | the argument loop gives exactly IdentifierExpr, its result and the tokens it leaves |
| Parsing.Parser.ParseParenthesesExpression | main.cpp:156-165 | result and tokens left are exactly ParenExpr |
| Parsing.Parser.ParsePrimary | main.cpp:167-178 | result and tokens left are exactly Primary |
| Parsing.Parser.ParseTopLevelExpr | main.cpp:180-187 | result and tokens left are exactly TopLevelExpr |
| Parsing.Parser.ParsePrototype | main.cpp:199-217 | result and tokens left are exactly ProtoDecl |
| Parsing.Parser.ParseParameters | main.cpp:207-209 | the parameter loop returns exactly Parameters and consumes exactly those identifiers |
| Parsing.Parser.ParseDefinition | main.cpp:219-227 | result and tokens left are exactly Definition |
| Parsing.Parser.HandleDefinition | main.cpp:229-236 | records the definition, or the diagnostic after skipping one more token, as Recover says |
| Parsing.Parser.HandleTopLevelExpression | main.cpp:189-197 | records the top-level expression, or the diagnostic after skipping one more token, as Recover says |
| Parsing.Parser.HandleNext | main.cpp:240-253 | one pass of the switch reads at least one token and records the next part of Session |
| Parsing.Parser.MainLoop | main.cpp:238-255 | runs until EOF, and what it records is exactly Session of the tokens it started with |
| Climbing.LoosestLast | main.cpp:77-104 | the root position of the reference tree lies inside the chain |
| Climbing.LoosestLastIsLoosest | main.cpp:77-104 | the root operator binds no tighter than any other operator, and more loosely than every operator after it |
| Climbing.LoosestLastIs | main.cpp:77-104 | that property determines the root |
| Climbing.TreeRoot | main.cpp:77-104 | one level of the reference tree |
| Climbing.FirstBelow | main.cpp:82 | where the loop stops: every operator before it binds at least minPrec, the one at it less |
| Climbing.FirstBelowIs | main.cpp:82 | those two properties determine where the loop stops |
| Climbing.Absorb | main.cpp:92-98 | a first operator looser than all after it is the root, and the right side is its operand with the tighter operators |
| Climbing.LoosestLastInSuffix | main.cpp:77-104 | when ps2's first operator is at most as tight as all of ps1, the root of ps1+ps2 lies in ps2 |
| Climbing.Collapse | main.cpp:77-104 | a prefix whose operators bind at least as tightly as the next operator folds first, and the rest builds on it |
| Climbing.TreeRootInSuffix | main.cpp:77-104 | one level of the reference tree when the root lies in the second part |
| Climbing.RoundTree | main.cpp:84-103 | one loop round (operator, tighter run absorbed, then the rest) builds the reference tree of the links it reads |
| Climbing.FirstBelowRound | main.cpp:82-97 | where a loop round stops in terms of the recursive call's stop and the outer loop's stop |
| Climbing.OperandPrimary | main.cpp:167-178 | ParsePrimary reads a printed operand (number, variable, call or parenthesised expression) back and stops before the next operator |
| Climbing.ClimbChain | main.cpp:74-105 | ParseBinOpRHS on a chain whose operands are numbers, variables, calls or parenthesised expressions reads the links up to the first operator below minPrec into the reference tree and leaves that operator as the lookahead |
| Climbing.ClimbRound | main.cpp:77-103 | one round of the loop on a chain, then the rest, gives the reference tree |
| Climbing.RoundTokens | main.cpp:84-99 | one round consumes the operator and the tighter operators its right operand absorbs |
| Climbing.OperandOnChain | main.cpp:88-99 | the right operand is the primary operand together with the following operators that bind tighter than the current one |
| Climbing.TighterOperand | main.cpp:94-98 | a tighter next operator is absorbed into the right operand by the recursive call |
| Climbing.LooserOperand | main.cpp:94-95 | a next operator that does not bind tighter leaves the primary operand alone as the right-hand side |
| Climbing.ExpressionOnChain | main.cpp:107-112 | ParseExpression reads a whole chain and returns the reference tree |
| Climbing.WholeChain | main.cpp:111 | ParseBinOpRHS at precedence 0 reads every link of a chain |
| Climbing.TreeKeepsOrder | main.cpp:101-103 | the reference tree keeps every operand and operator in source order; only the grouping is chosen |
| Climbing.ExpressionKeepsOrder | main.cpp:107-112 | the parsed expression, with its grouping dropped, is the tokens it was read from |
| Climbing.FoldLeftLast | main.cpp:101-103 | left folding puts the last operator at the root |
| Climbing.EqualPrecedenceFoldsLeft | main.cpp:82-95 | operators of one precedence associate to the left |
| Climbing.TwoOperators | main.cpp:92-98 | with two operators the right one is taken first exactly when it binds tighter |
| Printing.PrimaryRoundTrip | main.cpp:167-178 | ParsePrimary reads back any printed expression, whatever follows that is not '(' |
| Printing.BinaryRoundTrip | main.cpp:156-165 | a parenthesised binary node reads back to the same node |
| Printing.CallRoundTrip | main.cpp:120-148 | a printed call reads back with its arguments in order, zero arguments included |
| Printing.ArgumentsStart | main.cpp:130 | printed arguments never start with ')' |
| Printing.ArgumentsRoundTrip | main.cpp:129-141 | the argument loop reads printed arguments back in order and stops at ')' |
| Printing.LastArgumentRoundTrip | main.cpp:137 | the last argument is followed by ')', which ends the loop |
| Printing.MoreArgumentsRoundTrip | main.cpp:139-140 | an argument followed by ',' continues the loop with the others |
| Printing.ArgumentThenComma | main.cpp:139-140 | one argument and its ',' are consumed, and the argument is appended |
| Printing.ExpressionRoundTrip | main.cpp:107-112 | ParseExpression reads back any printed expression followed by a non-operator |
| Printing.RenderProper | main.cpp:25-54 | a printed expression with spellable names holds only tokens the lexer can produce |
| Printing.TextRoundTrip | main.cpp:107-112 | printing an expression as text, lexing it and parsing the tokens gives the expression back |
| Printing.TokensOfRender | main.cpp:25-54 | the lexer gives back the printed tokens of an expression |
| Prototypes.ProtoDeclErrors | main.cpp:199-217 | each of the three prototype diagnostics occurs exactly at its missing token and leaves the tokens from that token on, and success exactly when all are present, with the name and the parameter run |
| Prototypes.ParametersOfNames | main.cpp:207-209 | the parameter loop reads printed parameter names back in order, duplicates kept |
| Prototypes.ProtoDeclRoundTrip | main.cpp:199-217 | ParsePrototype reads a printed prototype back and stops right after ')' |
| Prototypes.DefinitionRoundTrip | main.cpp:219-227 | ParseDefinition reads `def`, a printed prototype and a printed body back |
| Examples.SumOfProduct | main.cpp:92-98 | `a+b*c` parses as `a+(b*c)` |
| Examples.ProductThenSum | main.cpp:92-98 | `a*b+c` parses as `(a*b)+c` |
| Examples.Subtractions | main.cpp:80-82 | `a-b-c` parses as `(a-b)-c` |
| Examples.NumbersSumOfProduct | main.cpp:74-118 | `1+2*3` parses as `1+(2*3)` with number operands |
| Examples.CallTimesThenSum | main.cpp:74-148 | `f(x)*y+z` parses as `(f(x)*y)+z` with the call as an operand |
| Examples.ParenthesesFirst | main.cpp:156-165 | `(a+b)*c` parses with the sum as the left operand |
| Examples.ParenthesizedSum | main.cpp:156-165 | `(a+b)` is one primary |
| Examples.TimesVariable | main.cpp:77-104 | `* c` after any left operand gives one product |
| Examples.SingleLink | main.cpp:101-103 | one operator and its operand make one binary node |
| Examples.CallWithArguments | main.cpp:127-147 | `foo(1, 2)` is a call with its two arguments in order |
| Examples.MissingSeparator | main.cpp:139 | `f(a b)` fails with "Expected ')' or ',' in argument list" at `b` |
| Examples.VariableThenVariable | main.cpp:132-139 | an argument followed by a token that neither separates nor closes fails at that token |
| Examples.UnknownStart | main.cpp:175-176 | `)` cannot start an expression |
| Examples.UnclosedPrototype | main.cpp:210-211 | `def foo(` fails with "Expected ')' in prototype" |
| Examples.TwoParameterDefinition | main.cpp:219-227 | `def f(a b) a+b` is the definition with parameters a, b and the sum as body |
| Examples.SumOfVariables | main.cpp:107-112 | `a+b` as a whole expression |
| Examples.TwoParameters | main.cpp:199-217 | `f(a b)` is the prototype with two parameters |
| Examples.SessionWithRecovery | main.cpp:238-255 | `) ; x` records the error and skips the ')', ignores the ';', and records `x` as an anonymous function |
| Examples.SemicolonThenVariable | main.cpp:244-246 | a top-level ';' is skipped |
| Examples.SessionOfVariable | main.cpp:180-187 | `x` alone is one anonymous top-level function |

## Left out

- Floating point: strtod and the double in NumberExprAST and numVal. A number token keeps its digits, and the number node keeps their integer value (`Lexical.Value`).
- GetChar is not defined in the source. It reads a fixed input string, and after the end it returns EOF again and again.
- identifierStr and numVal: the token carries the identifier's text or the number's digits itself, instead of a global beside the token code.
- The fprintf prompts and messages and the body of LogError/LogErrorP: a failure carries the diagnostic string in `Err`, and the read loop records what it handled (`Handled`) instead of printing it.
- llvm::make_unique and unique_ptr ownership: nodes are values of an inductive datatype, so every tree is finite and unshared.
- extern declarations: the source has none. Only `def` is a keyword and there is no extern parse function.
- The source spells several names more than one way: lastChar/LastChar, GetNextToken/getNextToken, CurrentToken/CurTok/currentToken, tok_eof/TokenEof/TokenEOF, identifierStr/IdName, tokenIdentifier/TokenIdentifier, numVal/NumVal, ParseIdentifierExpr/ParseParenExpr for the defined functions, FnName/ArgNames for functionName/argNames. Each group is one entity here.
- ParseNumberExpression (main.cpp:150-154) is the same as ParseNumberExpr (main.cpp:114-118), so it is modelled once, as `Parsing.Parser.ParseNumberExpr`.
- Character classes follow the "C" locale and ASCII. Non-ASCII characters are one-character tokens with precedence -1.
- Parsing.Parser.constructor: nothing in the source primes CurrentToken. It starts as 0, the character '\0', and a caller must call GetNextToken before parsing. Without that call, MainLoop treats '\0' as a failed top-level expression and skips it.
- Parsing.Parser.ParseBinOpRHS: requires a precedence of at least 0. The source only calls it with 0 and with an operator's precedence plus 1. A negative precedence would make the loop take tokens that are not operators.
- Parsing.Parser.ParseRightOperand, Parsing.Parser.ParseParameters and Parsing.Parser.HandleNext are parts of ParseBinOpRHS, ParsePrototype and MainLoop, split out as methods of their own. The source has no functions of these names.
- The BinopPrecedence table is a constructor parameter. The source never fills it, so the chain theorems and the examples hold for every table that ranks the operators as stated.
- Printing.PrimaryRoundTrip: holds for printed output that puts every binary node in parentheses, with ')' and ',' not used as operators.

## Findings

| source | as written | input that shows it | evidently intended | confidence | as-written member | corrected member |
|---|---|---|---|---|---|---|
| AST.h:17 | the VariableExprAST constructor has an empty body, so the name member stays empty | the identifiers `a` and `b` (main.cpp:125) give the same node, with the empty name | initialise the name member from the argument, `name(name)` | not executed | Ast.VariableNodeAsWrittenLosesName | Ast.VariableNodeKeepsName |
