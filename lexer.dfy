// The lexer of main.cpp:22-54 as an object: GetToken's static lastChar
// becomes a field, and the undefined GetChar reads a fixed input sequence.

module Lexing {
  import opened Lexical

  /** What GetChar last returned: a character, or EOF once the input is exhausted. */
  datatype Lookahead = EndOfInput | Ch(c: char)

  class Lexer {
    /** The characters GetChar delivers, in order. */
    const input: string
    /** How many of them GetChar has delivered so far. */
    var cursor: nat
    /** GetToken's lookahead: read by GetChar but not yet part of a token. */
    var lastChar: Lookahead

    ghost predicate Valid()
      reads this
    {
      cursor <= |input| && (lastChar == EndOfInput ==> cursor == |input|)
    }

    /** The characters that have not gone into a token yet: the lookahead,
        then what GetChar has still to deliver. */
    ghost function Pending(): string
      reads this
      requires Valid()
    {
      (if lastChar.Ch? then [lastChar.c] else []) + input[cursor..]
    }

    /** lastChar starts out as a blank. */
    constructor (input: string)
      ensures Valid()
      ensures this.input == input && cursor == 0
      ensures Pending() == [' '] + input
    {
      this.input := input;
      cursor := 0;
      lastChar := Ch(' ');
    }

    /** GetChar: the next input character, or EOF (again and again) at the end. */
    method GetChar()
      requires Valid()
      modifies this
      ensures Valid()
      ensures lastChar == if old(cursor) < |input| then Ch(input[old(cursor)]) else EndOfInput
      ensures old(lastChar).Ch? ==> Pending() == old(Pending())[1..]
      ensures old(lastChar) == EndOfInput ==> Pending() == []
    {
      if cursor < |input| {
        lastChar := Ch(input[cursor]);
        cursor := cursor + 1;
      } else {
        lastChar := EndOfInput;
      }
    }

    /** The identifier loop of GetToken (main.cpp:30-31): the longest run of
        letters and digits, starting at the letter in lastChar. */
    method ScanIdentifier() returns (identifierStr: string)
      requires Valid() && lastChar.Ch? && IsAlpha(lastChar.c)
      modifies this
      ensures Valid()
      ensures old(Pending()) == identifierStr + Pending()
      ensures IsWord(identifierStr)
      ensures Pending() != [] ==> !IsAlnum(Pending()[0])
    {
      identifierStr := [lastChar.c];
      GetChar();
      while lastChar.Ch? && IsAlnum(lastChar.c)
        invariant Valid()
        invariant old(Pending()) == identifierStr + Pending()
        invariant IsWord(identifierStr)
        decreases |Pending()|
      {
        ShiftFirst(identifierStr, Pending());
        identifierStr := identifierStr + [lastChar.c];
        GetChar();
      }
    }

    /** The number loop of GetToken (main.cpp:39-43): the longest run of
        digits, starting at the digit in lastChar. */
    method ScanNumber() returns (numStr: string)
      requires Valid() && lastChar.Ch? && IsDigit(lastChar.c)
      modifies this
      ensures Valid()
      ensures old(Pending()) == numStr + Pending()
      ensures IsNumeral(numStr)
      ensures Pending() != [] ==> !IsDigit(Pending()[0])
    {
      numStr := [];
      while true
        invariant Valid()
        invariant old(Pending()) == numStr + Pending()
        invariant forall i :: 0 <= i < |numStr| ==> IsDigit(numStr[i])
        invariant lastChar.Ch? && IsDigit(lastChar.c)
        decreases |Pending()|
      {
        ShiftFirst(numStr, Pending());
        numStr := numStr + [lastChar.c];
        GetChar();
        if !(lastChar.Ch? && IsDigit(lastChar.c)) {
          break;
        }
      }
    }

    /** GetToken (main.cpp:25-54). */
    method GetToken() returns (t: Token)
      requires Valid()
      modifies this
      ensures Valid()
      ensures Lexed(t, Pending()) == Lex(old(Pending()))
    {
      while lastChar.Ch? && IsSpace(lastChar.c)
        invariant Valid()
        invariant Lex(Pending()) == Lex(old(Pending()))
        decreases |Pending()|
      {
        LexSkipsSpace(Pending());
        GetChar();
      }
      ghost var start := Pending();
      LexAfterSpace(start);

      if lastChar.Ch? && IsAlpha(lastChar.c) {
        var identifierStr := ScanIdentifier();
        t := if identifierStr == "def" then TokenDef else TokenIdentifier(identifierStr);
        LexRunOfSpelling(t, Pending());
        return t;
      }

      if lastChar.Ch? && IsDigit(lastChar.c) {
        var numStr := ScanNumber();
        t := TokenNumber(numStr);
        LexRunOfSpelling(t, Pending());
        return t;
      }

      if lastChar == EndOfInput {
        return TokenEof;
      }

      var thisChar := lastChar.c;
      GetChar();
      return TokenChar(thisChar);
    }
  }
}
