// The lexical structure of the language: tokens, character classes, and the
// specification of one GetToken call (main.cpp:11-54) as a function from the
// characters not yet consumed to a token and the characters left over.

module Lexical {

  /** The token codes of main.cpp.  The source returns an int: a negative
      code for the named tokens, the character's own code otherwise, and
      leaves an identifier's text in identifierStr and a number's value in
      numVal.  Here the token carries that text itself. */
  datatype Token =
    | TokenEof
    | TokenDef
    | TokenIdentifier(text: string)
    | TokenNumber(digits: string)
    | TokenChar(c: char)

  // Character classes of <cctype> in the "C" locale.

  predicate IsSpace(c: char)
  {
    c == ' ' || c == '\t' || c == '\n' || c == '\U{000B}' || c == '\U{000C}' || c == '\r'
  }

  predicate IsAlpha(c: char)
  {
    'a' <= c <= 'z' || 'A' <= c <= 'Z'
  }

  predicate IsDigit(c: char)
  {
    '0' <= c <= '9'
  }

  predicate IsAlnum(c: char)
  {
    IsAlpha(c) || IsDigit(c)
  }

  predicate IsAscii(c: char)
  {
    (c as int) < 128
  }

  predicate AllSpace(s: string)
  {
    forall i :: 0 <= i < |s| ==> IsSpace(s[i])
  }

  /** The three classes that the lexer's loops test. */
  datatype CharClass = Space | Alnum | Digit

  predicate InClass(k: CharClass, c: char)
  {
    match k
    case Space => IsSpace(c)
    case Alnum => IsAlnum(c)
    case Digit => IsDigit(c)
  }

  /** The length of the longest prefix of s whose characters are all in class k. */
  function Run(s: string, k: CharClass): (n: nat)
    ensures n <= |s|
    ensures forall i :: 0 <= i < n ==> InClass(k, s[i])
    ensures n == |s| || !InClass(k, s[n])
  {
    if s == [] || !InClass(k, s[0]) then 0 else 1 + Run(s[1..], k)
  }

  /** The source text of a token. */
  function Spelling(t: Token): string
  {
    match t
    case TokenEof => ""
    case TokenDef => "def"
    case TokenIdentifier(text) => text
    case TokenNumber(digits) => digits
    case TokenChar(c) => [c]
  }

  /** A letter followed by letters and digits. */
  predicate IsWord(s: string)
  {
    |s| > 0 && IsAlpha(s[0]) && forall i :: 0 <= i < |s| ==> IsAlnum(s[i])
  }

  /** A non-empty run of digits. */
  predicate IsNumeral(s: string)
  {
    |s| > 0 && forall i :: 0 <= i < |s| ==> IsDigit(s[i])
  }

  /** The tokens GetToken can return. */
  predicate WellFormed(t: Token)
  {
    match t
    case TokenEof => true
    case TokenDef => true
    case TokenIdentifier(text) => IsWord(text) && text != "def"
    case TokenNumber(digits) => IsNumeral(digits)
    case TokenChar(c) => !IsSpace(c) && !IsAlnum(c)
  }

  /** Whether character c, read right after token t, ends t's run. */
  predicate Ends(t: Token, c: char)
  {
    match t
    case TokenDef => !IsAlnum(c)
    case TokenIdentifier(_) => !IsAlnum(c)
    case TokenNumber(_) => !IsDigit(c)
    case _ => true
  }

  datatype Lexed = Lexed(token: Token, rest: string)

  /** The longest run of letters and digits at the start of t, which starts
      with a letter: TokenDef when it spells "def", an identifier otherwise. */
  function LexWord(t: string): (r: Lexed)
    requires t != [] && IsAlpha(t[0])
    ensures t == Spelling(r.token) + r.rest
    ensures r.token.TokenDef? || r.token.TokenIdentifier?
    ensures WellFormed(r.token)
    ensures r.rest != [] ==> Ends(r.token, r.rest[0])
  {
    var n := Run(t, Alnum);
    var word := t[..n];
    assert t == word + t[n..];
    Lexed(if word == "def" then TokenDef else TokenIdentifier(word), t[n..])
  }

  /** The longest run of digits at the start of t, which starts with a digit. */
  function LexNumber(t: string): (r: Lexed)
    requires t != [] && IsDigit(t[0])
    ensures t == Spelling(r.token) + r.rest
    ensures r.token.TokenNumber?
    ensures WellFormed(r.token)
    ensures r.rest != [] ==> Ends(r.token, r.rest[0])
  {
    var n := Run(t, Digit);
    assert t == t[..n] + t[n..];
    Lexed(TokenNumber(t[..n]), t[n..])
  }

  /** The token at the start of t, which does not start with whitespace: a
      letter starts the longest run of letters and digits, which is TokenDef
      when it spells "def"; a digit starts the longest run of digits (a '.'
      is not part of it); no character left gives TokenEof; any other
      character is a token by itself. */
  function LexToken(t: string): (r: Lexed)
    requires t == [] || !IsSpace(t[0])
    ensures t == Spelling(r.token) + r.rest
    ensures r.token == TokenEof <==> t == []
    ensures r.token == TokenEof ==> r.rest == []
    ensures WellFormed(r.token)
    ensures r.rest != [] ==> Ends(r.token, r.rest[0])
  {
    if t == [] then Lexed(TokenEof, [])
    else if IsAlpha(t[0]) then LexWord(t)
    else if IsDigit(t[0]) then LexNumber(t)
    else assert t == [t[0]] + t[1..]; Lexed(TokenChar(t[0]), t[1..])
  }

  /** One GetToken call on the pending characters s: skip whitespace, then
      read one token. */
  function Lex(s: string): (r: Lexed)
    // whitespace is skipped, and every other character read is either in the
    // token or still pending: nothing is lost and nothing is read twice
    ensures s[Run(s, Space)..] == Spelling(r.token) + r.rest
    ensures AllSpace(s[..Run(s, Space)])
    ensures r.token == TokenEof <==> AllSpace(s)
    ensures r.token == TokenEof ==> r.rest == []
    ensures r.token != TokenEof ==> |r.rest| < |s|
    ensures WellFormed(r.token)
    // identifier and number runs are maximal
    ensures r.rest != [] ==> Ends(r.token, r.rest[0])
  {
    var r := LexToken(s[Run(s, Space)..]);
    SpellingNonEmpty(r.token);
    LexEof(s, r);
    r
  }

  lemma SpellingNonEmpty(t: Token)
    requires WellFormed(t)
    ensures t != TokenEof ==> |Spelling(t)| > 0
  {
  }

  lemma AppendAssociative<T>(a: seq<T>, b: seq<T>, c: seq<T>)
    ensures a + (b + c) == (a + b) + c
  {
  }

  /** Lex finds no token exactly when only whitespace is left. */
  lemma LexEof(s: string, r: Lexed)
    requires r == LexToken(s[Run(s, Space)..])
    ensures r.token == TokenEof <==> AllSpace(s)
  {
  }

  /** A leading whitespace character does not change the next token. */
  lemma LexSkipsSpace(s: string)
    requires s != [] && IsSpace(s[0])
    ensures Lex(s) == Lex(s[1..])
  {
    assert Run(s, Space) == 1 + Run(s[1..], Space);
    assert s[Run(s, Space)..] == s[1..][Run(s[1..], Space)..];
  }

  /** Run is determined by its two properties. */
  lemma RunIs(s: string, k: CharClass, n: nat)
    requires n <= |s|
    requires forall i :: 0 <= i < n ==> InClass(k, s[i])
    requires n == |s| || !InClass(k, s[n])
    ensures Run(s, k) == n
  {
  }

  /** LexWord and LexNumber read back the spelling of a word or number token. */
  lemma LexRunOfSpelling(t: Token, rest: string)
    requires WellFormed(t) && (t.TokenDef? || t.TokenIdentifier? || t.TokenNumber?)
    requires rest != [] ==> Ends(t, rest[0])
    ensures t.TokenNumber? ==> LexNumber(Spelling(t) + rest) == Lexed(t, rest)
    ensures !t.TokenNumber? ==> LexWord(Spelling(t) + rest) == Lexed(t, rest)
  {
    var w := Spelling(t);
    var u := w + rest;
    assert u[..|w|] == w && u[|w|..] == rest;
    if t.TokenNumber? {
      RunIs(u, Digit, |w|);
    } else {
      RunIs(u, Alnum, |w|);
    }
  }

  /** Once the whitespace is skipped, the first character decides the token. */
  lemma LexAfterSpace(s: string)
    requires s == [] || !IsSpace(s[0])
    ensures s == [] ==> Lex(s) == Lexed(TokenEof, [])
    ensures s != [] && IsAlpha(s[0]) ==> Lex(s) == LexWord(s)
    ensures s != [] && IsDigit(s[0]) ==> Lex(s) == LexNumber(s)
    ensures s != [] && !IsAlnum(s[0]) ==> Lex(s) == Lexed(TokenChar(s[0]), s[1..])
  {
    RunIs(s, Space, 0);
    assert s[0..] == s;
  }

  /** Inverse of Lex: blanks, then the spelling of a well-formed token, then
      a character that ends its run, lex back to that token. */
  lemma LexOfSpelling(blank: string, t: Token, rest: string)
    requires AllSpace(blank)
    requires WellFormed(t) && t != TokenEof
    requires rest != [] ==> Ends(t, rest[0])
    ensures Lex(blank + Spelling(t) + rest) == Lexed(t, rest)
  {
    var w := Spelling(t);
    var u := w + rest;
    var s := blank + u;
    assert blank + Spelling(t) + rest == s;
    assert s[|blank|] == w[0];
    assert !IsSpace(w[0]) by {
      match t
      case TokenDef =>
      case TokenIdentifier(_) =>
      case TokenNumber(_) =>
      case TokenChar(_) =>
    }
    RunIs(s, Space, |blank|);
    assert s[|blank|..] == u;
    if !t.TokenChar? {
      LexRunOfSpelling(t, rest);
    } else {
      assert u[1..] == rest;
    }
  }

  /** The tokens that successive GetToken calls return from s, up to and not
      including the first TokenEof (after which GetToken returns TokenEof
      again and again). */
  function Tokens(s: string): (ts: seq<Token>)
    // every token reads at least one character, and only a blank input has none
    ensures |ts| <= |s|
    ensures ts == [] <==> AllSpace(s)
    decreases |s|
  {
    var r := Lex(s);
    if r.token == TokenEof then [] else [r.token] + Tokens(r.rest)
  }

  /** Tokens that GetToken can return before the end of the input. */
  predicate Proper(ts: seq<Token>)
  {
    forall i :: 0 <= i < |ts| ==> ts[i] != TokenEof && WellFormed(ts[i])
  }

  /** The stream holds no TokenEof, and only tokens GetToken can return. */
  lemma {:induction false} TokensProper(s: string)
    ensures Proper(Tokens(s))
    decreases |s|
  {
    var r := Lex(s);
    TokensStep(s);
    if r.token != TokenEof {
      TokensProper(r.rest);
      ProperCons(r.token, Tokens(r.rest));
    }
  }

  lemma ProperCons(t: Token, ts: seq<Token>)
    requires t != TokenEof && WellFormed(t) && Proper(ts)
    ensures Proper([t] + ts)
  {
    assert forall i :: 1 <= i < |[t] + ts| ==> ([t] + ts)[i] == ts[i - 1];
  }

  lemma ProperTail(ts: seq<Token>)
    requires ts != [] && Proper(ts)
    ensures Proper(ts[1..])
  {
    assert forall i :: 0 <= i < |ts[1..]| ==> ts[1..][i] == ts[i + 1];
  }

  /** Moving the first element of p to the end of a. */
  lemma ShiftFirst<T>(a: seq<T>, p: seq<T>)
    requires p != []
    ensures a + p == (a + [p[0]]) + p[1..]
  {
  }

  lemma HeadTail<T>(s: seq<T>)
    requires s != []
    ensures [s[0]] + s[1..] == s
  {
  }

  /** What one GetToken call adds to the stream. */
  lemma TokensStep(s: string)
    ensures Lex(s).token == TokenEof ==> Tokens(s) == [] && Tokens(Lex(s).rest) == []
    ensures Lex(s).token != TokenEof ==> Tokens(s) == [Lex(s).token] + Tokens(Lex(s).rest)
  {
    var r := Lex(s);
    if r.token == TokenEof {
      assert AllSpace(r.rest);
    }
  }

  /** Source text for a token sequence: the spellings separated by blanks. */
  function Text(ts: seq<Token>): string
  {
    if ts == [] then "" else Spelling(ts[0]) + " " + Text(ts[1..])
  }

  /** A leading whitespace character does not change the token stream. */
  lemma TokensSkipSpace(s: string)
    requires s != [] && IsSpace(s[0])
    ensures Tokens(s) == Tokens(s[1..])
  {
    LexSkipsSpace(s);
  }

  /** The blank that the lexer starts with adds no token. */
  lemma TokensAfterBlank(s: string)
    ensures Tokens([' '] + s) == Tokens(s)
  {
    assert ([' '] + s)[1..] == s;
    TokensSkipSpace([' '] + s);
  }

  /** Lexing the text of a sequence of well-formed tokens gives the same
      tokens back. */
  lemma {:induction false} TokensOfText(ts: seq<Token>)
    requires Proper(ts)
    ensures Tokens(Text(ts)) == ts
  {
    if ts == [] {
      assert AllSpace(Text(ts));
    } else {
      var more := Text(ts[1..]);
      var tail := " " + more;
      var text := Text(ts);
      assert text == [] + Spelling(ts[0]) + tail;
      LexOfSpelling([], ts[0], tail);
      TokensStep(text);
      assert tail[1..] == more;
      TokensSkipSpace(tail);
      ProperTail(ts);
      TokensOfText(ts[1..]);
      HeadTail(ts);
    }
  }

  // Number literals.  The source converts the digits with strtod; the model
  // keeps their integer value.

  function DigitValue(c: char): nat
  {
    if IsDigit(c) then c as int - '0' as int else 0
  }

  function DigitChar(d: nat): char
    requires d < 10
  {
    ('0' as int + d) as char
  }

  /** The value of a decimal numeral. */
  function Value(digits: string): (v: nat)
    // the last digit is the units digit
    ensures digits != [] ==> v % 10 == DigitValue(digits[|digits| - 1])
  {
    if digits == [] then 0 else Value(digits[..|digits| - 1]) * 10 + DigitValue(digits[|digits| - 1])
  }

  /** The decimal numeral of n, without leading zeros. */
  function Numeral(n: nat): (s: string)
    ensures IsNumeral(s)
  {
    if n < 10 then [DigitChar(n)] else Numeral(n / 10) + [DigitChar(n % 10)]
  }

  /** Leading zeros do not change the value of a numeral. */
  lemma {:induction false} LeadingZero(digits: string)
    ensures Value("0" + digits) == Value(digits)
  {
    var s := "0" + digits;
    if digits != [] {
      assert s[..|s| - 1] == "0" + digits[..|digits| - 1];
      LeadingZero(digits[..|digits| - 1]);
    } else {
      assert s[..|s| - 1] == [];
    }
  }

  lemma {:induction false} ValueOfNumeral(n: nat)
    ensures Value(Numeral(n)) == n
  {
    var s := Numeral(n);
    if n >= 10 {
      assert s[..|s| - 1] == Numeral(n / 10);
      ValueOfNumeral(n / 10);
    }
  }
}
