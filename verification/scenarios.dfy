/**
 * Concrete inputs worked through the model: the inputs of the parser tests
 * of src/parser.cpp, and short inputs that show the lexer's behaviour,
 * including where it parts from the lexer test of src/lexer.cpp.
 */
module Scenarios {
  import opened Wrappers
  import opened Tokens
  import opened Lexing
  import opened Ast
  import opened ParseSpec

  // ---- The lexer on short inputs ----

  /** A one-letter identifier not followed by a letter: the call yields it and consumes the character after it. */
  lemma LetterAt(input: string, p: nat)
    requires p < |input| && IsAlpha(input[p]) && !IsLetter(CharAt(input, p + 1))
    ensures Scan(input, p) == (Token(TokenType.Identifier, [input[p]]), p + 2)
  {
    IdentEndUnique(input, p, p + 1);
    assert IdentWord(input, p) == [input[p]];
    LookupKeywordIsKeyword([input[p]]);
  }

  /** A number of two digits is two integer tokens; the lexer test expects the single token "10". */
  lemma LexTwoDigits()
    ensures TokensFrom("10", 0) == [Token(Integer, "1"), Token(Integer, "0")]
  {
    var input := "10";
    ScanDigit(input, 0);
    TokensFromStep(input, 0, Token(Integer, "1"), 1);
    ScanDigit(input, 1);
    TokensFromStep(input, 1, Token(Integer, "0"), 2);
    ScanPastEnd(input, 2);
  }

  /** The character right after an identifier is lost: `x+` is just the identifier. */
  lemma LexIdentifierSwallowsNext()
    ensures TokensFrom("x+", 0) == [Token(TokenType.Identifier, "x")]
  {
    var input := "x+";
    LetterAt(input, 0);
    TokensFromStep(input, 0, Token(TokenType.Identifier, "x"), 2);
    ScanPastEnd(input, 2);
  }

  /** A NUL right after an identifier is consumed with it, so lexing goes on past it: letter, NUL, letter is two identifiers. */
  lemma LexNulAfterIdentifier(a: char, b: char)
    requires IsAlpha(a) && IsAlpha(b)
    ensures TokensFrom([a, NUL, b], 0) == [Token(TokenType.Identifier, [a]), Token(TokenType.Identifier, [b])]
  {
    var input := [a, NUL, b];
    LetterAt(input, 0);
    TokensFromStep(input, 0, Token(TokenType.Identifier, [a]), 2);
    LetterAt(input, 2);
    TokensFromStep(input, 2, Token(TokenType.Identifier, [b]), 4);
    ScanPastEnd(input, 4);
  }

  /** `==` is two assignments and `!` is illegal: there are no two-character operators. */
  lemma LexNoEqualOperator()
    ensures TokensFrom("==", 0) == [Token(Assign, "="), Token(Assign, "=")]
    ensures TokensFrom("!", 0) == [Token(Illegal, "!")]
  {
    assert Scan("==", 0) == (Token(Assign, "="), 1);
    TokensFromStep("==", 0, Token(Assign, "="), 1);
    assert Scan("==", 1) == (Token(Assign, "="), 2);
    TokensFromStep("==", 1, Token(Assign, "="), 2);
    ScanPastEnd("==", 2);
    assert Scan("!", 0) == (Token(Illegal, "!"), 1);
    TokensFromStep("!", 0, Token(Illegal, "!"), 1);
    ScanPastEnd("!", 1);
  }

  /** An identifier cannot start with an underscore: `_x` is an illegal `_` and then `x`. */
  lemma LexLeadingUnderscore()
    ensures TokensFrom("_x", 0) == [Token(Illegal, "_"), Token(TokenType.Identifier, "x")]
  {
    var input := "_x";
    assert Scan(input, 0) == (Token(Illegal, "_"), 1);
    TokensFromStep(input, 0, Token(Illegal, "_"), 1);
    LetterAt(input, 1);
    TokensFromStep(input, 1, Token(TokenType.Identifier, "x"), 3);
    ScanPastEnd(input, 3);
  }

  /** Only one blank is skipped per call, and a tab is not skipped at all. */
  lemma LexBlanks()
    ensures TokensFrom("  ;", 0) == [Token(Illegal, " "), Token(Semicolon, ";")]
    ensures TokensFrom("\t;", 0) == [Token(Illegal, "\t"), Token(Semicolon, ";")]
  {
    assert Scan("  ;", 0) == (Token(Illegal, " "), 2);
    TokensFromStep("  ;", 0, Token(Illegal, " "), 2);
    assert Scan("  ;", 2) == (Token(Semicolon, ";"), 3);
    TokensFromStep("  ;", 2, Token(Semicolon, ";"), 3);
    ScanPastEnd("  ;", 3);
    assert Scan("\t;", 0) == (Token(Illegal, "\t"), 1);
    TokensFromStep("\t;", 0, Token(Illegal, "\t"), 1);
    assert Scan("\t;", 1) == (Token(Semicolon, ";"), 2);
    TokensFromStep("\t;", 1, Token(Semicolon, ";"), 2);
    ScanPastEnd("\t;", 2);
  }

  // ---- Rendering ----

  /** The rendering test: a program of `let myVar = anotherVar` renders as "let myVar = anotherVar;". */
  lemma RenderLetMyVar()
    ensures var name := Identifier.Identifier(Token(TokenType.Identifier, "myVar"), "myVar");
            var value := Identifier.Identifier(Token(TokenType.Identifier, "anotherVar"), "anotherVar");
            var p := Program([NewLetStatement(Some(name), Some(Ident(value)))]);
            AllRenderable(p.statements) && ProgramString(p) == "let myVar = anotherVar;"
  {
    var name := Identifier.Identifier(Token(TokenType.Identifier, "myVar"), "myVar");
    var value := Identifier.Identifier(Token(TokenType.Identifier, "anotherVar"), "anotherVar");
    NewLetStatementString(name, Some(Ident(value)));
  }

  // ---- The parser tests, for every input of their shape ----

  /** The tokens of `let <name> = <value>;`. */
  function LetTokens(name: Token, value: seq<Token>): seq<Token>
  {
    [Token(Let, "let"), name, Token(Assign, "=")] + value + [Token(Semicolon, ";")]
  }

  /** Let statements one after the other, as in the let test's input. */
  function LetsTokens(names: seq<Token>, values: seq<seq<Token>>): seq<Token>
    requires |names| == |values|
  {
    if names == [] then [] else LetTokens(names[0], values[0]) + LetsTokens(names[1..], values[1..])
  }

  /** The let statement the parser builds for `let <name> = ...;`. */
  function NamedLet(name: Token): Statement
  {
    LetStatement(Token(Let, "let"), Some(Identifier.Identifier(name, name.literal)), None)
  }

  /** One let statement per name, in order. */
  function NamedLets(names: seq<Token>): (ss: seq<Statement>)
    ensures |ss| == |names| && forall i :: 0 <= i < |names| ==> ss[i] == NamedLet(names[i])
  {
    if names == [] then [] else [NamedLet(names[0])] + NamedLets(names[1..])
  }

  predicate NoSemicolon(value: seq<Token>)
  {
    forall i :: 0 <= i < |value| ==> value[i].kind != Semicolon
  }

  /**
   * What the let test checks, for any number of statements: one let statement
   * per `let`, in order, each named by its identifier (name and token literal
   * alike), and no diagnostic; the program's token literal is then "let".
   */
  lemma {:induction false} ParseLets(names: seq<Token>, values: seq<seq<Token>>, fns: map<TokenType, PrefixFn>)
    requires |names| == |values|
    requires forall i :: 0 <= i < |names| ==> names[i].kind == TokenType.Identifier
    requires forall i :: 0 <= i < |values| ==> NoSemicolon(values[i])
    ensures ParseTokens(LetsTokens(names, values), fns) == Parsed(NamedLets(names), [])
    ensures names != [] ==> ProgramTokenLiteral(Program(NamedLets(names))) == "let"
  {
    if names != [] {
      var rest := LetsTokens(names[1..], values[1..]);
      ParseLets(names[1..], values[1..], fns);
      assert NoSemicolon(values[0]);
      ParseLetThen(Token(Let, "let"), names[0], Token(Assign, "="), values[0], Token(Semicolon, ";"), rest, fns);
      assert LetsTokens(names, values) == [Token(Let, "let"), names[0], Token(Assign, "=")] + values[0] + [Token(Semicolon, ";")] + rest;
    }
  }

  /** The tokens of `return <value>;`. */
  function ReturnTokens(value: seq<Token>): seq<Token>
  {
    [Token(Return, "return")] + value + [Token(Semicolon, ";")]
  }

  /** Return statements one after the other, as in the return test's input. */
  function ReturnsTokens(values: seq<seq<Token>>): seq<Token>
  {
    if values == [] then [] else ReturnTokens(values[0]) + ReturnsTokens(values[1..])
  }

  /** `n` return statements, each spelled `return`, none with a value. */
  function BareReturns(n: nat): (ss: seq<Statement>)
    ensures |ss| == n && forall i :: 0 <= i < n ==> ss[i] == ReturnStatement(Token(Return, "return"), None)
  {
    if n == 0 then [] else [ReturnStatement(Token(Return, "return"), None)] + BareReturns(n - 1)
  }

  /**
   * What the return test checks, for any number of statements: one return
   * statement per `return`, each with the token literal "return", and no
   * diagnostic. The value is skipped, never parsed.
   */
  lemma {:induction false} ParseReturns(values: seq<seq<Token>>, fns: map<TokenType, PrefixFn>)
    requires forall i :: 0 <= i < |values| ==> NoSemicolon(values[i])
    ensures ParseTokens(ReturnsTokens(values), fns) == Parsed(BareReturns(|values|), [])
  {
    if values != [] {
      var rest := ReturnsTokens(values[1..]);
      ParseReturns(values[1..], fns);
      assert NoSemicolon(values[0]);
      ParseReturnThen(Token(Return, "return"), values[0], Token(Semicolon, ";"), rest, fns);
    }
  }

  /** The identifier test: `foobar` is one expression statement holding the identifier `foobar`. */
  lemma ParseIdentifierTest()
    ensures var t := Token(TokenType.Identifier, "foobar");
            ParseTokens(TokensFrom("foobar", 0), StandardPrefixFns) ==
              Parsed([ExpressionStatement(t, Some(Ident(Identifier.Identifier(t, "foobar"))))], [])
  {
    var t := Token(TokenType.Identifier, "foobar");
    LookupKeywordIsKeyword("foobar");
    TokensFromWord("foobar");
    ParseTokensExpressions([t], StandardPrefixFns);
    StandardPrefixParse(t);
  }
}
