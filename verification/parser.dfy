/**
 * The parser of src/parser.cpp: it owns a lexer, buffers the current and the
 * next token, records diagnostics, and keeps prefix and infix handler tables.
 * Each method is proved against the token-sequence reference of ParseSpec,
 * through `Ahead()`, the non-eof tokens still to be seen from the current one.
 */
module Parsing {
  import opened Wrappers
  import opened Tokens
  import opened Lexing
  import opened Ast
  import opened ParseSpec

  class Parser {
    const lexer: Lexer
    var cur: Token
    var peek: Token
    var errors: seq<ParseError>
    var prefixFns: map<TokenType, PrefixFn>
    var infixFns: map<TokenType, InfixFn>

    /** Where the lexer stood when the parser was built. */
    ghost const start: nat
    /** Every token the lexer yields from there, up to the first eof. */
    ghost const stream: seq<Token>
    /** The lexer's cursor before each of those tokens, and before the eof. */
    ghost const cursors: seq<nat>
    /** The index in `stream` of the current token; `|stream|` once it is eof. */
    ghost var at: nat

    /**
     * The lexer is consistent, its input has no NUL byte, and the parser's
     * tokens and the lexer's cursor form a `Window` over the stream.
     */
    ghost predicate Valid()
      reads this`cur, this`peek, this`at, lexer
    {
      && lexer.Valid()
      && NoNul(lexer.input)
      && Window(lexer.input, stream, cursors, at, cur, peek, lexer.position)
    }

    /** The tokens still to be seen, from the current one, up to (not including) eof. */
    ghost function Ahead(): (ts: seq<Token>)
      reads this`at
    {
      if at <= |stream| then stream[at..] else []
    }

    /** What is ahead starts with the current token and then the next one, and is empty at eof. */
    lemma AheadStartsWithCurrent()
      requires Valid()
      ensures Ahead() == [] <==> cur.kind == Eof
      ensures Ahead() != [] ==> Ahead()[0] == cur
      ensures KindAt(Ahead(), 1) == peek.kind
    {
    }

    /** The constructor: copy the lexer, pull two tokens, register the identifier handler. */
    constructor (source: Lexer)
      requires source.Valid() && NoNul(source.input)
      ensures Valid()
      ensures fresh(lexer) && lexer.input == source.input
      ensures Ahead() == TokensFrom(source.input, source.position)
      ensures errors == [] && prefixFns == StandardPrefixFns && infixFns == map[]
    {
      lexer := new Lexer.Copy(source);
      cur := DefaultToken();
      peek := DefaultToken();
      errors := [];
      prefixFns := map[];
      infixFns := map[];
      start := source.position;
      stream := TokensFrom(source.input, source.position);
      cursors := Cursors(source.input, source.position);
      // no position in the stream until the first two tokens are read
      at := |TokensFrom(source.input, source.position)| + 1;
      new;
      assert !Valid();
      NextToken();
      ghost var (t0, p1) := (peek, lexer.position);
      assert !Valid();
      NextToken();
      FirstWindow(lexer.input, start, t0, p1, peek, lexer.position);
      at := 0;
      RegisterPrefix(TokenType.Identifier, ParseIdentifierFn);
    }

    /** `parseIdentifier`: reads the current token, changes nothing. */
    function ParseIdentifier(): (e: Expression)
      reads this
      ensures ExpressionString(e) == cur.literal && ExpressionTokenLiteral(e) == cur.literal
    {
      IdentifierExpression(cur)
    }

    /** `emplace`: a kind that already has a handler keeps it. */
    method RegisterPrefix(t: TokenType, fn: PrefixFn)
      modifies this`prefixFns
      ensures prefixFns == if t in old(prefixFns) then old(prefixFns) else old(prefixFns)[t := fn]
    {
      if t !in prefixFns {
        prefixFns := prefixFns[t := fn];
      }
    }

    method RegisterInfix(t: TokenType, fn: InfixFn)
      modifies this`infixFns
      ensures infixFns == if t in old(infixFns) then old(infixFns) else old(infixFns)[t := fn]
    {
      if t !in infixFns {
        infixFns := infixFns[t := fn];
      }
    }

    /** Moves the next token into the current one and pulls exactly one token from the lexer. */
    method NextToken()
      requires lexer.Valid()
      modifies this, lexer
      ensures lexer.Valid()
      ensures cur == old(peek)
      ensures (peek, lexer.position) == Scan(lexer.input, old(lexer.position))
      ensures errors == old(errors) && prefixFns == old(prefixFns) && infixFns == old(infixFns)
      ensures old(Valid()) ==> Valid() && Ahead() == Advance(old(Ahead()))
      ensures !old(Valid()) ==> at == old(at)
    {
      ghost var wasValid := Valid();
      ghost var pos := lexer.position;
      cur := peek;
      peek := lexer.NextToken();
      if wasValid {
        if at + 2 < |stream| {
        } else if at + 2 == |stream| {
          ScanEof(lexer.input, pos);
        } else {
          ScanPastEnd(lexer.input, pos);
        }
        if at < |stream| {
          at := at + 1;
        }
      }
    }

    /** Records that the next token is not of kind `t`. */
    method PeekError(t: TokenType)
      modifies this`errors
      ensures errors == old(errors) + [UnexpectedPeek(t, peek.kind)]
    {
      errors := errors + [UnexpectedPeek(t, peek.kind)];
    }

    /** Advances when the next token has kind `t`; otherwise records one diagnostic and stays. */
    method ExpectPeek(t: TokenType) returns (ok: bool)
      requires Valid()
      modifies this, lexer
      ensures Valid()
      ensures ok <==> old(peek.kind) == t
      ensures ok ==> cur == old(peek) && Ahead() == Advance(old(Ahead())) && errors == old(errors)
      ensures !ok ==> cur == old(cur) && peek == old(peek) && lexer.position == old(lexer.position)
                      && Ahead() == old(Ahead()) && errors == old(errors) + [UnexpectedPeek(t, old(peek.kind))]
      ensures prefixFns == old(prefixFns) && infixFns == old(infixFns)
    {
      if peek.kind == t {
        NextToken();
        return true;
      }
      PeekError(t);
      return false;
    }

    /** `parseExpression`: the prefix handler for the current token, if any; the precedence is not used. */
    function ParseExpression(precedence: Precedence): (e: Option<Expression>)
      reads this
      ensures e.Some? <==> cur.kind in prefixFns
      ensures prefixFns == StandardPrefixFns ==>
        (e.Some? <==> cur.kind == TokenType.Identifier) && (e.Some? ==> ExpressionString(e.value) == cur.literal)
    {
      PrefixParse(prefixFns, cur)
    }

    method ParseExpressionStatement() returns (s: Statement)
      requires Valid()
      modifies this, lexer
      ensures Valid()
      ensures s == ExpressionStatement(old(cur), old(ParseExpression(Lowest)))
      ensures Ahead() == if old(cur.kind) == Semicolon then Advance(old(Ahead())) else old(Ahead())
      ensures old(Ahead()) != [] ==>
        var step := ExpressionStep(old(Ahead()), prefixFns);
        step.stmt == Some(s) && Ahead() == old(Ahead())[step.consumed..]
      ensures errors == old(errors) && prefixFns == old(prefixFns) && infixFns == old(infixFns)
    {
      s := ExpressionStatement(cur, ParseExpression(Lowest));
      if cur.kind == Semicolon {
        NextToken();
      }
    }

    /**
     * The loop both the let and the return parser run in place of an
     * expression parser: advance until the current token is a semicolon.
     * Started `from` tokens into `ahead`, it stops at the first semicolon
     * from there on, which must exist, as the loop never ends otherwise.
     */
    method SkipToSemicolon(ghost ahead: seq<Token>, ghost from: nat)
      requires Valid() && from <= |ahead| && Ahead() == ahead[from..] && FirstSemicolon(ahead, from).Some?
      modifies this, lexer
      ensures Valid() && cur.kind == Semicolon
      ensures Ahead() == ahead[FirstSemicolon(ahead, from).value..]
      ensures errors == old(errors) && prefixFns == old(prefixFns) && infixFns == old(infixFns)
    {
      ghost var k := FirstSemicolon(ahead, from).value;
      ghost var j := from;
      while cur.kind != Semicolon
        invariant Valid()
        invariant from <= j <= k && Ahead() == ahead[j..]
        invariant errors == old(errors) && prefixFns == old(prefixFns) && infixFns == old(infixFns)
        decreases k - j
      {
        assert ahead[j] == cur && j != k;
        assert ahead[j..][1..] == ahead[j + 1..];
        NextToken();
        j := j + 1;
      }
    }

    method ParseLetStatement() returns (s: Option<Statement>)
      requires Valid() && LetStep(Ahead()).Step?
      modifies this, lexer
      ensures Valid()
      ensures var step := LetStep(old(Ahead()));
              s == step.stmt && Ahead() == old(Ahead())[step.consumed..] && errors == old(errors) + step.errors
      ensures prefixFns == old(prefixFns) && infixFns == old(infixFns)
    {
      ghost var ahead := Ahead();
      ghost var before := errors;
      var token := cur;
      AheadStartsWithCurrent();
      s := None;
      var ok := ExpectPeek(TokenType.Identifier);
      if !ok {
        LetStepNoName(ahead, Ahead(), before, errors);
      } else {
        assert Ahead() == ahead[1..] && cur == ahead[1];
        // a default identifier whose two fields are then both assigned
        var name := Identifier.Identifier(cur, cur.literal);
        AheadStartsWithCurrent();
        ok := ExpectPeek(Assign);
        if !ok {
          LetStepNoAssign(ahead, Ahead(), before, errors);
        } else {
          assert Ahead() == ahead[2..] by {
            assert ahead[1..][1..] == ahead[2..];
          }
          // the value expression is skipped up to the semicolon
          SkipToSemicolon(ahead, 2);
          LetStepNamed(ahead, Ahead());
          s := Some(LetStatement(token, Some(name), None));
        }
      }
    }

    method ParseReturnStatement() returns (s: Option<Statement>)
      requires Valid() && ReturnStep(Ahead()).Step?
      modifies this, lexer
      ensures Valid()
      ensures var step := ReturnStep(old(Ahead()));
              s == step.stmt && Ahead() == old(Ahead())[step.consumed..] && errors == old(errors) + step.errors
      ensures prefixFns == old(prefixFns) && infixFns == old(infixFns)
    {
      ghost var ahead := Ahead();
      var token := cur;
      // the return value is skipped up to the semicolon
      SkipToSemicolon(ahead, 0);
      return Some(ReturnStatement(token, None));
    }

    /** Dispatch on the current token: let, return, or an expression statement. */
    method ParseStatement() returns (s: Option<Statement>)
      requires Valid()
      requires Ahead() != [] ==> StatementStep(Ahead(), prefixFns).Step?
      modifies this, lexer
      ensures Valid()
      ensures old(Ahead()) != [] ==>
        var step := StatementStep(old(Ahead()), prefixFns);
        s == step.stmt && Ahead() == old(Ahead())[step.consumed..] && errors == old(errors) + step.errors
      ensures old(Ahead()) == [] ==>
        s == Some(ExpressionStatement(old(cur), old(ParseExpression(Lowest)))) && Ahead() == [] && errors == old(errors)
      ensures prefixFns == old(prefixFns) && infixFns == old(infixFns)
    {
      ghost var ahead := Ahead();
      AheadStartsWithCurrent();
      if cur.kind == Let {
        assert StatementStep(ahead, prefixFns) == LetStep(ahead);
        s := ParseLetStatement();
      } else if cur.kind == Return {
        assert StatementStep(ahead, prefixFns) == ReturnStep(ahead);
        s := ParseReturnStatement();
      } else {
        var statement := ParseExpressionStatement();
        s := Some(statement);
      }
    }

    /** Parses statements until the current token is eof, keeping each one that was built. */
    method ParseProgram() returns (program: Program)
      requires Valid()
      requires ParseTokens(Ahead(), prefixFns).Parsed?
      modifies this, lexer
      ensures Valid() && cur.kind == Eof && Ahead() == []
      ensures program.statements == old(ParseTokens(Ahead(), prefixFns)).statements
      ensures errors == old(errors) + old(ParseTokens(Ahead(), prefixFns)).errors
      ensures prefixFns == old(prefixFns) && infixFns == old(infixFns)
    {
      ghost var fns := prefixFns;
      ghost var outcome := ParseTokens(Ahead(), fns);
      ghost var ahead := Ahead();
      program := DefaultProgram();
      while cur.kind != Eof
        invariant Valid() && Ahead() == ahead
        invariant prefixFns == fns && infixFns == old(infixFns)
        invariant ParseTokens(ahead, fns).Parsed?
        invariant program.statements + ParseTokens(ahead, fns).statements == outcome.statements
        invariant errors + ParseTokens(ahead, fns).errors == old(errors) + outcome.errors
        decreases |ahead|
      {
        ParseTokensAccumulate(program.statements, errors, ahead, fns);
        ghost var step := StatementStep(ahead, fns);
        ghost var next := Advance(ahead[step.consumed..]);
        ghost var before := program.statements;
        var statement := ParseStatement();
        if statement.Some? {
          program := Program(program.statements + [statement.value]);
        } else {
          assert before + ToSeq(statement) == before;
        }
        assert program.statements == before + ToSeq(step.stmt);
        NextToken();
        ahead := next;
      }
    }

    /** What the parser tests check before anything else: no diagnostic was recorded. */
    predicate HasNoErrors()
      reads this
    {
      errors == []
    }
  }

  /**
   * The parser tests' common setup: a lexer over the input, a parser over the
   * lexer, one `parseProgram`. The result is the reference parse of the
   * input's token stream.
   */
  method ParseSource(input: string) returns (program: Program, errors: seq<ParseError>)
    requires NoNul(input)
    requires ParseTokens(TokensFrom(input, 0), StandardPrefixFns).Parsed?
    ensures ParseTokens(TokensFrom(input, 0), StandardPrefixFns) == Parsed(program.statements, errors)
  {
    var lexer := new Lexer(input);
    var parser := new Parser(lexer);
    program := parser.ParseProgram();
    errors := parser.errors;
  }
}
