/**
 * What the parser of src/parser.cpp computes, stated over the sequence of
 * tokens it still has to see (current token first, eof left out). The
 * statement parsers that skip ahead to a semicolon never stop when no
 * semicolon comes; that outcome is a value here (`SkipsForever`,
 * `RunsForever`), and the imperative parser is only run where it does not
 * occur.
 */
module ParseSpec {
  import opened Wrappers
  import opened Tokens
  import opened Decimal
  import opened Ast

  /** Binding powers, in declaration order: INDEX sits below LOWEST, and there is no less/greater level. */
  datatype Precedence = Index | Lowest | Equals | Sum | Product | Prefix | Call

  function PrecedenceOrdinal(p: Precedence): (n: nat)
    ensures n < 7 && [Index, Lowest, Equals, Sum, Product, Prefix, Call][n] == p
  {
    match p
    case Index => 0
    case Lowest => 1
    case Equals => 2
    case Sum => 3
    case Product => 4
    case Prefix => 5
    case Call => 6
  }

  /** The prefix handlers the parser can register: only the identifier handler exists. */
  datatype PrefixFn = ParseIdentifierFn

  /** An infix handler; none is defined, so it is known only by a number. */
  datatype InfixFn = InfixFn(handler: nat)

  /** The prefix table after construction: identifiers only. */
  const StandardPrefixFns: map<TokenType, PrefixFn> := map[TokenType.Identifier := ParseIdentifierFn]

  /** A diagnostic of `peekError`: the kind expected next and the kind found. */
  datatype ParseError = UnexpectedPeek(expected: TokenType, got: TokenType)

  /** The text `peekError` streams: both kinds print as their ordinals. */
  function ErrorMessage(e: ParseError): string
  {
    "expected next token to be " + NatToDecimal(Ordinal(e.expected))
    + ", got " + NatToDecimal(Ordinal(e.got)) + " instead."
  }

  /** Within `p + d + q`, where `d` is all digits and `q` starts with a non-digit, `d` is recoverable. */
  lemma DigitsDelimited(p: string, d1: string, q1: string, d2: string, q2: string)
    requires forall i :: 0 <= i < |d1| ==> IsDigitChar(d1[i])
    requires forall i :: 0 <= i < |d2| ==> IsDigitChar(d2[i])
    requires |q1| > 0 && !IsDigitChar(q1[0]) && |q2| > 0 && !IsDigitChar(q2[0])
    requires p + d1 + q1 == p + d2 + q2
    ensures d1 == d2 && q1 == q2
  {
    var m := p + d1 + q1;
    assert |d1| == |d2| by {
      var n := if |d1| < |d2| then |d1| else |d2|;
      assert m[|p| + n] == (p + d2 + q2)[|p| + n];
    }
    assert d1 == m[|p|..|p| + |d1|];
    assert d2 == (p + d2 + q2)[|p|..|p| + |d2|];
    assert q1 == m[|p| + |d1|..];
    assert q2 == (p + d2 + q2)[|p| + |d2|..];
  }

  /** The message split after its first number. */
  lemma ErrorMessageSplit(e: ParseError)
    ensures ErrorMessage(e) == "expected next token to be " + NatToDecimal(Ordinal(e.expected))
                               + (", got " + NatToDecimal(Ordinal(e.got)) + " instead.")
  {
    var p, a := "expected next token to be ", NatToDecimal(Ordinal(e.expected));
    var g, b, s := ", got ", NatToDecimal(Ordinal(e.got)), " instead.";
    AppendAssociative(p + a, g, b);
    AppendAssociative(p + a, g + b, s);
  }

  /** Distinct diagnostics have distinct messages: the message names both kinds. */
  lemma ErrorMessageInjective(e1: ParseError, e2: ParseError)
    requires ErrorMessage(e1) == ErrorMessage(e2)
    ensures e1 == e2
  {
    var p := "expected next token to be ";
    var a1, a2 := NatToDecimal(Ordinal(e1.expected)), NatToDecimal(Ordinal(e2.expected));
    var b1, b2 := NatToDecimal(Ordinal(e1.got)), NatToDecimal(Ordinal(e2.got));
    var g, s := ", got ", " instead.";
    ErrorMessageSplit(e1);
    ErrorMessageSplit(e2);
    DigitsDelimited(p, a1, g + b1 + s, a2, g + b2 + s);
    DigitsDelimited(p + a1 + g, b1, s, b2, s);
    DecimalRoundTrip(Ordinal(e1.expected));
    DecimalRoundTrip(Ordinal(e2.expected));
    DecimalRoundTrip(Ordinal(e1.got));
    DecimalRoundTrip(Ordinal(e2.got));
    OrdinalInjective(e1.expected, e2.expected);
    OrdinalInjective(e1.got, e2.got);
  }

  /** The kind at position `i` of what is ahead; eof beyond it. */
  function KindAt(ts: seq<Token>, i: nat): TokenType
  {
    if i < |ts| then ts[i].kind else Eof
  }

  /** What is ahead after one `nextToken`: at eof nothing changes. */
  function Advance(ts: seq<Token>): seq<Token>
  {
    if ts == [] then [] else ts[1..]
  }

  /** Where a loop `while (cur != semicolon) nextToken();` started at position `i` stops, if it does. */
  function FirstSemicolon(ts: seq<Token>, i: nat): (r: Option<nat>)
    decreases |ts| - i
    ensures r.Some? ==> i <= r.value < |ts| && ts[r.value].kind == Semicolon
    ensures r.Some? ==> forall k :: i <= k < r.value ==> ts[k].kind != Semicolon
    ensures r.None? ==> forall k :: i <= k < |ts| ==> ts[k].kind != Semicolon
  {
    if i >= |ts| then None
    else if ts[i].kind == Semicolon then Some(i)
    else FirstSemicolon(ts, i + 1)
  }

  /** `parseIdentifier`: an identifier node whose token and name come from the current token. */
  function IdentifierExpression(cur: Token): (e: Expression)
    ensures ExpressionString(e) == cur.literal && ExpressionTokenLiteral(e) == cur.literal
  {
    Ident(Identifier.Identifier(cur, cur.literal))
  }

  function ApplyPrefix(fn: PrefixFn, cur: Token): Expression
  {
    match fn
    case ParseIdentifierFn => IdentifierExpression(cur)
  }

  /** `parseExpression`: the registered prefix handler's result, nothing without one; no infix loop. */
  function PrefixParse(fns: map<TokenType, PrefixFn>, cur: Token): (e: Option<Expression>)
    ensures e.Some? <==> cur.kind in fns
  {
    if cur.kind in fns then Some(ApplyPrefix(fns[cur.kind], cur)) else None
  }

  /** With the standard table, exactly identifiers parse as expressions, each as itself. */
  lemma StandardPrefixParse(cur: Token)
    ensures PrefixParse(StandardPrefixFns, cur).Some? <==> cur.kind == TokenType.Identifier
    ensures cur.kind == TokenType.Identifier ==>
      PrefixParse(StandardPrefixFns, cur) == Some(Ident(Identifier.Identifier(cur, cur.literal)))
  {
  }

  /** The result of one statement parser: the node (if any), how many tokens it moved past, its diagnostics. */
  datatype Step = Step(stmt: Option<Statement>, consumed: nat, errors: seq<ParseError>) | SkipsForever

  /** `parseLetStatement`: `let`, an identifier, `=`, then skip to the next semicolon. */
  function LetStep(ts: seq<Token>): (r: Step)
    ensures r.Step? ==> r.consumed <= |ts|
  {
    if KindAt(ts, 1) != TokenType.Identifier then
      Step(None, 0, [UnexpectedPeek(TokenType.Identifier, KindAt(ts, 1))])
    else if KindAt(ts, 2) != Assign then
      Step(None, 1, [UnexpectedPeek(Assign, KindAt(ts, 2))])
    else
      match FirstSemicolon(ts, 2)
      case None => SkipsForever
      case Some(k) =>
        // a default identifier whose two fields are then both assigned
        var name := Identifier.Identifier(ts[1], ts[1].literal);
        Step(Some(LetStatement(ts[0], Some(name), None)), k, [])
  }

  /** `parseReturnStatement`: skip from the current token to the next semicolon. */
  function ReturnStep(ts: seq<Token>): (r: Step)
    ensures r.Step? ==> r.consumed < |ts|
  {
    match FirstSemicolon(ts, 0)
    case None => SkipsForever
    case Some(k) => Step(Some(ReturnStatement(ts[0], None)), k, [])
  }

  /** `parseExpressionStatement`: one expression, then a semicolon is consumed only if it is the current token. */
  function ExpressionStep(ts: seq<Token>, fns: map<TokenType, PrefixFn>): (r: Step)
    requires ts != []
    ensures r.Step? && r.consumed <= 1 && r.errors == []
  {
    var s := ExpressionStatement(ts[0], PrefixParse(fns, ts[0]));
    Step(Some(s), if ts[0].kind == Semicolon then 1 else 0, [])
  }

  /** `parseStatement`: dispatch on the current token's kind. */
  function StatementStep(ts: seq<Token>, fns: map<TokenType, PrefixFn>): (r: Step)
    requires ts != []
    ensures r.Step? ==> r.consumed <= |ts|
  {
    if ts[0].kind == Let then LetStep(ts)
    else if ts[0].kind == Return then ReturnStep(ts)
    else ExpressionStep(ts, fns)
  }

  /** The whole of `parseProgram`: the statements it collects and the diagnostics it records, or divergence. */
  datatype Outcome = Parsed(statements: seq<Statement>, errors: seq<ParseError>) | RunsForever

  function ParseTokens(ts: seq<Token>, fns: map<TokenType, PrefixFn>): Outcome
    decreases |ts|
  {
    if ts == [] then Parsed([], [])
    else
      match StatementStep(ts, fns)
      case SkipsForever => RunsForever
      case Step(stmt, k, errs) =>
        match ParseTokens(Advance(ts[k..]), fns)
        case RunsForever => RunsForever
        case Parsed(ss, es) => Parsed(ToSeq(stmt) + ss, errs + es)
  }

  /**
   * The let parser's three exits, each stated as the result, the tokens left
   * ahead and the diagnostics recorded, for the imperative parser to cite.
   */
  lemma LetStepNoName(ts: seq<Token>, left: seq<Token>, before: seq<ParseError>, after: seq<ParseError>)
    requires KindAt(ts, 1) != TokenType.Identifier
    requires left == ts && after == before + [UnexpectedPeek(TokenType.Identifier, KindAt(ts, 1))]
    ensures var step := LetStep(ts);
            step.Step? && step.stmt == None && left == ts[step.consumed..] && after == before + step.errors
  {
    assert ts[0..] == ts;
  }

  lemma LetStepNoAssign(ts: seq<Token>, left: seq<Token>, before: seq<ParseError>, after: seq<ParseError>)
    requires KindAt(ts, 1) == TokenType.Identifier && KindAt(ts, 2) != Assign
    requires left == ts[1..] && after == before + [UnexpectedPeek(Assign, KindAt(ts, 2))]
    ensures var step := LetStep(ts);
            step.Step? && step.stmt == None && left == ts[step.consumed..] && after == before + step.errors
  {
  }

  lemma LetStepNamed(ts: seq<Token>, left: seq<Token>)
    requires KindAt(ts, 1) == TokenType.Identifier && KindAt(ts, 2) == Assign && FirstSemicolon(ts, 2).Some?
    requires left == ts[FirstSemicolon(ts, 2).value..]
    ensures var step := LetStep(ts);
            && step.Step? && step.stmt == Some(LetStatement(ts[0], Some(Identifier.Identifier(ts[1], ts[1].literal)), None))
            && left == ts[step.consumed..] && step.errors == []
  {
  }

  // ---- Properties of the statement parsers ----

  /**
   * A let statement is built exactly when an identifier and `=` follow and a
   * semicolon comes later. It is named by the identifier, has no value, and
   * leaves the current token on that semicolon with no diagnostic. Otherwise
   * there is no node and exactly one diagnostic, naming the kind found.
   */
  lemma LetStepOutcome(ts: seq<Token>)
    requires LetStep(ts).Step?
    ensures var r := LetStep(ts);
            r.stmt.Some? <==> KindAt(ts, 1) == TokenType.Identifier && KindAt(ts, 2) == Assign
    ensures var r := LetStep(ts);
            r.stmt.Some? ==>
              && r.errors == []
              && 2 < r.consumed < |ts| && ts[r.consumed].kind == Semicolon
              && r.stmt.value.LetStatement?
              && r.stmt.value.token == ts[0]
              && r.stmt.value.name.Some?
              && r.stmt.value.name.value.value == r.stmt.value.name.value.token.literal == ts[1].literal
              && r.stmt.value.value.None?
    ensures var r := LetStep(ts);
            r.stmt.None? ==>
              && |r.errors| == 1
              && r.errors[0].expected in {TokenType.Identifier, Assign}
              && r.errors[0].got == KindAt(ts, r.consumed + 1)
              && r.errors[0].got != r.errors[0].expected
  {
  }

  /** Whether the let parser diverges: exactly when its header is complete and no semicolon follows. */
  lemma LetStepDiverges(ts: seq<Token>)
    ensures LetStep(ts).SkipsForever? <==>
      && KindAt(ts, 1) == TokenType.Identifier && KindAt(ts, 2) == Assign
      && forall k :: 2 < k < |ts| ==> ts[k].kind != Semicolon
  {
    if KindAt(ts, 1) == TokenType.Identifier && KindAt(ts, 2) == Assign {
      match FirstSemicolon(ts, 2)
      case None =>
      case Some(k) => assert k > 2;
    }
  }

  /** A return statement never gets a value; it stops exactly at the first semicolon, and there must be one. */
  lemma ReturnStepOutcome(ts: seq<Token>)
    ensures ReturnStep(ts).SkipsForever? <==> forall k :: 0 <= k < |ts| ==> ts[k].kind != Semicolon
    ensures var r := ReturnStep(ts);
            r.Step? ==>
              && r.errors == [] && r.stmt.Some?
              && r.stmt.value == ReturnStatement(ts[0], None)
              && ts[r.consumed].kind == Semicolon
              && forall k :: 0 <= k < r.consumed ==> ts[k].kind != Semicolon
  {
  }

  // ---- Properties of the whole parse ----

  /** Every `let` or `return` token is followed, somewhere later, by a semicolon. */
  predicate Terminated(ts: seq<Token>)
  {
    forall i :: 0 <= i < |ts| && ts[i].kind in {Let, Return} ==>
      exists j :: i < j < |ts| && ts[j].kind == Semicolon
  }

  lemma TerminatedSuffix(ts: seq<Token>, k: nat)
    requires Terminated(ts) && k <= |ts|
    ensures Terminated(ts[k..])
  {
    var s := ts[k..];
    forall i | 0 <= i < |s| && s[i].kind in {Let, Return}
      ensures exists j :: i < j < |s| && s[j].kind == Semicolon
    {
      assert ts[k + i] == s[i];
      var j :| k + i < j < |ts| && ts[j].kind == Semicolon;
      assert s[j - k] == ts[j];
    }
  }

  /** A semicolon after every `let` and `return` is enough for the parse to end. */
  lemma {:induction false} TerminatedParses(ts: seq<Token>, fns: map<TokenType, PrefixFn>)
    requires Terminated(ts)
    ensures ParseTokens(ts, fns).Parsed?
    decreases |ts|
  {
    if ts != [] {
      var step := StatementStep(ts, fns);
      if ts[0].kind == Let {
        var j :| 0 < j < |ts| && ts[j].kind == Semicolon;
        if KindAt(ts, 1) == TokenType.Identifier && KindAt(ts, 2) == Assign {
          assert j > 2;
          assert FirstSemicolon(ts, 2).Some?;
        }
      } else if ts[0].kind == Return {
        var j :| 0 < j < |ts| && ts[j].kind == Semicolon;
        assert FirstSemicolon(ts, 0).Some?;
      }
      assert step.Step?;
      TerminatedSuffix(ts, step.consumed);
      var rest := ts[step.consumed..];
      if rest != [] {
        TerminatedSuffix(rest, 1);
      }
      TerminatedParses(Advance(rest), fns);
    }
  }

  /** Each statement stands for at least one token: there are never more statements than tokens. */
  lemma {:induction false} ParseTokensCount(ts: seq<Token>, fns: map<TokenType, PrefixFn>)
    requires ParseTokens(ts, fns).Parsed?
    ensures |ParseTokens(ts, fns).statements| <= |ts|
    decreases |ts|
  {
    if ts != [] {
      var step := StatementStep(ts, fns);
      ParseTokensCount(Advance(ts[step.consumed..]), fns);
    }
  }

  /** One statement's diagnostics: only after `let`, and only for a missing identifier or `=`. */
  lemma StatementStepErrors(ts: seq<Token>, fns: map<TokenType, PrefixFn>)
    requires ts != [] && StatementStep(ts, fns).Step?
    ensures forall e :: e in StatementStep(ts, fns).errors ==> e.expected in {TokenType.Identifier, Assign}
    ensures ts[0].kind != Let ==> StatementStep(ts, fns).errors == []
  {
  }

  /** The only diagnostics are a missing identifier or `=` after `let`; without `let` there are none. */
  lemma {:induction false} ParseTokensErrors(ts: seq<Token>, fns: map<TokenType, PrefixFn>)
    requires ParseTokens(ts, fns).Parsed?
    ensures forall e :: e in ParseTokens(ts, fns).errors ==> e.expected in {TokenType.Identifier, Assign}
    ensures (forall i :: 0 <= i < |ts| ==> ts[i].kind != Let) ==> ParseTokens(ts, fns).errors == []
    decreases |ts|
  {
    if ts != [] {
      ParseTokensUnfold(ts, fns);
      StatementStepErrors(ts, fns);
      var step := StatementStep(ts, fns);
      var next := Advance(ts[step.consumed..]);
      ParseTokensErrors(next, fns);
      assert forall i :: 0 <= i < |next| ==> next[i] == ts[step.consumed + 1 + i];
    }
  }

  /** The shape of a parsed statement when keywords carry their spelling: what the parser tests check. */
  predicate WellFormedStatement(s: Statement)
  {
    match s
    case LetStatement(token, name, value) =>
      && token == Token(Let, "let")
      && name.Some? && name.value.token.kind == TokenType.Identifier
      && name.value.value == name.value.token.literal
      && value.None?
    case ReturnStatement(token, returnValue) =>
      token == Token(Return, "return") && returnValue.None?
    case ExpressionStatement(_, _) => true
  }

  /** One iteration of the parse: the first statement's step, then the rest after one more token. */
  lemma ParseTokensUnfold(ts: seq<Token>, fns: map<TokenType, PrefixFn>)
    requires ts != [] && ParseTokens(ts, fns).Parsed?
    ensures var step := StatementStep(ts, fns);
            && step.Step?
            && var rest := ParseTokens(Advance(ts[step.consumed..]), fns);
            && rest.Parsed?
            && ParseTokens(ts, fns).statements == ToSeq(step.stmt) + rest.statements
            && ParseTokens(ts, fns).errors == step.errors + rest.errors
  {
  }

  /** One iteration seen from the loop: what was collected so far, plus the first step, plus the rest. */
  lemma ParseTokensAccumulate(done: seq<Statement>, doneErrors: seq<ParseError>, ts: seq<Token>, fns: map<TokenType, PrefixFn>)
    requires ts != [] && ParseTokens(ts, fns).Parsed?
    ensures var step := StatementStep(ts, fns);
            && step.Step?
            && var rest := ParseTokens(Advance(ts[step.consumed..]), fns);
            && rest.Parsed?
            && done + ParseTokens(ts, fns).statements == (done + ToSeq(step.stmt)) + rest.statements
            && doneErrors + ParseTokens(ts, fns).errors == (doneErrors + step.errors) + rest.errors
  {
    ParseTokensUnfold(ts, fns);
    var step := StatementStep(ts, fns);
    var rest := ParseTokens(Advance(ts[step.consumed..]), fns);
    AppendAssociative(done, ToSeq(step.stmt), rest.statements);
    AppendAssociative(doneErrors, step.errors, rest.errors);
  }

  /** A statement parsed from spelled keywords has the shape the parser tests check. */
  lemma StatementStepWellFormed(ts: seq<Token>, fns: map<TokenType, PrefixFn>)
    requires ts != [] && KeywordsSpelled(ts)
    requires StatementStep(ts, fns).Step? && StatementStep(ts, fns).stmt.Some?
    ensures WellFormedStatement(StatementStep(ts, fns).stmt.value)
    ensures Renderable(StatementStep(ts, fns).stmt.value)
  {
    assert IsKeyword(ts[0].kind) ==> ts[0].literal == Spelling(ts[0].kind);
  }

  /**
   * Every parsed let statement is `let`, named by an identifier whose name is
   * its literal, without value; every return statement is `return` without
   * value. Hence every parsed statement can be rendered.
   */
  lemma {:induction false} ParseTokensWellFormed(ts: seq<Token>, fns: map<TokenType, PrefixFn>)
    requires KeywordsSpelled(ts)
    requires ParseTokens(ts, fns).Parsed?
    ensures forall s :: s in ParseTokens(ts, fns).statements ==> WellFormedStatement(s) && Renderable(s)
    decreases |ts|
  {
    if ts != [] {
      ParseTokensUnfold(ts, fns);
      var step := StatementStep(ts, fns);
      var rest := Advance(ts[step.consumed..]);
      assert KeywordsSpelled(rest) by {
        forall i | 0 <= i < |rest| ensures IsKeyword(rest[i].kind) ==> rest[i].literal == Spelling(rest[i].kind) {
          assert rest[i] == ts[step.consumed + 1 + i];
        }
      }
      ParseTokensWellFormed(rest, fns);
      if step.stmt.Some? {
        StatementStepWellFormed(ts, fns);
      }
    }
  }

  /**
   * Input with no `let`, `return` or `;` parses into one expression statement
   * per token, in order, each holding what the prefix table makes of it, with
   * no diagnostic.
   */
  lemma {:induction false} ParseTokensExpressions(ts: seq<Token>, fns: map<TokenType, PrefixFn>)
    requires forall i :: 0 <= i < |ts| ==> ts[i].kind !in {Let, Return, Semicolon}
    ensures ParseTokens(ts, fns).Parsed?
    ensures ParseTokens(ts, fns).errors == []
    ensures |ParseTokens(ts, fns).statements| == |ts|
    ensures forall i :: 0 <= i < |ts| ==>
      ParseTokens(ts, fns).statements[i] == ExpressionStatement(ts[i], PrefixParse(fns, ts[i]))
    decreases |ts|
  {
    if ts != [] {
      var step := StatementStep(ts, fns);
      assert step == Step(Some(ExpressionStatement(ts[0], PrefixParse(fns, ts[0]))), 0, []);
      assert Advance(ts[0..]) == ts[1..];
      ParseTokensExpressions(ts[1..], fns);
      var r := ParseTokens(ts[1..], fns);
      assert ParseTokens(ts, fns) == Parsed([ExpressionStatement(ts[0], PrefixParse(fns, ts[0]))] + r.statements, r.errors);
    }
  }

  // ---- Statement by statement ----

  /**
   * A complete let statement in front of other tokens: `let`, an identifier,
   * `=`, a value with no semicolon, and `;` parse into one let statement named
   * by the identifier, without value, and parsing resumes right after the `;`.
   */
  lemma ParseLetThen(lt: Token, name: Token, eq: Token, value: seq<Token>, semi: Token, rest: seq<Token>, fns: map<TokenType, PrefixFn>)
    requires lt.kind == Let && name.kind == TokenType.Identifier && eq.kind == Assign && semi.kind == Semicolon
    requires forall i :: 0 <= i < |value| ==> value[i].kind != Semicolon
    requires ParseTokens(rest, fns).Parsed?
    ensures var ts := [lt, name, eq] + value + [semi] + rest;
            ParseTokens(ts, fns) ==
              Parsed([LetStatement(lt, Some(Identifier.Identifier(name, name.literal)), None)] + ParseTokens(rest, fns).statements,
                     ParseTokens(rest, fns).errors)
  {
    LetStepThen(lt, name, eq, value, semi, rest);
  }

  /** The let step over such tokens: the statement, and the position of its `;`, after which `rest` follows. */
  lemma LetStepThen(lt: Token, name: Token, eq: Token, value: seq<Token>, semi: Token, rest: seq<Token>)
    requires name.kind == TokenType.Identifier && eq.kind == Assign && semi.kind == Semicolon
    requires forall i :: 0 <= i < |value| ==> value[i].kind != Semicolon
    ensures var ts := [lt, name, eq] + value + [semi] + rest;
            && LetStep(ts) == Step(Some(LetStatement(lt, Some(Identifier.Identifier(name, name.literal)), None)), 3 + |value|, [])
            && Advance(ts[3 + |value|..]) == rest
  {
    var ts := [lt, name, eq] + value + [semi] + rest;
    var k := 3 + |value|;
    assert ts[k] == semi;
    forall i | 2 <= i < k ensures ts[i].kind != Semicolon {
      if i > 2 { assert ts[i] == value[i - 3]; }
    }
    FirstSemicolonAt(ts, 2, k);
    assert ts[k..] == [semi] + rest;
  }

  /**
   * A `let` not followed by an identifier: no statement and one diagnostic
   * naming the kind found; parsing resumes at the token after `let`.
   */
  lemma ParseLetWithoutName(lt: Token, t: Token, rest: seq<Token>, fns: map<TokenType, PrefixFn>)
    requires lt.kind == Let && t.kind != TokenType.Identifier
    requires ParseTokens([t] + rest, fns).Parsed?
    ensures var after := ParseTokens([t] + rest, fns);
            ParseTokens([lt, t] + rest, fns) == Parsed(after.statements, [UnexpectedPeek(TokenType.Identifier, t.kind)] + after.errors)
  {
    LetStepWithoutName(lt, t, rest);
  }

  /** The let step over such tokens: one diagnostic, and `t` is the token after the one it stops on. */
  lemma LetStepWithoutName(lt: Token, t: Token, rest: seq<Token>)
    requires t.kind != TokenType.Identifier
    ensures var ts := [lt, t] + rest;
            && LetStep(ts) == Step(None, 0, [UnexpectedPeek(TokenType.Identifier, t.kind)])
            && Advance(ts[0..]) == [t] + rest
  {
    var ts := [lt, t] + rest;
    assert KindAt(ts, 1) == t.kind;
    assert ts[0..][1..] == [t] + rest;
  }

  /**
   * `let` and an identifier not followed by `=`: no statement and one
   * diagnostic naming the kind found; parsing resumes at the identifier's
   * successor.
   */
  lemma ParseLetWithoutAssign(lt: Token, name: Token, t: Token, rest: seq<Token>, fns: map<TokenType, PrefixFn>)
    requires lt.kind == Let && name.kind == TokenType.Identifier && t.kind != Assign
    requires ParseTokens([t] + rest, fns).Parsed?
    ensures var after := ParseTokens([t] + rest, fns);
            ParseTokens([lt, name, t] + rest, fns) == Parsed(after.statements, [UnexpectedPeek(Assign, t.kind)] + after.errors)
  {
    LetStepWithoutAssign(lt, name, t, rest);
  }

  /** The let step over such tokens: one diagnostic, and `t` is the token after the one it stops on. */
  lemma LetStepWithoutAssign(lt: Token, name: Token, t: Token, rest: seq<Token>)
    requires name.kind == TokenType.Identifier && t.kind != Assign
    ensures var ts := [lt, name, t] + rest;
            && LetStep(ts) == Step(None, 1, [UnexpectedPeek(Assign, t.kind)])
            && Advance(ts[1..]) == [t] + rest
  {
    var ts := [lt, name, t] + rest;
    assert KindAt(ts, 1) == TokenType.Identifier && KindAt(ts, 2) == t.kind;
    assert ts[1..][1..] == [t] + rest;
  }

  /** A return statement in front of other tokens: everything up to the first `;` is skipped. */
  lemma ParseReturnThen(rt: Token, value: seq<Token>, semi: Token, rest: seq<Token>, fns: map<TokenType, PrefixFn>)
    requires rt.kind == Return && semi.kind == Semicolon
    requires forall i :: 0 <= i < |value| ==> value[i].kind != Semicolon
    requires ParseTokens(rest, fns).Parsed?
    ensures var ts := [rt] + value + [semi] + rest;
            ParseTokens(ts, fns) ==
              Parsed([ReturnStatement(rt, None)] + ParseTokens(rest, fns).statements, ParseTokens(rest, fns).errors)
  {
    ReturnStepThen(rt, value, semi, rest, fns);
  }

  /** The return step over such tokens: the statement, and the position of its `;`, after which `rest` follows. */
  lemma ReturnStepThen(rt: Token, value: seq<Token>, semi: Token, rest: seq<Token>, fns: map<TokenType, PrefixFn>)
    requires rt.kind == Return && semi.kind == Semicolon
    requires forall i :: 0 <= i < |value| ==> value[i].kind != Semicolon
    ensures var ts := [rt] + value + [semi] + rest;
            && StatementStep(ts, fns) == Step(Some(ReturnStatement(rt, None)), 1 + |value|, [])
            && Advance(ts[1 + |value|..]) == rest
  {
    var ts := [rt] + value + [semi] + rest;
    assert ts[0] == rt;
    var k := 1 + |value|;
    assert ts[k] == semi;
    forall i | 0 <= i < k ensures ts[i].kind != Semicolon {
      if i > 0 { assert ts[i] == value[i - 1]; }
    }
    FirstSemicolonAt(ts, 0, k);
    assert ts[k..] == [semi] + rest;
  }

  /** The skip loop stops at the first semicolon at or after its start. */
  lemma {:induction false} FirstSemicolonAt(ts: seq<Token>, i: nat, k: nat)
    requires i <= k < |ts| && ts[k].kind == Semicolon
    requires forall j :: i <= j < k ==> ts[j].kind != Semicolon
    ensures FirstSemicolon(ts, i) == Some(k)
    decreases k - i
  {
    if i < k {
      FirstSemicolonAt(ts, i + 1, k);
    }
  }
}
