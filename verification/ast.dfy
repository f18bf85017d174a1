/**
 * The AST of src/ast.h and its rendering from src/ast.cpp. Nodes own their
 * children outright (`std::unique_ptr`), so the tree is a value; an absent
 * child (a null pointer) is `None`.
 */
module Ast {
  import opened Wrappers
  import opened Tokens
  import opened Decimal

  /** The C++ `int` the integer literal stores. */
  newtype Int32 = x: int | -0x8000_0000 <= x < 0x8000_0000

  datatype Identifier = Identifier(token: Token, value: string)

  /** The expression family. */
  datatype Expression =
    | Ident(id: Identifier)
    | IntegerLiteral(token: Token, value: Int32)

  /** The statement family; every child is optional, as its pointer may be null. */
  datatype Statement =
    | LetStatement(token: Token, name: Option<Identifier>, value: Option<Expression>)
    | ReturnStatement(token: Token, returnValue: Option<Expression>)
    | ExpressionStatement(token: Token, expression: Option<Expression>)

  /** The root: statements in source order. */
  datatype Program = Program(statements: seq<Statement>)

  function DefaultIdentifier(): (id: Identifier)
    ensures id.token.kind == Eof && id.token.literal == "" && id.value == ""
  {
    Identifier.Identifier(DefaultToken(), "")
  }

  /** The default `Program` holds no statement, so it renders as nothing. */
  function DefaultProgram(): (p: Program)
    ensures p.statements == []
    ensures ProgramString(p) == "" && ProgramTokenLiteral(p) == ""
  {
    Program([])
  }

  /** A default `LetStatement` has neither name nor value, and cannot be rendered. */
  function DefaultLetStatement(): (s: Statement)
    ensures s.LetStatement? && s.name.None? && s.value.None?
    ensures !Renderable(s)
  {
    LetStatement(DefaultToken(), None, None)
  }

  /** A default `ReturnStatement` has no value and renders as a space and a semicolon. */
  function DefaultReturnStatement(): (s: Statement)
    ensures s.ReturnStatement? && s.returnValue.None?
    ensures StatementString(s) == " ;"
  {
    ReturnStatement(DefaultToken(), None)
  }

  /** A default `ExpressionStatement` has no expression and renders as nothing. */
  function DefaultExpressionStatement(): (s: Statement)
    ensures s.ExpressionStatement? && s.expression.None?
    ensures StatementString(s) == ""
  {
    ExpressionStatement(DefaultToken(), None)
  }

  /**
   * The two-argument `LetStatement` constructor: it keeps the children it is
   * given and overwrites a default token with literal "let" and kind let.
   */
  function NewLetStatement(name: Option<Identifier>, value: Option<Expression>): (s: Statement)
    ensures s.LetStatement? && s.name == name && s.value == value
    ensures s.token == Token(Let, Spelling(Let))
  {
    var t := DefaultToken();
    var t := t.(literal := "let");
    var t := t.(kind := Let);
    LetStatement(t, name, value)
  }

  function IdentifierTokenLiteral(id: Identifier): string
  {
    id.token.literal
  }

  function IdentifierString(id: Identifier): string
  {
    id.value
  }

  function ExpressionTokenLiteral(e: Expression): string
  {
    match e
    case Ident(id) => IdentifierTokenLiteral(id)
    case IntegerLiteral(token, _) => token.literal
  }

  /** An identifier renders as its name, an integer literal as the decimal spelling of its value. */
  function ExpressionString(e: Expression): string
  {
    match e
    case Ident(id) => IdentifierString(id)
    case IntegerLiteral(_, value) => IntToDecimal(value as int)
  }

  /** An integer literal's rendering reads back as its value. */
  lemma IntegerLiteralStringRoundTrip(token: Token, value: Int32)
    ensures SignedDecimalValue(ExpressionString(IntegerLiteral(token, value))) == value as int
  {
    SignedDecimalRoundTrip(value as int);
  }

  /** Rendering of an optional child: nothing when the pointer is null. */
  function OptionString(e: Option<Expression>): string
  {
    match e
    case None => ""
    case Some(x) => ExpressionString(x)
  }

  function StatementTokenLiteral(s: Statement): string
  {
    s.token.literal
  }

  /** `LetStatement::string` dereferences the name without a check: it must be present. */
  predicate Renderable(s: Statement)
  {
    s.LetStatement? ==> s.name.Some?
  }

  function StatementString(s: Statement): (r: string)
    requires Renderable(s)
  {
    match s
    case LetStatement(token, name, value) =>
      token.literal + " " + IdentifierString(name.value) + " = " + OptionString(value) + ";"
    case ReturnStatement(token, returnValue) =>
      token.literal + " " + OptionString(returnValue) + ";"
    case ExpressionStatement(_, expression) =>
      OptionString(expression)
  }

  /**
   * The statement renderings read back: a let statement's text is its token
   * literal, a space, the name, " = ", the value and ";"; a return's its
   * literal, a space, the value and ";"; an expression statement's is its
   * expression's alone.
   */
  lemma StatementStringShape(s: Statement)
    requires Renderable(s)
    ensures var r := StatementString(s);
            var lit := StatementTokenLiteral(s);
            match s
            case LetStatement(_, name, value) =>
              var n := |lit| + 1 + |name.value.value|;
              && |r| == n + 3 + |OptionString(value)| + 1
              && r[..|lit|] == lit && r[|lit|] == ' '
              && r[|lit| + 1..n] == name.value.value
              && r[n..n + 3] == " = "
              && r[n + 3..|r| - 1] == OptionString(value)
              && r[|r| - 1] == ';'
            case ReturnStatement(_, rv) =>
              && |r| == |lit| + 1 + |OptionString(rv)| + 1
              && r[..|lit|] == lit && r[|lit|] == ' '
              && r[|lit| + 1..|r| - 1] == OptionString(rv)
              && r[|r| - 1] == ';'
            case ExpressionStatement(_, e) => r == OptionString(e)
  {
  }

  predicate AllRenderable(ss: seq<Statement>)
  {
    forall i :: 0 <= i < |ss| ==> Renderable(ss[i])
  }

  /** The statements' renderings, concatenated in order with no separator. */
  function StatementsString(ss: seq<Statement>): string
    requires AllRenderable(ss)
  {
    if ss == [] then "" else StatementsString(ss[..|ss| - 1]) + StatementString(ss[|ss| - 1])
  }

  function ProgramString(p: Program): string
    requires AllRenderable(p.statements)
  {
    StatementsString(p.statements)
  }

  /** The program's token literal is its first statement's, or empty. */
  function ProgramTokenLiteral(p: Program): string
  {
    if |p.statements| > 0 then StatementTokenLiteral(p.statements[0]) else ""
  }

  /** The last statement's rendering comes last. */
  lemma StatementsStringLast(ss: seq<Statement>)
    requires ss != [] && AllRenderable(ss)
    ensures AllRenderable(ss[..|ss| - 1]) && Renderable(ss[|ss| - 1])
    ensures StatementsString(ss) == StatementsString(ss[..|ss| - 1]) + StatementString(ss[|ss| - 1])
  {
  }

  lemma AllRenderableAppend(a: seq<Statement>, b: seq<Statement>)
    requires AllRenderable(a) && AllRenderable(b)
    ensures AllRenderable(a + b)
  {
    forall i | 0 <= i < |a + b| ensures Renderable((a + b)[i]) {
      if i < |a| { assert (a + b)[i] == a[i]; } else { assert (a + b)[i] == b[i - |a|]; }
    }
  }

  /** Rendering distributes over concatenation of statement lists. */
  lemma {:induction false} StatementsStringAppend(a: seq<Statement>, b: seq<Statement>)
    requires AllRenderable(a) && AllRenderable(b)
    ensures AllRenderable(a + b) && StatementsString(a + b) == StatementsString(a) + StatementsString(b)
  {
    AllRenderableAppend(a, b);
    if b == [] {
      assert a + b == a;
    } else {
      var ab := a + b;
      StatementsStringLast(ab);
      StatementsStringLast(b);
      var b', last := b[..|b| - 1], b[|b| - 1];
      StatementsStringAppend(a, b');
      assert ab[..|ab| - 1] == a + b';
      assert ab[|ab| - 1] == last;
      AppendAssociative(StatementsString(a), StatementsString(b'), StatementString(last));
    }
  }

  /** Appending a statement to a program appends its rendering. */
  lemma ProgramStringAppend(p: Program, s: Statement)
    requires AllRenderable(p.statements) && Renderable(s)
    ensures AllRenderable(p.statements + [s])
    ensures ProgramString(Program(p.statements + [s])) == ProgramString(p) + StatementString(s)
  {
    assert (p.statements + [s])[..|p.statements|] == p.statements;
  }

  /** Appending statements keeps the program's token literal once it has one statement. */
  lemma ProgramTokenLiteralAppend(a: seq<Statement>, b: seq<Statement>)
    requires a != []
    ensures ProgramTokenLiteral(Program(a + b)) == ProgramTokenLiteral(Program(a))
  {
  }

  /** The rendering of a let statement built by the two-argument constructor from an identifier. */
  lemma NewLetStatementString(name: Identifier, value: Option<Expression>)
    ensures Renderable(NewLetStatement(Some(name), value))
    ensures StatementString(NewLetStatement(Some(name), value)) == "let " + name.value + " = " + OptionString(value) + ";"
  {
  }
}
