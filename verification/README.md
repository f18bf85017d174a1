# Monkey front end: lexer, AST and statement parser

This project models the front end of an early C++ interpreter for the Monkey
language. It covers four parts:

- **Tokens.** A closed set of 27 token kinds, and a token as a (kind, literal)
  pair. A keyword table classifies a word as one of seven keywords or as an
  identifier.
- **Lexer.** A cursor over the input text that hands out one token per
  `nextToken` call.
- **AST.** Let, return and expression statements, identifiers and integer
  literals, each able to report its token literal and render itself as text.
- **Parser.** Reads the lexer's tokens through a current/peek window and
  collects diagnostics. It parses `let` and `return` statements by skipping to
  the next `;`, and parses expressions through a prefix-only handler table in
  which only identifiers are registered.

## How the model is built

- **Tokens and the AST are values.** `Tokens` and `Ast` hold datatypes and
  pure functions. An absent child node (a null `unique_ptr`) is `None`.
- **The lexer is a class proved against a function.** `Lexing.Lexer` has the
  fields `position`, `readPosition` and `ch`. Its methods are proved against
  the pure function `Lexing.Scan`, which gives the token one `nextToken` call
  returns and where it leaves the cursor. `TokensFrom` is the whole token
  stream up to the first eof.
- **The parser is a class proved against a reference parse.** `Parsing.Parser`
  owns its lexer, a current and a peek token, the error list, and the prefix
  and infix tables. Its methods are proved against `ParseSpec`, a reference
  parse over the sequence of tokens still ahead. Each method's postcondition
  ties its new state to one step of that reference parse.
- **Parses that never stop are values.** The let and return parsers skip to a
  `;`. When none comes, they loop forever on eof. The reference parse
  represents this outcome as a value (`SkipsForever`, `RunsForever`). The
  imperative parser is only called where that outcome does not occur.
  `ParseSpec.Terminated` is a simple sufficient condition that rules it out.

The model follows the code as written:

- At most one space or newline is skipped per call. A tab, a carriage return
  or a second blank becomes an `illegal` token.
- Every digit is an integer token of its own, so `10` is two tokens.
- An identifier must start with a letter and then takes letters and
  underscores. The character right after it is consumed and lost, so `x+`
  is just `x`.
- There is no `==` or `!=`. The characters `- ! / * < >` become `illegal`
  tokens.
- A NUL byte under the cursor yields eof and ends the token stream. A NUL
  right after an identifier is consumed with it, and lexing goes on, so
  `a`, NUL, `b` lexes as the two identifiers `a` and `b`.
- The eof token the lexer builds from its NUL byte has a one-character
  literal. The default token has an empty literal.
- Diagnostics print the two token kinds as their enumerator numbers.
- The precedence levels are declared with INDEX below LOWEST and with no
  less/greater level.
- A malformed `let` is not skipped. The parser records one diagnostic and
  returns no statement. When the name is missing, parsing resumes at the
  token after `let`. When the `=` is missing, it resumes at the token after
  the name.

The intended design of the language differs on several of these points: a
run of blanks skipped, multi-digit numbers, two-character `==`/`!=`, INDEX
binding tightest, and a recovery policy for malformed statements. Where the
two disagree, the model follows the code.

The source comes from two snapshots that do not compile together:

- `src/lexer.cpp` defines a lower-case `lexer` producing a lower-case `token`.
- The parser uses `Lexer` and `Token` from the headers.

The model joins them into one system: the behaviour of `src/lexer.cpp`,
producing the `Token` of `src/token.h`, consumed by `src/parser.cpp`.

## Model

| member | source | states |
|---|---|---|
| Tokens.Ordinal | src/token.h:7-35 | every kind converts to a number below 27, the count of declared kinds |
| Tokens.KindOf | src/token.h:7-35 | every number below 27 converts back to the kind declared at that position |
| Tokens.OrdinalRoundTrip | src/token.h:7-35 | reading back a kind's number gives the kind again, so the 27 kinds are a closed, declaration-ordered set |
| Tokens.OrdinalInjective | src/token.h:7-35 | distinct kinds print as distinct numbers in diagnostics |
| Tokens.FromCString | src/token.cpp:8 | a `std::string` built from a C string holds the characters before the first NUL and no NUL |
| Tokens.CharToken | src/token.h:42 | a token built from one character has that kind and that single character as its literal; the lexer builds every one-character token this way |
| Tokens.DefaultToken | src/token.cpp:8 | the default token has kind eof and an empty literal |
| Tokens.LookupKeyword | src/token.cpp:21-36 | the lookup only ever yields identifier or one of the seven keyword kinds, never an operator, delimiter, integer or eof kind |
| Tokens.LookupKeywordIsKeyword | src/token.cpp:22-33 | a word classifies as something other than identifier exactly when it is one of the seven keyword spellings |
| Tokens.Spelling | src/token.cpp:22-27 | each keyword kind has a non-empty spelling |
| Tokens.LookupSpelling | src/token.cpp:22-27 | each keyword kind is reached from its spelling |
| Tokens.LookupIsSpelling | src/token.cpp:22-35 | a word classified as a keyword is that keyword's spelling |
| Tokens.KeywordsInjective | src/token.cpp:22-27 | distinct words never classify as the same keyword |
| Tokens.LookupIsCaseSensitive | src/token.cpp:29-33 | "Let", "FN" and the empty word classify as identifier |
| Decimal.NatToDecimal | src/ast.cpp:105 | a natural number's spelling is non-empty, all digits, with no leading zero |
| Decimal.DecimalRoundTrip | src/ast.cpp:105 | reading a natural number's spelling gives the number back |
| Decimal.IntToDecimal | src/ast.cpp:105 | an integer's spelling starts with '-' exactly when the integer is negative |
| Decimal.SignedDecimalRoundTrip | src/ast.cpp:105 | reading an integer's spelling gives the integer back |
| Decimal.IntToDecimalInjective | src/ast.cpp:105 | distinct integers have distinct spellings |
| Lexing.IsLetter | src/lexer.cpp:33 | an identifier continues with an ASCII letter or an underscore |
| Lexing.IdentEnd | src/lexer.cpp:35-42 | the identifier loop stops at the first non-letter after its start, and every character before it is a letter or underscore |
| Lexing.IdentEndUnique | src/lexer.cpp:35-42 | any position preceded by a run of letters from the start and holding a non-letter is where the identifier loop stops |
| Lexing.Scan | src/lexer.cpp:50-95 | every call yields one token and moves the cursor forward by at least one |
| Lexing.TokensFrom | src/lexer.cpp:50-95 | the token stream before the first eof holds no eof token |
| Lexing.ScanPastEnd | src/lexer.cpp:23-31 | once the cursor is at or past the end, every call returns eof with literal NUL, so the stream there is empty |
| Lexing.ScanEof | src/lexer.cpp:78-80 | in NUL-free input a call returns eof exactly when the cursor, after skipping, is at or past the end, and it then leaves the cursor past the end |
| Lexing.ScanNulIsEof | src/lexer.cpp:78-80 | a NUL byte under the cursor yields eof with literal NUL and moves the cursor past it |
| Lexing.ScanNeverOperator | src/lexer.cpp:53-91 | no call yields minus, bang, slash, asterisk, less, greater, equal or not-equal |
| Lexing.ScanPunctuation | src/lexer.cpp:54-77 | each of `= ; ( ) , + { }` yields its own kind with that one character as literal, and advances by one |
| Lexing.ScanOperatorIsIllegal | src/lexer.cpp:81-91 | each of `- ! / * < >` yields an illegal token carrying that character |
| Lexing.ScanIdentifier | src/lexer.cpp:82-85 | a letter starts the maximal run of letters and underscores, classified by the keyword lookup, and the character after the run is consumed |
| Lexing.ScanLeadingUnderscore | src/lexer.cpp:81-91 | an underscore cannot start an identifier and yields illegal "_" |
| Lexing.ScanDigit | src/lexer.cpp:86-87 | a digit yields an integer token of that one digit |
| Lexing.ScanSkipsAtMostOne | src/lexer.cpp:44-48 | after one skipped blank, a second blank yields an illegal token |
| Lexing.ScanTabIsIllegal | src/lexer.cpp:44-48 | a tab or carriage return is not skipped and yields an illegal token |
| Lexing.ScanLexeme | src/lexer.cpp:50-95 | every token other than eof carries a non-empty literal that is exactly the input text where it starts |
| Lexing.TokensFromWord | src/lexer.cpp:82-85 | a text that is one word of letters, starting with an alphabetic character and not a keyword, lexes as exactly that identifier |
| Lexing.ScanKeywordSpelled | src/lexer.cpp:82-85 | a keyword token's literal is its keyword's spelling |
| Lexing.TokensKeywordsSpelled | src/lexer.cpp:82-85 | every keyword token of the stream carries its keyword's spelling |
| Lexing.Cursors | src/lexer.cpp:50-95 | there is one cursor per call, starting at the initial cursor |
| Lexing.CursorsScan | src/lexer.cpp:50-95 | call i from cursor i yields token i and cursor i+1, and the call after the last token yields eof |
| Lexing.CursorsScanAll | src/lexer.cpp:50-95 | in NUL-free input, every token comes from the call at its cursor, and the final cursor is at the end after skipping |
| Lexing.FirstTwoScans | src/lexer.cpp:50-95 | the first two calls yield the stream's first two tokens, or eof where the stream is shorter |
| Lexing.ScanExtend | src/lexer.cpp:50-95 | a call that stays within the input yields the same result when more text follows |
| Lexing.ScanShift | src/lexer.cpp:50-95 | a call on a suffix behaves as on the suffix alone, with cursors shifted by the prefix length |
| Lexing.TokensFromShift | src/lexer.cpp:50-95 | the stream from inside an appended text is that text's own stream |
| Lexing.LastCursorAfterFirst | src/lexer.cpp:50-95 | the final cursor is never before the starting one |
| Lexing.TokensFromAppend | src/lexer.cpp:50-95 | when lexing a text ends exactly at its end, lexing it followed by more text gives its stream followed by the stream of the rest |
| Lexing.TokensFromPrepend | src/lexer.cpp:50-95 | a piece that lexes as one token spanning all of it contributes exactly that token ahead of what follows |
| Lexing.Lexer.constructor | src/lexer.cpp:20-21 | a new lexer sits at position 0 with the read cursor one ahead and the first byte, or NUL for empty input, as current byte |
| Lexing.Lexer.Copy | src/parser.cpp:13 | the parser's copy of a lexer has the same input and position and keeps the class invariant |
| Lexing.Lexer.ReadChar | src/lexer.cpp:23-31 | the position advances by exactly one and the current byte is the input's character there, or NUL past the end |
| Lexing.Lexer.ReadIdentifier | src/lexer.cpp:35-42 | the returned word is the maximal run of letters and underscores from the cursor, and the cursor ends on the first character after it |
| Lexing.Lexer.SkipWhitespace | src/lexer.cpp:44-48 | the cursor advances by one exactly when the given byte is a space or newline |
| Lexing.Lexer.NextToken | src/lexer.cpp:50-95 | the token and new cursor are those of `Scan`, and the remaining stream loses exactly that token, so repeated calls at the end keep returning eof |
| Ast.IdentifierTokenLiteral | src/ast.cpp:35 | an identifier reports its token's literal |
| Ast.IdentifierString | src/ast.cpp:37-41 | an identifier renders as its name, which may differ from its token's literal |
| Ast.ExpressionTokenLiteral | src/ast.cpp:113 | an expression reports its token's literal |
| Ast.ExpressionString | src/ast.cpp:105 | an identifier renders as its name and an integer literal as its value's decimal spelling; `Ast.IntegerLiteralStringRoundTrip` reads that spelling back |
| Ast.StatementTokenLiteral | src/ast.cpp:46-90 | every statement reports its own token's literal, as the let, return and expression statements each do |
| Ast.StatementString | src/ast.cpp:50-98 | the rendering of the three statement kinds, with an absent value or expression rendered as nothing; `Ast.StatementStringShape` states its shape |
| Ast.StatementsString | src/ast.cpp:22-27 | the statements rendered one after the other, with no separator |
| Ast.ProgramString | src/ast.cpp:22-27 | a program renders as its statements' renderings concatenated in order |
| Ast.ProgramTokenLiteral | src/ast.cpp:15-20 | a program reports its first statement's token literal, or the empty text; `Scenarios.ParseLets` shows it is "let" for a parsed let program |
| Ast.DefaultIdentifier | src/ast.h:37-48 | a default identifier has an eof token, an empty literal and an empty name |
| Ast.DefaultProgram | src/ast.h:28-35 | a default program has no statements and renders as empty text with an empty token literal |
| Ast.DefaultLetStatement | src/ast.h:50-61 | a default let statement has neither name nor value and cannot be rendered |
| Ast.DefaultReturnStatement | src/ast.h:63-71 | a default return statement has no value and renders as " ;" |
| Ast.DefaultExpressionStatement | src/ast.h:73-80 | a default expression statement has no expression and renders as empty text |
| Ast.NewLetStatement | src/ast.cpp:61-67 | the two-argument constructor keeps its children and fixes the token to kind let with literal "let" |
| Ast.IntegerLiteralStringRoundTrip | src/ast.cpp:105 | an integer literal's rendering reads back as its value |
| Ast.StatementStringShape | src/ast.cpp:50-98 | a let renders as literal, space, name, " = ", value and ";"; a return as literal, space, value and ";"; an expression statement as its expression alone |
| Ast.AllRenderableAppend | src/ast.cpp:22-27 | two renderable statement lists joined remain renderable |
| Ast.StatementsStringAppend | src/ast.cpp:22-27 | rendering distributes over concatenation of statement lists, with no separator |
| Ast.ProgramStringAppend | src/ast.cpp:22-27 | appending a statement to a program appends its rendering |
| Ast.ProgramTokenLiteralAppend | src/ast.cpp:15-20 | appending statements to a non-empty program keeps its token literal |
| Ast.NewLetStatementString | src/ast.cpp:61-83 | a let built from a name renders as "let ", the name, " = ", the value and ";" |
| ParseSpec.PrecedenceOrdinal | src/parser.h:16-24 | the seven precedence levels number 0 to 6 in declaration order (INDEX, LOWEST, EQUALS, SUM, PRODUCT, PREFIX, CALL), so the number gives the level back |
| ParseSpec.ErrorMessage | src/parser.cpp:38-43 | the diagnostic text: "expected next token to be ", the expected kind's number, ", got ", the found kind's number, " instead." |
| ParseSpec.DigitsDelimited | src/parser.cpp:38-43 | a run of digits followed by a non-digit is recovered uniquely from the text around it |
| ParseSpec.ErrorMessageInjective | src/parser.cpp:38-43 | distinct (expected, found) pairs give distinct diagnostic texts |
| ParseSpec.FirstSemicolon | src/parser.cpp:94-96 | the skip loop stops at the first semicolon from the given index, or finds none |
| ParseSpec.IdentifierExpression | src/parser.cpp:21-23 | the identifier built from the current token renders as its literal and reports it as token literal |
| ParseSpec.PrefixParse | src/parser.cpp:65-72 | an expression is produced exactly when the current kind has a prefix handler |
| ParseSpec.StandardPrefixParse | src/parser.cpp:65-72 | with the constructor's table, exactly identifiers parse, as the identifier named by the token's literal |
| ParseSpec.LetStep | src/parser.cpp:74-99 | a let parse that stops consumes no more tokens than are ahead |
| ParseSpec.ReturnStep | src/parser.cpp:101-113 | a return parse that stops ends on a token that is ahead |
| ParseSpec.ExpressionStep | src/parser.cpp:54-63 | an expression statement always yields a statement, consumes at most one token and records no diagnostic |
| ParseSpec.StatementStep | src/parser.cpp:115-124 | a statement parse that stops consumes no more tokens than are ahead |
| ParseSpec.LetStepOutcome | src/parser.cpp:74-99 | a let yields a statement exactly when an identifier and then `=` follow; it then takes the let token, names the identifier by its literal, has no value and ends on a semicolon; otherwise it records one diagnostic naming the expected and the found kind |
| ParseSpec.LetStepDiverges | src/parser.cpp:89-96 | a let runs forever exactly when its name and `=` are present and no semicolon follows |
| ParseSpec.ReturnStepOutcome | src/parser.cpp:101-113 | a return runs forever exactly when no semicolon follows; otherwise it yields a statement without value, on the return token, ending at the first semicolon |
| ParseSpec.ParseTokens | src/parser.cpp:126-140 | the program loop: each statement step's statement, when there is one, is kept, one more token is dropped, and the loop goes on until nothing is ahead; a step that never stops makes the whole parse never stop |
| ParseSpec.TerminatedSuffix | src/parser.cpp:126-140 | a token sequence in which every let and return has a later semicolon keeps that property in its suffixes |
| ParseSpec.TerminatedParses | src/parser.cpp:126-140 | the program loop stops whenever every let and return has a later semicolon |
| ParseSpec.ParseTokensCount | src/parser.cpp:126-140 | a program holds no more statements than there were tokens |
| ParseSpec.StatementStepErrors | src/parser.cpp:115-124 | a statement parse only reports a missing identifier or `=`, and only for let statements |
| ParseSpec.ParseTokensErrors | src/parser.cpp:126-140 | every diagnostic expects an identifier or `=`, and input without `let` parses without diagnostics |
| ParseSpec.StatementStepWellFormed | src/parser.cpp:74-124 | over lexer output, every statement produced carries its keyword's literal, names its identifier by the literal, and can be rendered |
| ParseSpec.ParseTokensWellFormed | src/parser.cpp:126-140 | over lexer output, every statement of the program is well formed and renderable |
| ParseSpec.ParseTokensExpressions | src/parser.cpp:126-140 | tokens with no let, return or semicolon parse, without diagnostics, as one expression statement per token |
| ParseSpec.ParseLetThen | src/parser.cpp:74-99 | `let <identifier> = ... ;` followed by more tokens parses as the named let statement followed by the rest's program |
| ParseSpec.LetStepThen | src/parser.cpp:74-99 | on `let <identifier> = ... ;`, the let parse yields the named statement and stops on the semicolon |
| ParseSpec.ParseLetWithoutName | src/parser.cpp:79-81 | a let whose next token is not an identifier yields no statement and one diagnostic, and parsing resumes at that token |
| ParseSpec.LetStepWithoutName | src/parser.cpp:79-81 | a let whose next token is not an identifier records the expected and the found kind without moving |
| ParseSpec.ParseLetWithoutAssign | src/parser.cpp:89-91 | a let whose name is not followed by `=` yields no statement and one diagnostic, and parsing resumes at the offending token |
| ParseSpec.LetStepWithoutAssign | src/parser.cpp:89-91 | a let whose name is not followed by `=` records the expected and the found kind after moving onto the name |
| ParseSpec.ParseReturnThen | src/parser.cpp:101-113 | `return ... ;` followed by more tokens parses as a return without value followed by the rest's program |
| ParseSpec.ReturnStepThen | src/parser.cpp:101-124 | on `return ... ;`, the statement parse yields a return without value and stops on the semicolon |
| ParseSpec.FirstSemicolonAt | src/parser.cpp:94-96 | the skip loop stops at a semicolon with none before it |
| Parsing.Parser.AheadStartsWithCurrent | src/parser.h:28-30 | the tokens ahead start with the current token, are empty exactly when it is eof, and continue with the peek token |
| Parsing.Parser.constructor | src/parser.cpp:13-19 | the parser starts on the lexer's first two tokens with no diagnostics, the identifier prefix handler only and no infix handler |
| Parsing.Parser.ParseIdentifier | src/parser.cpp:21-23 | the identifier built renders as the current token's literal and reports it as token literal |
| Parsing.Parser.RegisterPrefix | src/parser.cpp:25-27 | a registration is added only when the kind has none yet |
| Parsing.Parser.RegisterInfix | src/parser.cpp:29-31 | a registration is added only when the kind has none yet |
| Parsing.Parser.NextToken | src/parser.cpp:33-36 | the peek token becomes current, the next token of the lexer becomes peek, and the tokens ahead lose one |
| Parsing.Parser.PeekError | src/parser.cpp:38-43 | exactly one diagnostic naming the expected kind and the peek kind is appended |
| Parsing.Parser.ExpectPeek | src/parser.cpp:45-52 | succeeds exactly when the peek kind matches; on success it advances once with diagnostics unchanged, otherwise it appends one diagnostic and does not move |
| Parsing.Parser.ParseExpression | src/parser.cpp:65-72 | an expression is produced exactly when the current kind has a handler; with the constructor's table, exactly for identifiers, rendering as the token's literal; the precedence is ignored |
| Parsing.Parser.ParseExpressionStatement | src/parser.cpp:54-63 | always yields a statement on the starting token, advances only when the current token is a semicolon, records no diagnostic, and agrees with the reference step |
| Parsing.Parser.SkipToSemicolon | src/parser.cpp:94-96 | the loop stops with the first semicolon ahead as current token |
| Parsing.Parser.ParseLetStatement | src/parser.cpp:74-99 | the statement, the tokens consumed and the diagnostics added are those of the reference let step |
| Parsing.Parser.ParseReturnStatement | src/parser.cpp:101-113 | the statement, the tokens consumed and the diagnostics added are those of the reference return step |
| Parsing.Parser.ParseStatement | src/parser.cpp:115-124 | dispatches on the current kind, and its result agrees with the reference statement step |
| Parsing.Parser.ParseProgram | src/parser.cpp:126-140 | the program's statements and the diagnostics added are those of the reference parse, and the parser ends on eof with nothing ahead |
| Parsing.Parser.HasNoErrors | src/parser.cpp:213-223 | the test helper's check passes exactly when no diagnostic was recorded |
| Parsing.ParseSource | src/parser.cpp:159-162 | lexing and parsing a NUL-free input yields the reference parse of its token stream |
| Scenarios.LexTwoDigits | src/lexer.cpp:86-87 | "10" lexes as two integer tokens, not as the single token "10" |
| Scenarios.LexIdentifierSwallowsNext | src/lexer.cpp:82-93 | "x+" lexes as the identifier x alone |
| Scenarios.LexNulAfterIdentifier | src/lexer.cpp:82-93 | a letter, a NUL and a letter lex as two one-letter identifiers: the NUL after an identifier is consumed and does not end the stream |
| Scenarios.LexNoEqualOperator | src/lexer.cpp:54-91 | "==" lexes as two assignments, and "!" as an illegal token |
| Scenarios.LexLeadingUnderscore | src/lexer.cpp:81-91 | "_x" lexes as an illegal "_" and then the identifier x |
| Scenarios.LexBlanks | src/lexer.cpp:44-52 | of two leading blanks only one is skipped, and a tab is not skipped |
| Scenarios.RenderLetMyVar | src/ast.cpp:115-128 | a program of `let myVar = anotherVar` renders exactly as "let myVar = anotherVar;" |
| Scenarios.ParseLets | src/parser.cpp:155-182 | any sequence of `let <identifier> = <value without ;> ;` parses, without diagnostics, as one let per statement, in order, each named by its identifier in both name and token literal |
| Scenarios.ParseReturns | src/parser.cpp:184-211 | any sequence of `return <value without ;> ;` parses, without diagnostics, as one return per statement, each with literal "return" and no value |
| Scenarios.ParseIdentifierTest | src/parser.cpp:225-248 | "foobar" lexes and parses as one expression statement holding the identifier foobar, without diagnostics |

## Left out

- Printing: `Token::print`, the lexer's `print`, and the output of
  `checkParserErrors`. The last is replaced by `Parsing.Parser.HasNoErrors`
  (no diagnostic recorded). Its process exit is not modelled.
- The lexer's own `test()` and `main`. This test expects "10" to be one token
  and a `(` after `add`. The code reads one digit per token and drops the
  character after an identifier, and the model follows the code.
  `Scenarios.LexTwoDigits` and `Scenarios.LexIdentifierSwallowsNext` show
  both points.
- The REPL and `main.cpp`: console I/O. They are not part of this model.
- `lexer.h`. It declares `peekChar`, `readNumber` and a member keyword lookup
  whose bodies are not part of this model. Behaviour comes from
  `src/lexer.cpp`.
- `parseIntegerLiteral` and `testIntegerLiteralExpression`: declared, never
  defined.
- The infix (Pratt) loop, which `parseExpression` does not have. No infix
  handler exists, so `InfixFn` is only a numbered tag.
- Handler closures (`std::function`) are modelled as the tag
  `ParseIdentifierFn`, applied to the current token.
- Diagnostics are the pair (expected kind, found kind). `ErrorMessage` gives
  their text.
- `isalpha`/`isdigit` are taken in the ASCII "C" locale.
- A Dafny `char` stands for one byte of the C++ `std::string`. Characters
  above 255 have no counterpart there, and multi-byte UTF-8 text, which the
  C++ lexer sees as several bytes each lexed as an illegal token, is not
  modelled byte by byte.
- `size_t` positions are unbounded naturals. No input is long enough for
  their width to matter.
- The `Token(kind, char)` constructor is declared but its body is not part
  of this model. `Tokens.CharToken` takes it to store that one character.
- Parsing.Parser.constructor, Parsing.ParseSource: require NUL-free input. The
  lexer handles a NUL, but the parser's window then assumes the stream stops
  at its first eof.
- Parsing.Parser.ParseProgram, Parsing.Parser.ParseLetStatement,
  Parsing.Parser.ParseReturnStatement, Parsing.Parser.ParseStatement,
  Parsing.ParseSource: are only called where the reference parse stops. The
  source loops forever on eof when a `let` or `return` has no later `;`. The
  reference parse gives that case as `RunsForever`, and
  `ParseSpec.LetStepDiverges` and `ParseSpec.ReturnStepOutcome`
  characterise it.
- Scenarios.ParseLets, Scenarios.ParseReturns: state the let and return tests
  over their token shape (any values without `;`), not from the literal
  input text. Lexing those texts end to end is not proved here.
  `Scenarios.ParseIdentifierTest` does go from text to program.
