/**
 * The lexer of src/lexer.cpp: a cursor over the input that hands out one token
 * per call. `Scan` states, as a function of the input and the cursor, what one
 * call of `nextToken` returns and where it leaves the cursor; the class
 * `Lexer` is the cursor-driven code, proved against it.
 *
 * Behaviour follows the code as written: one space or newline at most is
 * skipped per call, each digit is a token of its own, the character right
 * after an identifier is consumed and lost, and there is no two-character
 * operator.
 */
module Lexing {
  import opened Wrappers
  import opened Tokens
  import opened Decimal

  /** The current byte at cursor `i`: the input's character, or NUL past its end. */
  function CharAt(input: string, i: nat): char
  {
    if i < |input| then input[i] else NUL
  }

  predicate NoNul(input: string)
  {
    forall i :: 0 <= i < |input| ==> input[i] != NUL
  }

  /** `isalpha` on ASCII. */
  predicate IsAlpha(c: char)
  {
    'a' <= c <= 'z' || 'A' <= c <= 'Z'
  }

  /** `isLetter`: what an identifier may continue with. */
  predicate IsLetter(c: char)
  {
    IsAlpha(c) || c == '_'
  }

  /** What `skipWhitespace` skips. */
  predicate IsSkipped(c: char)
  {
    c == ' ' || c == '\n'
  }

  /** The explicit cases of the switch in `nextToken`. */
  function SwitchKind(c: char): Option<TokenType>
  {
    match c
    case '=' => Some(Assign)
    case ';' => Some(Semicolon)
    case '(' => Some(LParen)
    case ')' => Some(RParen)
    case ',' => Some(Comma)
    case '+' => Some(Plus)
    case '{' => Some(LSquirly)
    case '}' => Some(RSquirly)
    case '\0' => Some(Eof)
    case _ => None
  }

  /** The cursor after skipping: one position further when the current byte is skipped. */
  function AfterWhitespace(input: string, pos: nat): nat
  {
    if IsSkipped(CharAt(input, pos)) then pos + 1 else pos
  }

  /** Where the run of letters and underscores starting at `i` ends. */
  function IdentEnd(input: string, i: nat): (e: nat)
    decreases |input| - i
    ensures i <= e
    ensures i <= |input| ==> e <= |input|
    ensures !IsLetter(CharAt(input, e))
    ensures forall k :: i <= k < e ==> IsLetter(CharAt(input, k))
  {
    if IsLetter(CharAt(input, i)) then IdentEnd(input, i + 1) else i
  }

  /** The run ends at the first non-letter and nowhere else. */
  lemma {:induction false} IdentEndUnique(input: string, i: nat, e: nat)
    requires i <= e
    requires forall k :: i <= k < e ==> IsLetter(CharAt(input, k))
    requires !IsLetter(CharAt(input, e))
    ensures IdentEnd(input, i) == e
    decreases e - i
  {
    if i < e {
      assert IsLetter(CharAt(input, i));
      IdentEndUnique(input, i + 1, e);
    }
  }

  /** The text `readIdentifier` collects from cursor `i`. */
  function IdentWord(input: string, i: nat): string
  {
    if i <= |input| then input[i..IdentEnd(input, i)] else []
  }

  /**
   * One call of `nextToken` from cursor `pos`: the token and the new cursor.
   * Every call moves the cursor forward.
   */
  function Scan(input: string, pos: nat): (r: (Token, nat))
    ensures r.1 > pos
  {
    var p := AfterWhitespace(input, pos);
    var c := CharAt(input, p);
    match SwitchKind(c)
    case Some(k) => (CharToken(k, c), p + 1)
    case None =>
      if IsAlpha(c) then
        var word := IdentWord(input, p);
        (Token(LookupKeyword(word), word), IdentEnd(input, p) + 1)
      else if IsDigitChar(c) then (CharToken(Integer, c), p + 1)
      else (CharToken(Illegal, c), p + 1)
  }

  /** The tokens successive calls yield from cursor `pos`, up to (not including) the first eof. */
  function TokensFrom(input: string, pos: nat): (ts: seq<Token>)
    decreases |input| - pos
    ensures forall i :: 0 <= i < |ts| ==> ts[i].kind != Eof
  {
    var (t, next) := Scan(input, pos);
    if t.kind == Eof then [] else [t] + TokensFrom(input, next)
  }

  /** A call that yields eof ends the stream; any other token is put in front of the rest of it. */
  lemma TokensFromStep(input: string, pos: nat, t: Token, next: nat)
    requires Scan(input, pos) == (t, next)
    ensures TokensFrom(input, pos) == if t.kind == Eof then [] else [t] + TokensFrom(input, next)
  {
  }

  /** Past the end of the input every call yields eof and moves on by one: eof is idempotent. */
  lemma ScanPastEnd(input: string, pos: nat)
    requires pos >= |input|
    ensures Scan(input, pos) == (Token(Eof, [NUL]), pos + 1)
    ensures TokensFrom(input, pos) == []
  {
  }

  /**
   * Without NUL bytes in the input, eof comes exactly when the cursor, after
   * skipping, is at or past the end, and it leaves the cursor past the end.
   */
  lemma ScanEof(input: string, pos: nat)
    requires NoNul(input)
    ensures Scan(input, pos).0.kind == Eof <==> AfterWhitespace(input, pos) >= |input|
    ensures Scan(input, pos).0.kind == Eof ==> Scan(input, pos).1 > |input|
  {
  }

  /** A NUL byte under the cursor is read as eof, so the token stream ends there. */
  lemma ScanNulIsEof(input: string, pos: nat)
    requires pos < |input| && input[pos] == NUL
    ensures Scan(input, pos) == (Token(Eof, [NUL]), pos + 1)
  {
  }

  /** The lexer never produces an operator kind it has no case for, nor a two-character operator. */
  lemma ScanNeverOperator(input: string, pos: nat)
    ensures Scan(input, pos).0.kind !in {Minus, Bang, Slash, Asterisk, Lt, Gt, Equal, NotEqual}
  {
  }

  /** The eight punctuation characters become one-character tokens of their kind; '=' is never combined. */
  lemma ScanPunctuation(input: string, pos: nat)
    requires CharAt(input, AfterWhitespace(input, pos)) in "=;(),+{}"
    ensures var p := AfterWhitespace(input, pos);
            var c := CharAt(input, p);
            var kind := match c
              case '=' => Assign case ';' => Semicolon case '(' => LParen case ')' => RParen
              case ',' => Comma case '+' => Plus case '{' => LSquirly case _ => RSquirly;
            Scan(input, pos) == (Token(kind, [c]), p + 1)
  {
  }

  /** `- ! / * < >` have no case of their own and come out as illegal one-character tokens. */
  lemma ScanOperatorIsIllegal(input: string, pos: nat)
    requires CharAt(input, AfterWhitespace(input, pos)) in "-!/*<>"
    ensures var p := AfterWhitespace(input, pos);
            Scan(input, pos) == (Token(Illegal, [CharAt(input, p)]), p + 1)
  {
  }

  /**
   * An identifier starts at an alphabetic character, takes the maximal run of
   * letters and underscores, is classified by the keyword table, and the
   * character right after it is consumed as well.
   */
  lemma ScanIdentifier(input: string, pos: nat)
    requires IsAlpha(CharAt(input, AfterWhitespace(input, pos)))
    ensures var p := AfterWhitespace(input, pos);
            var (t, next) := Scan(input, pos);
            var e := next - 1;
            && p < e <= |input|
            && t.literal == input[p..e]
            && (forall k :: 0 <= k < |t.literal| ==> IsLetter(t.literal[k]))
            && !IsLetter(CharAt(input, e))
            && t.kind == LookupKeyword(t.literal)
  {
    var p := AfterWhitespace(input, pos);
    var e := IdentEnd(input, p);
    assert IdentEnd(input, p) == IdentEnd(input, p + 1);
    forall k | 0 <= k < e - p ensures IsLetter(input[p..e][k]) {
      assert input[p..e][k] == CharAt(input, p + k);
    }
  }

  /** An underscore cannot start an identifier: it is an illegal token. */
  lemma ScanLeadingUnderscore(input: string, pos: nat)
    requires CharAt(input, AfterWhitespace(input, pos)) == '_'
    ensures Scan(input, pos) == (Token(Illegal, "_"), AfterWhitespace(input, pos) + 1)
  {
  }

  /** A digit is an integer token of that one digit; the next digit starts a new token. */
  lemma ScanDigit(input: string, pos: nat)
    requires IsDigitChar(CharAt(input, AfterWhitespace(input, pos)))
    ensures var p := AfterWhitespace(input, pos);
            Scan(input, pos) == (Token(Integer, [CharAt(input, p)]), p + 1)
  {
  }

  /** Only one space or newline is skipped: a second one is classified, as an illegal token. */
  lemma ScanSkipsAtMostOne(input: string, pos: nat)
    requires IsSkipped(CharAt(input, pos)) && IsSkipped(CharAt(input, pos + 1))
    ensures Scan(input, pos) == (Token(Illegal, [CharAt(input, pos + 1)]), pos + 2)
  {
  }

  /** Tab and carriage return are not whitespace to the lexer. */
  lemma ScanTabIsIllegal(input: string, pos: nat)
    requires CharAt(input, pos) in "\t\r"
    ensures Scan(input, pos) == (Token(Illegal, [CharAt(input, pos)]), pos + 1)
  {
  }

  /** Every token but eof carries the non-empty text it was read from. */
  lemma ScanLexeme(input: string, pos: nat)
    ensures var p := AfterWhitespace(input, pos);
            var t := Scan(input, pos).0;
            t.kind != Eof ==> 0 < |t.literal| && p + |t.literal| <= |input| && t.literal == input[p..p + |t.literal|]
  {
  }

  /** A text that is one word of letters, starting alphabetic and not a keyword, is read in one call. */
  lemma ScanWord(w: string)
    requires |w| > 0 && IsAlpha(w[0])
    requires forall k :: 0 <= k < |w| ==> IsLetter(w[k])
    requires LookupKeyword(w) == TokenType.Identifier
    ensures Scan(w, 0) == (Token(TokenType.Identifier, w), |w| + 1)
  {
    forall k | 0 <= k < |w| ensures IsLetter(CharAt(w, k)) {
      assert CharAt(w, k) == w[k];
    }
    assert CharAt(w, |w|) == NUL;
    IdentEndUnique(w, 0, |w|);
    assert IdentWord(w, 0) == w by {
      assert w[0..|w|] == w;
    }
    assert AfterWhitespace(w, 0) == 0 && CharAt(w, 0) == w[0];
  }

  /** Such a word lexes as that one identifier. */
  lemma TokensFromWord(w: string)
    requires |w| > 0 && IsAlpha(w[0])
    requires forall k :: 0 <= k < |w| ==> IsLetter(w[k])
    requires LookupKeyword(w) == TokenType.Identifier
    ensures TokensFrom(w, 0) == [Token(TokenType.Identifier, w)]
  {
    ScanWord(w);
    TokensFromStep(w, 0, Token(TokenType.Identifier, w), |w| + 1);
    ScanPastEnd(w, |w| + 1);
  }

  /** A keyword token carries the keyword's spelling. */
  lemma ScanKeywordSpelled(input: string, pos: nat)
    ensures var t := Scan(input, pos).0;
            IsKeyword(t.kind) ==> t.literal == Spelling(t.kind)
  {
    var p := AfterWhitespace(input, pos);
    if SwitchKind(CharAt(input, p)).None? && IsAlpha(CharAt(input, p)) {
      var word := IdentWord(input, p);
      if LookupKeyword(word) != Identifier {
        LookupIsSpelling(word);
      }
    }
  }

  /** Every keyword token of a lexed stream is spelled as its keyword. */
  lemma {:induction false} TokensKeywordsSpelled(input: string, pos: nat)
    decreases |input| - pos
    ensures KeywordsSpelled(TokensFrom(input, pos))
  {
    var (t, next) := Scan(input, pos);
    if t.kind != Eof {
      ScanKeywordSpelled(input, pos);
      TokensKeywordsSpelled(input, next);
      assert TokensFrom(input, pos) == [t] + TokensFrom(input, next);
    }
  }

  /** The cursor before each of those calls, and the cursor of the call that yields eof. */
  function Cursors(input: string, pos: nat): (cs: seq<nat>)
    decreases |input| - pos
    ensures |cs| == |TokensFrom(input, pos)| + 1 && cs[0] == pos
  {
    var (t, next) := Scan(input, pos);
    if t.kind == Eof then [pos] else [pos] + Cursors(input, next)
  }

  /**
   * The i-th call from cursor `pos` starts at the i-th cursor and yields the
   * i-th token and the next cursor; the call after the last token yields eof.
   */
  lemma {:induction false} CursorsScan(input: string, pos: nat, i: nat)
    requires i <= |TokensFrom(input, pos)|
    ensures var ts, cs := TokensFrom(input, pos), Cursors(input, pos);
            && (i < |ts| ==> Scan(input, cs[i]) == (ts[i], cs[i + 1]))
            && (i == |ts| ==> Scan(input, cs[i]).0.kind == Eof)
    decreases i
  {
    var (t, next) := Scan(input, pos);
    if i > 0 {
      assert t.kind != Eof;
      CursorsScan(input, next, i - 1);
      assert TokensFrom(input, pos) == [t] + TokensFrom(input, next);
      assert Cursors(input, pos) == [pos] + Cursors(input, next);
    }
  }

  /**
   * Without NUL bytes: each cursor yields its token and the next cursor, and
   * the last cursor, after skipping, is at or past the end of the input.
   */
  lemma CursorsScanAll(input: string, pos: nat)
    requires NoNul(input)
    ensures forall i {:trigger Scan(input, Cursors(input, pos)[i])} :: 0 <= i < |TokensFrom(input, pos)| ==>
              Scan(input, Cursors(input, pos)[i]) == (TokensFrom(input, pos)[i], Cursors(input, pos)[i + 1])
    ensures AfterWhitespace(input, Cursors(input, pos)[|TokensFrom(input, pos)|]) >= |input|
  {
    forall i | 0 <= i < |TokensFrom(input, pos)|
      ensures Scan(input, Cursors(input, pos)[i]) == (TokensFrom(input, pos)[i], Cursors(input, pos)[i + 1])
    {
      CursorsScan(input, pos, i);
    }
    CursorsScan(input, pos, |TokensFrom(input, pos)|);
    ScanEof(input, Cursors(input, pos)[|TokensFrom(input, pos)|]);
  }

  /** The first two calls from `pos`: the first two tokens (or eof), and the cursor after them. */
  lemma FirstTwoScans(input: string, pos: nat)
    requires NoNul(input)
    ensures var ts, cs := TokensFrom(input, pos), Cursors(input, pos);
            var (t0, p1) := Scan(input, pos);
            var (t1, p2) := Scan(input, p1);
            && (0 < |ts| ==> t0 == ts[0]) && (0 == |ts| ==> t0.kind == Eof)
            && (1 < |ts| ==> t1 == ts[1]) && (1 >= |ts| ==> t1.kind == Eof)
            && (2 <= |ts| ==> p2 == cs[2]) && (2 > |ts| ==> p2 >= |input|)
  {
    var ts, cs := TokensFrom(input, pos), Cursors(input, pos);
    CursorsScan(input, pos, 0);
    var p1 := Scan(input, pos).1;
    if 0 < |ts| {
      CursorsScan(input, pos, 1);
      if 1 == |ts| {
        ScanEof(input, p1);
      }
    } else {
      ScanEof(input, pos);
      ScanPastEnd(input, p1);
    }
  }

  // ---- Lexing is local ----

  /** A call whose cursor ends inside `a` reads nothing beyond it: text appended to `a` does not change it. */
  lemma ScanExtend(a: string, b: string, pos: nat)
    requires Scan(a, pos).1 <= |a|
    ensures Scan(a + b, pos) == Scan(a, pos)
  {
    var p := AfterWhitespace(a, pos);
    assert CharAt(a + b, pos) == CharAt(a, pos);
    assert CharAt(a + b, p) == CharAt(a, p);
    var c := CharAt(a, p);
    if SwitchKind(c).None? && IsAlpha(c) {
      var e := IdentEnd(a, p);
      forall k | p <= k < e ensures IsLetter(CharAt(a + b, k)) {
        assert CharAt(a + b, k) == CharAt(a, k);
      }
      assert CharAt(a + b, e) == CharAt(a, e);
      IdentEndUnique(a + b, p, e);
      assert (a + b)[p..e] == a[p..e];
    }
  }

  /** Text put in front of the input shifts every cursor by its length and changes no token. */
  lemma ScanShift(a: string, b: string, pos: nat)
    ensures Scan(a + b, |a| + pos) == (Scan(b, pos).0, |a| + Scan(b, pos).1)
  {
    var p := AfterWhitespace(b, pos);
    assert CharAt(a + b, |a| + pos) == CharAt(b, pos);
    assert CharAt(a + b, |a| + p) == CharAt(b, p);
    assert AfterWhitespace(a + b, |a| + pos) == |a| + p;
    var c := CharAt(b, p);
    if SwitchKind(c).None? && IsAlpha(c) {
      var e := IdentEnd(b, p);
      forall k | |a| + p <= k < |a| + e ensures IsLetter(CharAt(a + b, k)) {
        assert CharAt(a + b, k) == CharAt(b, k - |a|);
      }
      assert CharAt(a + b, |a| + e) == CharAt(b, e);
      IdentEndUnique(a + b, |a| + p, |a| + e);
      assert IdentWord(a + b, |a| + p) == IdentWord(b, p) by {
        if p <= |b| {
          assert e <= |b|;
          forall k | |a| + p <= k < |a| + e ensures (a + b)[k] == b[k - |a|] { }
          assert (a + b)[|a| + p..|a| + e] == b[p..e];
        }
      }
    }
  }

  lemma {:induction false} TokensFromShift(a: string, b: string, pos: nat)
    ensures TokensFrom(a + b, |a| + pos) == TokensFrom(b, pos)
    decreases |b| - pos
  {
    var (t, next) := Scan(b, pos);
    ScanShift(a, b, pos);
    TokensFromStep(a + b, |a| + pos, t, |a| + next);
    TokensFromStep(b, pos, t, next);
    if t.kind != Eof {
      TokensFromShift(a, b, next);
    }
  }

  /** The last cursor, where eof is read, is never before the first. */
  lemma {:induction false} LastCursorAfterFirst(input: string, pos: nat)
    ensures Cursors(input, pos)[|TokensFrom(input, pos)|] >= pos
    decreases |input| - pos
  {
    var (t, next) := Scan(input, pos);
    if t.kind != Eof {
      LastCursorAfterFirst(input, next);
      assert TokensFrom(input, pos) == [t] + TokensFrom(input, next);
      assert Cursors(input, pos) == [pos] + Cursors(input, next);
    }
  }

  /**
   * When the lexer reaches eof exactly at the end of `a`, lexing `a + b` is
   * lexing `a` and then `b`: statements can be lexed one at a time.
   */
  lemma {:induction false} TokensFromAppend(a: string, b: string, pos: nat)
    requires Cursors(a, pos)[|TokensFrom(a, pos)|] == |a|
    ensures TokensFrom(a + b, pos) == TokensFrom(a, pos) + TokensFrom(b, 0)
    decreases |a| - pos
  {
    var (t, next) := Scan(a, pos);
    TokensFromStep(a, pos, t, next);
    if t.kind == Eof {
      assert pos == |a|;
      TokensFromShift(a, b, 0);
    } else {
      assert Cursors(a, pos) == [pos] + Cursors(a, next);
      LastCursorAfterFirst(a, next);
      ScanExtend(a, b, pos);
      TokensFromStep(a + b, pos, t, next);
      TokensFromAppend(a, b, next);
      AppendAssociative([t], TokensFrom(a, next), TokensFrom(b, 0));
    }
  }

  /** Text that one call consumes entirely, up to its last character, contributes that one token. */
  lemma TokensFromPrepend(p: string, t: Token, rest: string)
    requires t.kind != Eof && Scan(p, 0) == (t, |p|)
    ensures TokensFrom(p + rest, 0) == [t] + TokensFrom(rest, 0)
  {
    ScanPastEnd(p, |p|);
    assert TokensFrom(p, 0) == [t];
    assert Cursors(p, 0)[1] == |p|;
    TokensFromAppend(p, rest, 0);
  }

  // ---- A window of two tokens ----

  /**
   * A two-token window over the lexer's output, as a parser reads it. The
   * stream is what the lexer yields from the cursors in turn, and the call
   * from the last cursor yields eof. The current and the next token are the stream's tokens at
   * `at` and `at + 1`, or eof past its end; the lexer's cursor is the one
   * before the token after those two, or past the end of the input.
   */
  ghost predicate Window(input: string, stream: seq<Token>, cursors: seq<nat>, at: nat, cur: Token, peek: Token, position: nat)
  {
    && |cursors| == |stream| + 1
    && (forall i :: 0 <= i < |stream| ==> stream[i].kind != Eof)
    && (forall i {:trigger Scan(input, cursors[i])} :: 0 <= i < |stream| ==>
          Scan(input, cursors[i]) == (stream[i], cursors[i + 1]))
    && AfterWhitespace(input, cursors[|stream|]) >= |input|
    && at <= |stream|
    && (at < |stream| ==> cur == stream[at]) && (at == |stream| ==> cur.kind == Eof)
    && (at + 1 < |stream| ==> peek == stream[at + 1]) && (at + 1 >= |stream| ==> peek.kind == Eof)
    && (at + 2 <= |stream| ==> position == cursors[at + 2])
    && (at + 2 > |stream| ==> position >= |input|)
  }

  /** Two lexer calls from `pos` put the window at the start of the stream from `pos`. */
  lemma FirstWindow(input: string, pos: nat, t0: Token, p1: nat, t1: Token, p2: nat)
    requires NoNul(input)
    requires Scan(input, pos) == (t0, p1) && Scan(input, p1) == (t1, p2)
    ensures Window(input, TokensFrom(input, pos), Cursors(input, pos), 0, t0, t1, p2)
  {
    CursorsScanAll(input, pos);
    FirstTwoScans(input, pos);
  }

  /** The cursor-driven lexer. */
  class Lexer {
    const input: string
    var position: nat
    var readPosition: nat
    var ch: char

    /** The read cursor is one ahead, and `ch` is the byte under the cursor (NUL past the end). */
    ghost predicate Valid()
      reads this
    {
      readPosition == position + 1 && ch == CharAt(input, position)
    }

    /** The tokens still to come before the first eof. */
    ghost function Remaining(): seq<Token>
      reads this
    {
      TokensFrom(input, position)
    }

    constructor (input: string)
      ensures Valid()
      ensures this.input == input && position == 0
    {
      this.input := input;
      position := 0;
      readPosition := 1;
      // indexing an empty std::string at 0 yields its terminating NUL
      ch := if |input| > 0 then input[0] else NUL;
    }

    /** The implicit copy constructor: the parser takes its lexer by value. */
    constructor Copy(other: Lexer)
      requires other.Valid()
      ensures Valid()
      ensures input == other.input && position == other.position
    {
      input := other.input;
      position := other.position;
      readPosition := other.readPosition;
      ch := other.ch;
    }

    method ReadChar()
      requires Valid()
      modifies this
      ensures Valid()
      ensures position == old(position) + 1
    {
      if readPosition >= |input| {
        ch := NUL;
      } else {
        ch := input[readPosition];
      }
      position := readPosition;
      readPosition := readPosition + 1;
    }

    method ReadIdentifier() returns (word: string)
      requires Valid()
      modifies this
      ensures Valid()
      ensures position == IdentEnd(input, old(position))
      ensures word == IdentWord(input, old(position))
    {
      ghost var start := position;
      word := [];
      while IsLetter(ch)
        invariant Valid()
        invariant start <= position
        invariant IdentEnd(input, position) == IdentEnd(input, start)
        invariant start <= |input| ==> position <= |input| && word == input[start..position]
        invariant start > |input| ==> position == start && word == []
        decreases |input| - position
      {
        word := word + [ch];
        ReadChar();
      }
    }

    /** Skips one byte when the byte passed in is a space or a newline. */
    method SkipWhitespace(byte: char)
      requires Valid()
      modifies this
      ensures Valid()
      ensures position == if IsSkipped(byte) then old(position) + 1 else old(position)
    {
      if byte == ' ' || byte == '\n' {
        ReadChar();
      }
    }

    method NextToken() returns (tok: Token)
      requires Valid()
      modifies this
      ensures Valid()
      ensures (tok, position) == Scan(input, old(position))
      ensures old(Remaining()) == if tok.kind == Eof then [] else [tok] + Remaining()
    {
      SkipWhitespace(ch);
      match ch {
      case '=' => tok := CharToken(Assign, ch);
      case ';' => tok := CharToken(Semicolon, ch);
      case '(' => tok := CharToken(LParen, ch);
      case ')' => tok := CharToken(RParen, ch);
      case ',' => tok := CharToken(Comma, ch);
      case '+' => tok := CharToken(Plus, ch);
      case '{' => tok := CharToken(LSquirly, ch);
      case '}' => tok := CharToken(RSquirly, ch);
      case '\0' => tok := CharToken(Eof, ch);
      case _ =>
        if IsAlpha(ch) {
          var word := ReadIdentifier();
          var keyword := LookupKeyword(word);
          tok := Token(keyword, word);
        } else if IsDigitChar(ch) {
          tok := CharToken(Integer, ch);
        } else {
          tok := CharToken(Illegal, ch);
        }
      }
      ReadChar();
    }
  }
}
