/**
 * The token model: the closed set of token kinds, the (kind, literal) token
 * value, its three constructors, and the keyword table.
 */
module Tokens {
  import opened Wrappers

  /** The 27 token kinds, in declaration order. */
  datatype TokenType =
    | Illegal | Eof | Identifier | Integer
    | Assign | Plus | Minus | Bang | Slash | Asterisk | Lt | Gt
    | Comma | Semicolon | LParen | RParen | LSquirly | RSquirly
    | Function | Let | If | Else | Return | True | False
    | Equal | NotEqual

  const KindCount: nat := 27

  /** The integer an enumerator converts to; it is what error messages print. */
  function Ordinal(k: TokenType): (n: nat)
    ensures n < KindCount
  {
    match k
    case Illegal => 0    case Eof => 1        case Identifier => 2  case Integer => 3
    case Assign => 4     case Plus => 5       case Minus => 6       case Bang => 7
    case Slash => 8      case Asterisk => 9   case Lt => 10         case Gt => 11
    case Comma => 12     case Semicolon => 13 case LParen => 14     case RParen => 15
    case LSquirly => 16  case RSquirly => 17  case Function => 18   case Let => 19
    case If => 20        case Else => 21      case Return => 22     case True => 23
    case False => 24     case Equal => 25     case NotEqual => 26
  }

  /** The enumerator with a given integer value. */
  function KindOf(n: nat): (k: TokenType)
    requires n < KindCount
    ensures Ordinal(k) == n
  {
    [Illegal, Eof, Identifier, Integer,
     Assign, Plus, Minus, Bang, Slash, Asterisk, Lt, Gt,
     Comma, Semicolon, LParen, RParen, LSquirly, RSquirly,
     Function, Let, If, Else, Return, True, False,
     Equal, NotEqual][n]
  }

  lemma OrdinalRoundTrip(k: TokenType)
    ensures KindOf(Ordinal(k)) == k
  {
  }

  /** Distinct kinds print as distinct numbers. */
  lemma OrdinalInjective(k: TokenType, l: TokenType)
    requires Ordinal(k) == Ordinal(l)
    ensures k == l
  {
    OrdinalRoundTrip(k);
    OrdinalRoundTrip(l);
  }

  /** A token is exactly a kind and its literal text. */
  datatype Token = Token(kind: TokenType, literal: string)

  const NUL: char := 0 as char

  /** The `std::string` built from a C string: its characters up to the first NUL. */
  function FromCString(chars: seq<char>): (s: string)
    ensures |s| <= |chars| && s == chars[..|s|]
    ensures forall i :: 0 <= i < |s| ==> s[i] != NUL
    ensures |s| < |chars| ==> chars[|s|] == NUL
  {
    if chars == [] || chars[0] == NUL then [] else [chars[0]] + FromCString(chars[1..])
  }

  /** The default constructor: kind eof, literal built from the C string "\0". */
  function DefaultToken(): (t: Token)
    ensures t.kind == Eof && t.literal == ""
  {
    Token(Eof, FromCString([NUL]))
  }

  /** The constructor from a kind and one character: the literal is that character. */
  function CharToken(kind: TokenType, c: char): Token
  {
    Token(kind, [c])
  }

  predicate IsKeyword(k: TokenType) {
    k in {Function, Let, True, False, If, Else, Return}
  }

  /** The table `getKeyword` builds and looks words up in. */
  const Keywords: map<string, TokenType> :=
    map["fn" := Function, "let" := Let, "true" := True, "false" := False,
        "if" := If, "else" := Else, "return" := Return]

  /** Classifies a word: a keyword kind when the table holds it, otherwise identifier. */
  function LookupKeyword(word: string): (k: TokenType)
    ensures k == Identifier || IsKeyword(k)
  {
    if word in Keywords then Keywords[word] else Identifier
  }

  /** Exactly the seven keyword spellings classify as something other than an identifier. */
  lemma LookupKeywordIsKeyword(word: string)
    ensures LookupKeyword(word) != Identifier <==> word in {"fn", "let", "true", "false", "if", "else", "return"}
  {
  }

  /** The one spelling of each keyword kind. */
  function Spelling(k: TokenType): (w: string)
    requires IsKeyword(k)
    ensures |w| > 0
  {
    match k
    case Function => "fn"
    case Let => "let"
    case True => "true"
    case False => "false"
    case If => "if"
    case Else => "else"
    case Return => "return"
  }

  /** Every keyword token of a sequence carries its keyword's spelling. */
  predicate KeywordsSpelled(ts: seq<Token>)
  {
    forall i :: 0 <= i < |ts| && IsKeyword(ts[i].kind) ==> ts[i].literal == Spelling(ts[i].kind)
  }

  /** Every keyword kind is reached from its spelling. */
  lemma LookupSpelling(k: TokenType)
    requires IsKeyword(k)
    ensures LookupKeyword(Spelling(k)) == k
  {
  }

  /** A word classified as a keyword is that keyword's spelling, so the table is one-to-one. */
  lemma LookupIsSpelling(word: string)
    requires LookupKeyword(word) != Identifier
    ensures Spelling(LookupKeyword(word)) == word
  {
  }

  lemma KeywordsInjective(w1: string, w2: string)
    requires LookupKeyword(w1) == LookupKeyword(w2) != Identifier
    ensures w1 == w2
  {
    LookupIsSpelling(w1);
    LookupIsSpelling(w2);
  }

  /** Matching is exact: a different capitalisation, or the empty word, is an identifier. */
  lemma LookupIsCaseSensitive()
    ensures LookupKeyword("Let") == Identifier
    ensures LookupKeyword("FN") == Identifier
    ensures LookupKeyword("") == Identifier
  {
  }
}
